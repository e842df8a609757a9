/**
 * The remote copy on Google Drive and subirArchivoAGoogleDrive's
 * find-or-create-then-update of the file `marcaciones.xlsx` in one folder.
 *
 * The Drive is abstract state: a sequence of files and a supply of fresh ids.
 * An uploaded file's content is the local workbook the upload read.
 */
module DriveMirror {

  import opened Options
  import opened ExcelStore

  type FileId = nat
  type FolderId = string

  /** The name the upload searches for and creates. */
  const MirrorName := "marcaciones.xlsx"

  datatype DriveFile = DriveFile(id: FileId, name: string, parent: FolderId, content: Workbook)

  /** The `webViewLink` Drive reports for a file. */
  datatype Url = WebViewLink(fileId: FileId)

  /** Which Drive call, if any, throws during one upload. */
  datatype RemoteFault = NoFault | ListFails | CreateFails | UpdateFails

  datatype UploadResult = Uploaded(archivoUrl: Url) | UploadFailed

  /** The list query `name = … and '<folder>' in parents`. */
  predicate IsMatch(f: DriveFile, name: string, parent: FolderId)
  {
    f.name == name && f.parent == parent
  }

  predicate HasId(files: seq<DriveFile>, id: FileId)
  {
    exists i :: 0 <= i < |files| && files[i].id == id
  }

  /** What `drive.files.list` returns: the matching files, in the folder's order. */
  function Matching(files: seq<DriveFile>, name: string, parent: FolderId): (r: seq<DriveFile>)
    ensures |r| <= |files|
    ensures forall f :: f in r <==> f in files && IsMatch(f, name, parent)
  {
    if files == [] then []
    else
      var rest := Matching(files[1..], name, parent);
      assert forall f :: f in files <==> f == files[0] || f in files[1..];
      if IsMatch(files[0], name, parent) then [files[0]] + rest else rest
  }

  /** The files after `drive.files.update` replaced the content of file `id`. */
  function WithContent(files: seq<DriveFile>, id: FileId, content: Workbook): (r: seq<DriveFile>)
    ensures |r| == |files|
    ensures forall i :: 0 <= i < |files| && files[i].id == id ==> r[i] == files[i].(content := content)
    ensures forall i :: 0 <= i < |files| && files[i].id != id ==> r[i] == files[i]
  {
    if files == [] then []
    else
      var head := if files[0].id == id then files[0].(content := content) else files[0];
      [head] + WithContent(files[1..], id, content)
  }

  /** The first file the list returns is the first matching file of the folder. */
  lemma {:induction false} FirstMatchIsFirst(files: seq<DriveFile>, name: string, parent: FolderId)
    requires |Matching(files, name, parent)| > 0
    ensures exists i :: 0 <= i < |files| && files[i] == Matching(files, name, parent)[0]
                        && forall j :: 0 <= j < i ==> !IsMatch(files[j], name, parent)
  {
    if IsMatch(files[0], name, parent) {
      assert files[0] == Matching(files, name, parent)[0];
    } else {
      FirstMatchIsFirst(files[1..], name, parent);
      var i :| 0 <= i < |files[1..]| && files[1..][i] == Matching(files[1..], name, parent)[0]
               && forall j :: 0 <= j < i ==> !IsMatch(files[1..][j], name, parent);
      assert files[i + 1] == Matching(files, name, parent)[0];
      forall j | 0 <= j < i + 1
        ensures !IsMatch(files[j], name, parent)
      {
        if j > 0 { assert files[j] == files[1..][j - 1]; }
      }
    }
  }

  /** Adding one file adds it to the list result exactly when it matches. */
  lemma {:induction false} MatchingAppend(files: seq<DriveFile>, f: DriveFile, name: string, parent: FolderId)
    ensures Matching(files + [f], name, parent)
            == Matching(files, name, parent) + (if IsMatch(f, name, parent) then [f] else [])
  {
    if files != [] {
      assert (files + [f])[1..] == files[1..] + [f];
      MatchingAppend(files[1..], f, name, parent);
    } else {
      assert [f][1..] == [];
    }
  }

  /** Replacing a file's content does not change how many files the list returns. */
  lemma {:induction false} MatchingWithContentSize(files: seq<DriveFile>, id: FileId, c: Workbook, name: string, parent: FolderId)
    ensures |Matching(WithContent(files, id, c), name, parent)| == |Matching(files, name, parent)|
  {
    if files != [] {
      var r := WithContent(files, id, c);
      assert r[1..] == WithContent(files[1..], id, c);
      MatchingWithContentSize(files[1..], id, c, name, parent);
    }
  }

  /** Writing the content a file already has changes nothing. */
  lemma {:induction false} WithContentSame(files: seq<DriveFile>, id: FileId, c: Workbook)
    requires forall i :: 0 <= i < |files| && files[i].id == id ==> files[i].content == c
    ensures WithContent(files, id, c) == files
  {
    if files != [] {
      WithContentSame(files[1..], id, c);
    }
  }

  /** After an update of a file that matches, that file is still there, matches, and holds the new content. */
  lemma {:induction false} UpdatedFileResolves(files: seq<DriveFile>, id: FileId, c: Workbook, name: string, parent: FolderId)
    requires HasId(files, id)
    requires forall i :: 0 <= i < |files| && files[i].id == id ==> IsMatch(files[i], name, parent)
    ensures HasId(WithContent(files, id, c), id)
    ensures forall f :: f in WithContent(files, id, c) && f.id == id ==> f.content == c && IsMatch(f, name, parent)
    ensures |Matching(WithContent(files, id, c), name, parent)| == |Matching(files, name, parent)|
  {
    var r := WithContent(files, id, c);
    var k :| 0 <= k < |files| && files[k].id == id;
    assert r[k].id == id;
    forall f | f in r && f.id == id
      ensures f.content == c && IsMatch(f, name, parent)
    {
      var i :| 0 <= i < |r| && r[i] == f;
      assert files[i].id == id;
    }
    MatchingWithContentSize(files, id, c, name, parent);
  }

  /** Whether one upload returns a link: the local file exists and no Drive call it makes throws. */
  predicate UploadSucceeds(files: seq<DriveFile>, folder: FolderId, local: Option<Workbook>, fault: RemoteFault)
  {
    && local.Some?
    && fault != ListFails
    && (if |Matching(files, MirrorName, folder)| > 0 then fault != UpdateFails else fault == NoFault)
  }

  /** The remote state one upload leaves: the Drive's files and its next fresh id. */
  datatype Remote = Remote(files: seq<DriveFile>, nextId: FileId)

  /**
   * The remote state after one upload. Nothing changes without a local file or
   * when the search throws. When a match exists, only the first match's content
   * is replaced. With no match, one file is created holding the local content.
   */
  function AfterUpload(files: seq<DriveFile>, nextId: FileId, folder: FolderId,
                       local: Option<Workbook>, fault: RemoteFault): (r: Remote)
    ensures |Matching(r.files, MirrorName, folder)| <= |Matching(files, MirrorName, folder)| + 1
    ensures |Matching(files, MirrorName, folder)| > 0 ==>
              r.nextId == nextId && |Matching(r.files, MirrorName, folder)| == |Matching(files, MirrorName, folder)|
    ensures UploadSucceeds(files, folder, local, fault) ==> |Matching(r.files, MirrorName, folder)| >= 1
    ensures r.nextId == nextId || (r.nextId == nextId + 1 && |Matching(files, MirrorName, folder)| == 0)
  {
    if local.None? || fault == ListFails then Remote(files, nextId)
    else
      var found := Matching(files, MirrorName, folder);
      if |found| > 0 then
        if fault == UpdateFails then Remote(files, nextId)
        else
          MatchingWithContentSize(files, found[0].id, local.value, MirrorName, folder);
          Remote(WithContent(files, found[0].id, local.value), nextId)
      else if fault == CreateFails then Remote(files, nextId)
      else
        var created := DriveFile(nextId, MirrorName, folder, local.value);
        MatchingAppend(files, created, MirrorName, folder);
        Remote(files + [created], nextId + 1)
  }

  /** The files of the Drive account and the next id it will hand out. */
  class Drive {
    var files: seq<DriveFile>
    var nextId: FileId

    /** Ids are unique and all below the next fresh id. */
    ghost predicate Valid()
      reads this
    {
      && (forall i :: 0 <= i < |files| ==> files[i].id < nextId)
      && (forall i, j :: 0 <= i < j < |files| ==> files[i].id != files[j].id)
    }

    constructor ()
      ensures Valid() && files == [] && nextId == 0
    {
      files, nextId := [], 0;
    }

    /** `drive.files.create`: a new file with a fresh id, or nothing when the call throws. */
    method Create(name: string, parent: FolderId, content: Workbook, fails: bool) returns (id: Option<FileId>)
      requires Valid()
      modifies this
      ensures Valid()
      ensures fails ==> id.None? && files == old(files) && nextId == old(nextId)
      ensures !fails ==> && id == Some(old(nextId))
                         && files == old(files) + [DriveFile(old(nextId), name, parent, content)]
                         && nextId == old(nextId) + 1
    {
      if fails {
        return None;
      }
      files := files + [DriveFile(nextId, name, parent, content)];
      id := Some(nextId);
      nextId := nextId + 1;
    }

    /** `drive.files.update`: replace file `id`'s content and report its link; throws for an unknown id. */
    method Update(id: FileId, content: Workbook, fails: bool) returns (link: Option<Url>)
      requires Valid()
      modifies this
      ensures Valid()
      ensures nextId == old(nextId)
      ensures link.Some? <==> !fails && HasId(old(files), id)
      ensures link.Some? ==> link.value == WebViewLink(id) && files == WithContent(old(files), id, content)
      ensures link.None? ==> files == old(files)
    {
      if fails || !HasId(files, id) {
        return None;
      }
      files := WithContent(files, id, content);
      link := Some(WebViewLink(id));
    }
  }

  /**
   * subirArchivoAGoogleDrive: fail when there is no local file; otherwise reuse
   * the first `marcaciones.xlsx` in the folder or create one, then overwrite its
   * content with the local file and return its link.
   */
  method SubirArchivo(drive: Drive, folder: FolderId, local: Option<Workbook>, fault: RemoteFault)
    returns (res: UploadResult)
    requires drive.Valid()
    modifies drive
    ensures drive.Valid()
    ensures res.Uploaded? <==> UploadSucceeds(old(drive.files), folder, local, fault)
    ensures Remote(drive.files, drive.nextId) == AfterUpload(old(drive.files), old(drive.nextId), folder, local, fault)
    // Nothing remote happens without a local file or when the search throws.
    ensures local.None? || fault == ListFails ==>
              drive.files == old(drive.files) && drive.nextId == old(drive.nextId)
    // A match exists: nothing is created, and only the first match's content may change.
    ensures local.Some? && fault != ListFails && |Matching(old(drive.files), MirrorName, folder)| > 0 ==>
              && drive.nextId == old(drive.nextId)
              && drive.files == (if fault == UpdateFails then old(drive.files)
                                 else WithContent(old(drive.files), Matching(old(drive.files), MirrorName, folder)[0].id, local.value))
    // No match: exactly one file is created, unless the create itself throws.
    ensures local.Some? && fault != ListFails && |Matching(old(drive.files), MirrorName, folder)| == 0 ==>
              if fault == CreateFails then
                drive.files == old(drive.files) && drive.nextId == old(drive.nextId)
              else
                && drive.files == old(drive.files) + [DriveFile(old(drive.nextId), MirrorName, folder, local.value)]
                && drive.nextId == old(drive.nextId) + 1
    // The returned link names the resolved file, which now holds the local content.
    ensures res.Uploaded? ==>
              res.archivoUrl.fileId == (if |Matching(old(drive.files), MirrorName, folder)| > 0
                                        then Matching(old(drive.files), MirrorName, folder)[0].id
                                        else old(drive.nextId))
    ensures res.Uploaded? ==>
              && HasId(drive.files, res.archivoUrl.fileId)
              && forall f :: f in drive.files && f.id == res.archivoUrl.fileId ==>
                   f.content == local.value && IsMatch(f, MirrorName, folder)
    // The number of matching files grows by at most one, and not at all when one existed.
    ensures |Matching(drive.files, MirrorName, folder)| <= |Matching(old(drive.files), MirrorName, folder)| + 1
    ensures |Matching(old(drive.files), MirrorName, folder)| > 0 ==>
              |Matching(drive.files, MirrorName, folder)| == |Matching(old(drive.files), MirrorName, folder)|
    ensures res.Uploaded? ==> |Matching(drive.files, MirrorName, folder)| >= 1
  {
    if local.None? {
      return UploadFailed;
    }
    if fault == ListFails {
      return UploadFailed;
    }
    ghost var before := drive.files;
    var respuesta := Matching(drive.files, MirrorName, folder);

    var archivoId: FileId;
    if |respuesta| > 0 {
      archivoId := respuesta[0].id;
      assert respuesta[0] in before;
      forall i | 0 <= i < |before| && before[i].id == archivoId
        ensures IsMatch(before[i], MirrorName, folder)
      {
        var k :| 0 <= k < |before| && before[k] == respuesta[0];
        assert i == k;
      }
    } else {
      var created := drive.Create(MirrorName, folder, local.value, fault == CreateFails);
      if created.None? {
        return UploadFailed;
      }
      archivoId := created.value;
      MatchingAppend(before, DriveFile(archivoId, MirrorName, folder, local.value), MirrorName, folder);
      assert drive.files[|before|].id == archivoId;
      forall i | 0 <= i < |drive.files| && drive.files[i].id == archivoId
        ensures IsMatch(drive.files[i], MirrorName, folder) && drive.files[i].content == local.value
      {
        assert i == |before|;
      }
    }

    ghost var resolved := drive.files;
    var link := drive.Update(archivoId, local.value, fault == UpdateFails);
    if link.None? {
      return UploadFailed;
    }
    if |respuesta| == 0 {
      WithContentSame(resolved, archivoId, local.value);
    }
    UpdatedFileResolves(resolved, archivoId, local.value, MirrorName, folder);
    res := Uploaded(link.value);
  }
}
