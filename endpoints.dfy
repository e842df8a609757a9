/**
 * The bodies of the `/registrar` and `/registros` handlers: validate, build
 * the record, save locally, mirror remotely, and answer.
 */
module Endpoints {

  import opened Options
  import opened Records
  import opened ExcelStore
  import opened DriveMirror

  /** The answer of `/registrar`: 400, 200 with the record and the link, or 500. */
  datatype Response = BadRequest | Ok(data: Record, archivoUrl: Url) | ServerError

  /** The answer of `/registros`: 200 with the rows, or 500. */
  datatype ListResponse = Listed(data: seq<Record>) | ListFailed

  /**
   * POST /registrar. The gate and the record construction run before any store
   * is touched; the local save runs before the upload, and a failed upload does
   * not undo it. Every throw answers 500.
   */
  method Registrar(body: Body, ctx: Context, local: LocalFile, drive: Drive, folder: FolderId,
                   diskFault: DiskFault, remoteFault: RemoteFault) returns (res: Response)
    requires drive.Valid()
    modifies local, drive
    ensures drive.Valid()
    ensures res.BadRequest? <==> !HasRequiredFields(body)
    // Validation failure touches neither store.
    ensures !HasRequiredFields(body) ==>
              && local.contents == old(local.contents)
              && drive.files == old(drive.files) && drive.nextId == old(drive.nextId)
    // A throw while formatting a date is a 500 before anything is saved or uploaded.
    ensures HasRequiredFields(body) && BuildRecord(body, ctx).None? ==>
              && res.ServerError?
              && local.contents == old(local.contents)
              && drive.files == old(drive.files) && drive.nextId == old(drive.nextId)
    // A failed save is a 500 and no upload is attempted.
    ensures HasRequiredFields(body) && BuildRecord(body, ctx).Some? && !SaveSucceeds(old(local.contents), diskFault) ==>
              && res.ServerError?
              && drive.files == old(drive.files) && drive.nextId == old(drive.nextId)
              && local.contents == (if diskFault.WriteFails? then diskFault.leftover else old(local.contents))
    // After a successful save the row stays stored, whatever the upload does.
    ensures HasRequiredFields(body) && BuildRecord(body, ctx).Some? && SaveSucceeds(old(local.contents), diskFault) ==>
              && local.contents == Some(Appended(old(local.contents), BuildRecord(body, ctx).value))
              && local.Rows() == old(local.Rows()) + [BuildRecord(body, ctx).value]
              && (res.Ok? <==> UploadSucceeds(old(drive.files), folder, local.contents, remoteFault))
              && (!res.Ok? ==> res.ServerError?)
              && Remote(drive.files, drive.nextId)
                 == AfterUpload(old(drive.files), old(drive.nextId), folder, local.contents, remoteFault)
    ensures |Matching(drive.files, MirrorName, folder)| <= |Matching(old(drive.files), MirrorName, folder)| + 1
    // A 200 carries the built record and the link of a file holding the saved workbook.
    ensures res.Ok? ==>
              && Some(res.data) == BuildRecord(body, ctx)
              && HasId(drive.files, res.archivoUrl.fileId)
              && forall f :: f in drive.files && f.id == res.archivoUrl.fileId ==>
                   Some(f.content) == local.contents && IsMatch(f, MirrorName, folder)
  {
    if !HasRequiredFields(body) {
      return BadRequest;
    }

    var built := BuildRecord(body, ctx);
    if built.None? {
      return ServerError;
    }
    var registro := built.value;

    var saved := local.Guardar(registro, diskFault);
    if !saved {
      return ServerError;
    }

    var driveInfo := SubirArchivo(drive, folder, local.contents, remoteFault);
    if driveInfo.UploadFailed? {
      return ServerError;
    }
    res := Ok(registro, driveInfo.archivoUrl);
  }

  /** GET /registros: every stored row, none when the file is absent; changes no store. */
  method Registros(local: LocalFile, readFails: bool) returns (res: ListResponse)
    ensures res.ListFailed? <==> readFails && local.contents.Some?
    ensures res.Listed? ==> res.data == local.Rows()
    ensures local.contents.None? ==> res == Listed([])
  {
    if local.contents.None? {
      return Listed([]);
    }
    if readFails {
      return ListFailed;
    }
    res := Listed(local.Rows());
  }
}
