/**
 * The local spreadsheet file and guardarEnExcel's whole-file
 * read-modify-write append.
 *
 * The spreadsheet codec (`sheet_to_json` / `json_to_sheet`) is taken to be the
 * identity on row sequences: a sheet is modelled directly as the rows it holds.
 */
module ExcelStore {

  import opened Options
  import opened Records

  datatype Sheet = Sheet(name: string, rows: seq<Record>)

  /** A workbook: its sheets in `SheetNames` order. */
  datatype Workbook = Workbook(sheets: seq<Sheet>)

  /** The name of the sheet added to a workbook that has none. */
  const NewSheetName := "Marcaciones"

  /** What the disk does during one save: nothing unusual, `readFile` throws, or `writeFile` throws. */
  datatype DiskFault =
    | Healthy
    | ReadFails
    | WriteFails(leftover: Option<Workbook>)  // what a failed write leaves on disk

  /** The rows read back from a file: none when it is absent, else its first sheet's rows. */
  function StoredRows(file: Option<Workbook>): seq<Record>
  {
    match file
    case None => []
    case Some(wb) => if |wb.sheets| == 0 then [] else wb.sheets[0].rows
  }

  /** Whether guardarEnExcel returns normally: `readFile` runs only when the file exists. */
  predicate SaveSucceeds(file: Option<Workbook>, fault: DiskFault)
  {
    !fault.WriteFails? && !(fault.ReadFails? && file.Some?)
  }

  /**
   * The workbook guardarEnExcel writes: the old rows followed by the new one in
   * the first sheet (or in a new sheet `Marcaciones`), every other sheet kept.
   */
  function Appended(file: Option<Workbook>, datos: Record): (wb: Workbook)
    ensures StoredRows(Some(wb)) == StoredRows(file) + [datos]
    ensures |StoredRows(Some(wb))| == |StoredRows(file)| + 1
    ensures forall i :: 0 <= i < |StoredRows(file)| ==> StoredRows(Some(wb))[i] == StoredRows(file)[i]
    ensures file.Some? && |file.value.sheets| > 0 ==>
              && |wb.sheets| == |file.value.sheets|
              && wb.sheets[0].name == file.value.sheets[0].name
              && wb.sheets[1..] == file.value.sheets[1..]
    ensures file.None? || |file.value.sheets| == 0 ==>
              wb.sheets == [Sheet(NewSheetName, [datos])]
  {
    var registros := StoredRows(file) + [datos];
    var workbook := if file.Some? then file.value else Workbook([]);
    if |workbook.sheets| > 0 then
      workbook.(sheets := workbook.sheets[0 := workbook.sheets[0].(rows := registros)])
    else
      assert registros == [datos];
      workbook.(sheets := workbook.sheets + [Sheet(NewSheetName, registros)])
  }

  /** The file after a run of successful saves of `ds`, in order. */
  function AppendMany(file: Option<Workbook>, ds: seq<Record>): Option<Workbook>
    decreases |ds|
  {
    if ds == [] then file else AppendMany(Some(Appended(file, ds[0])), ds[1..])
  }

  /** Successive appends keep every stored row and add the new ones in call order. */
  lemma {:induction false} AppendManyRows(file: Option<Workbook>, ds: seq<Record>)
    ensures StoredRows(AppendMany(file, ds)) == StoredRows(file) + ds
    decreases |ds|
  {
    if ds != [] {
      AppendManyRows(Some(Appended(file, ds[0])), ds[1..]);
      assert StoredRows(file) + [ds[0]] + ds[1..] == StoredRows(file) + ds;
    }
  }

  /** The local spreadsheet file; `contents` is `None` while the file does not exist. */
  class LocalFile {
    var contents: Option<Workbook>

    constructor (initial: Option<Workbook>)
      ensures contents == initial
    {
      contents := initial;
    }

    /** The rows a read of the file yields. */
    function Rows(): seq<Record>
      reads this
    {
      StoredRows(contents)
    }

    /** guardarEnExcel: load the rows, push `datos`, rebuild the first sheet and rewrite the file. */
    method Guardar(datos: Record, fault: DiskFault) returns (ok: bool)
      modifies this
      ensures ok <==> SaveSucceeds(old(contents), fault)
      ensures ok ==> contents == Some(Appended(old(contents), datos))
      ensures ok ==> Rows() == old(Rows()) + [datos]
      ensures !ok && fault.ReadFails? ==> contents == old(contents)
      ensures fault.WriteFails? ==> contents == fault.leftover
    {
      var registros: seq<Record> := [];
      var workbook: Workbook;
      if contents.Some? {
        if fault.ReadFails? {
          return false;
        }
        workbook := contents.value;
        registros := StoredRows(contents);
      } else {
        workbook := Workbook([]);
      }

      registros := registros + [datos];

      if |workbook.sheets| > 0 {
        workbook := workbook.(sheets := workbook.sheets[0 := workbook.sheets[0].(rows := registros)]);
      } else {
        workbook := workbook.(sheets := workbook.sheets + [Sheet(NewSheetName, registros)]);
      }

      if fault.WriteFails? {
        contents := fault.leftover;
        return false;
      }
      contents := Some(workbook);
      ok := true;
    }
  }
}
