# Check-in persistence of Back-Marcaciones, in Dafny

Back-Marcaciones is a small Express server that records attendance check-ins
("marcaciones"). A `POST /registrar` runs a validation gate on the request body
and builds a record, stamping the submitted dates with the server's clock. It
then appends the record to a local Excel workbook by rewriting the whole file.
Last, it mirrors that file to Google Drive: it reuses the first
`marcaciones.xlsx` in a configured folder, or creates one, and overwrites its
content. A `GET /registros` returns every stored row.

This project models that path and proves its control decisions:

- `JsValues`: request-body values and JavaScript truthiness (`Falsy`), which every presence test in the handler uses.
- `TimeCombiner`: `combinarFechaConHoraActual` over a `Date` seen as integer fields.
- `Records`: the body, the stored record, the three-field gate and the record with its defaults.
- `ExcelStore`: the local file as an optional workbook, and the whole-file append `guardarEnExcel` as a method of a `LocalFile` class.
- `DriveMirror`: the Drive as a class holding a sequence of `(id, name, parent, content)` files and a fresh-id supply. It defines the `list`/`create`/`update` calls and the find-or-create-then-update `SubirArchivo`.
- `Endpoints`: the two handler bodies, over the two stores.

Modelling assumptions, stated once:

- The spreadsheet codec (`sheet_to_json`, `json_to_sheet`, `readFile`, `writeFile`) is taken to be the identity on row sequences: a sheet is the sequence of records it holds. This is an assumption about the XLSX library, not something the code guarantees. For example, SheetJS drops empty cells when reading, so a blank `horaSalida` may not read back as a key.
- An existing workbook with no sheets reads as no rows.
- Faults are parameters. `DiskFault` says whether `readFile` or `writeFile` throws, and what a failed write leaves on disk. `RemoteFault` says which Drive call throws.
- `new Date(fecha)` is a parameter (`Context.parse`). It gives `None` where the constructor throws, for instance on an object whose `valueOf` and `toString` cannot produce a primitive. So are the clock at each combiner call, the ISO text of `new Date()` and `req.ip`.
- A `Stamp` is a structured stand-in for the text `toLocaleString('es-ES', …)` prints.

What the code does on its failure paths, as modelled:

- A failed upload after a successful save answers a plain 500 (`ServerError`). The code has no partial-success result (index.js:263-270).
- The local save rewrites the file in place with `XLSX.writeFile`, with no atomic replace. A failed write therefore leaves whatever `DiskFault.WriteFails` says is on disk (index.js:112).
- There is no lock around the save or the upload.
- The Drive search is by name in one folder (index.js:138-141). No folder or permission is created.

Two definitions sit behind several rows below:

- `Records.HasRequiredFields` is the validation gate at index.js:229. The `Endpoints.Registrar` row states what it decides.
- `ExcelStore.StoredRows` is the read at index.js:95-98 and index.js:282-284. A missing file counts as no rows; otherwise it gives the first sheet's rows as `sheet_to_json` returns them. The `ExcelStore.Appended`, `ExcelStore.LocalFile.Guardar` and `Endpoints.Registros` rows are stated through it.

## Model

| member | source | states |
|---|---|---|
| `TimeCombiner.Combine` | index.js:194-213 | Falsy input gives the empty sentinel, and only falsy input does. It throws (`None`) exactly when the input is truthy and `new Date` throws on it. An invalid parsed date prints as the invalid-date text. Otherwise hour, minute and second come from the supplied clock, and year, month and day come from the parsed date. |
| `Records.BuildRecord` | index.js:236-249 | No record is built (`None`) exactly when a truthy `horaEntrada` or `horaSalida` makes `new Date` throw. Otherwise `nombre`, `cedula` and `agencia` are copied unchanged. Each time column is blank exactly when its input is falsy. Otherwise it is exactly the combiner's output for that input, with the clock of its own combiner call. `observaciones` defaults to `''` when falsy and is kept otherwise. The timestamp and ip come from the context. |
| `ExcelStore.Appended` | index.js:91-112 | The rewritten workbook's rows are the old rows followed by the new record. It has one more row, and every earlier row keeps its position. The first sheet keeps its name and the other sheets are untouched. A file with no sheet gets a single sheet `Marcaciones`. |
| `ExcelStore.AppendManyRows` | index.js:88-118 | Any run of successful saves leaves the previously stored rows followed by the new records, in call order. |
| `ExcelStore.LocalFile.Guardar` | index.js:88-118 | The save returns normally exactly when no read of an existing file and no write throws. On success the file is the appended workbook and its rows grow by exactly the new record. A read failure leaves the file unchanged. A write failure leaves what the fault says. |
| `DriveMirror.Matching` | index.js:138-141 | The list result holds exactly the folder's files named as queried, and no more entries than the folder has. Their order (folder order) and multiplicity follow from `DriveMirror.MatchingAppend`. |
| `DriveMirror.FirstMatchIsFirst` | index.js:144-145 | The reused file `files[0]` is the first matching file in the folder. No file before it matches. |
| `DriveMirror.MatchingAppend` | index.js:147-165 | Creating a file adds it to the list result exactly when it has the queried name and parent. |
| `DriveMirror.WithContent` | index.js:168-178 | An update replaces the content of the file with the given id and leaves every other file as it was. |
| `DriveMirror.MatchingWithContentSize` | index.js:168-178 | Overwriting content never changes how many files match. |
| `DriveMirror.WithContentSame` | index.js:154-178 | Updating a just-created file with the content it was created with changes nothing. |
| `DriveMirror.AfterUpload` | index.js:123-178 | The remote state after one upload. The number of matching files grows by at most one. When a match existed, it does not grow and no id is consumed. After a successful upload at least one matching file exists. A fresh id is used only when there was no match. |
| `DriveMirror.Drive.Create` | index.js:149-165 | On success, the file is appended with the next fresh id, under the given name and parent, with the local content. A throw changes nothing. Ids stay unique. |
| `DriveMirror.Drive.Update` | index.js:168-178 | On success, the file gets the new content and the call returns that file's link. An unknown id or a throw returns nothing and changes nothing. |
| `DriveMirror.SubirArchivo` | index.js:123-189 | It fails with the remote unchanged when the local file is missing or the search throws. With at least one match it reuses the first one and creates nothing. With none it creates exactly one `marcaciones.xlsx` in the folder. After success the returned link names the resolved file, which holds the local content, and all other files are unchanged. The number of matches grows by at most one per call, and not at all when one existed. The new remote state is exactly `DriveMirror.AfterUpload` of the old one. |
| `Endpoints.Registrar` | index.js:222-271 | A falsy `nombre`, `cedula` or `agencia` answers BadRequest, and only that does; neither store changes and no upload runs. A throw while formatting a date answers ServerError before anything is saved or uploaded, so both stores are unchanged. Upload runs only after a successful save. A failed save is ServerError with the remote unchanged. After a successful save the row stays even if the upload fails (ServerError, no rollback). A failed save leaves the local file unchanged after a read failure, or as the write failure left it. After a successful save the remote state is exactly what `DriveMirror.AfterUpload` gives for the saved workbook, whatever the upload's outcome. A 200 carries the built record and the link of a file holding the saved workbook. |
| `Endpoints.Registros` | index.js:276-295 | It answers `[]` when the file is absent, and otherwise exactly the stored rows. It fails only when an existing file cannot be read, and it modifies neither store. |

## Left out

- Express setup, the CORS allowlist, body parsing, request logging, the global error handler and `app.listen`. These are HTTP plumbing.
- The environment and credential checks that call `process.exit`, and the `/health` endpoint. These are process bootstrap and runtime introspection.
- XLSX internals (file format, `book_new`, cell encoding). These are replaced by the identity row codec described above.
- Google authentication, the network transport of `drive.files.list/create/update`, and `fs.createReadStream`. The Drive is abstract state, and the uploaded content is the local workbook value.
- Drive list behaviour not captured by the folder/name filter: trashed files (the query does not exclude them), the visibility limits of the `drive.file` scope, and paging.
- Real `Date` parsing, time zones and daylight-saving shifts. `new Date('YYYY-MM-DD')` parses as UTC, so the calendar day comes from the supplied parse result and not from the submitted text.
- The `es-ES` text layout of `toLocaleString`. A `Stamp` records its fields instead.
- TimeCombiner.Combine: does not model the carry of an out-of-range hour, minute or second, because the clock's fields are always in range.
- TimeCombiner.Combine: does not model the limit of a JavaScript time value (±8.64e15 ms from the epoch, about years −271821 to 275760). A valid parsed date at the edge of that range can be pushed past it by `setHours`/`setMinutes`/`setSeconds`; the source then prints "Invalid Date", while the model keeps a `Shown` stamp, because `LocalDate.year` is unbounded and the setters never invalidate. The exact edge depends on the server's time-zone offset, which is not modelled.
- Interleaving of in-flight requests inside the asynchronous upload. Two requests can both see no match between the list and the create (index.js:138-165) and each create a file. A read stream (index.js:156, 171) can also send a file that another request has rewritten since. The model runs each upload alone.
- Several server processes sharing one workbook. The save itself is synchronous (index.js:95-112, called without `await` at index.js:252), so within one process two saves never interleave. That is what the model's atomic `LocalFile.Guardar` captures. Across processes, two read-modify-write cycles can lose an update, and that is not modelled.
- The order of the list result. `drive.files.list` is called without `orderBy` (index.js:138-141), and Drive promises no order without it. The model takes the list in the folder's sequence order, with newly created files last, so "first match" means the earliest file in that sequence.
- The `error.message` shown in development mode and the response message texts.
