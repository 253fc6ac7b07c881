# Report store, users and spreadsheet conversion: a Dafny model

The system is a small ASP.NET application (a server API and a Razor client). Users
upload Excel reports. The server keeps a metadata row per report in its
`ReportDatas` table and the file itself in a `wwwroot\uploads` directory. It can
convert a workbook to a Word document: per worksheet that has a used range, a
heading, a table of at most 100 × 20 cell texts, an image per picture or chart,
and a page break. Users register, log in and edit their profile; passwords are
stored as the lower-case hex text of their SHA-256 digest. The client's details
page previews a workbook sheet by sheet and can export the first sheet to Word.

The model keeps the state the source changes. The report table and the user table
are sequences of rows in key order. The uploads directory is a map from full path
to file bytes. The services and controllers are classes whose methods change that
state. Each state change is also a pure function on a store value
(`Reports.AfterCreate`, `Users.AfterRegister`, …). Each method is proved equal to
its function, and the lemmas about the functions state what the source promises.

Modules:

- `Prelude`: `Option`, `Result`, `byte`, `Min`, the first-match search `IndexWhere`.
- `Strings`: null strings, `IsNullOrEmpty`, `IsNullOrWhiteSpace`, `Trim`, ordinal ignore-case suffix test, hex digits.
- `Paths`: `Path.GetExtension`, `GetFileName`, `GetFileNameWithoutExtension` and `Combine` with Windows separators.
- `Guids`: a GUID as 32 nibbles and its 36-character "D" text.
- `Hashing`: the password hasher.
- `Spreadsheet`: the abstract workbook, the 100 × 20 grid and the loop that reads it.
- `WordConversion`: the server's document body.
- `Reports`: the report service.
- `ReportsApi`: the reports controller.
- `Users`: the user service.
- `UserApi`: the user controller.
- `ReportDetails`: the client's details page.
- `Http`: the action results and their status codes.

Several values come from outside and are parameters:

- the GUID of each new file name;
- the SHA-256 digest, a function from string to 32 bytes with the UTF-8 encoding folded in;
- the clock reading stored as `RegisteredAt`;
- `ModelState.IsValid`;
- the workbook parser, from bytes to an optional workbook.

## Model

| member | source | states |
|---|---|---|
| Reports.ReportService.constructor | ServerForm/Services/ReportService.cs:26-33 | uploads live in `Combine(webRoot, "uploads")`; the store starts empty, valid and paired |
| Reports.ReportService.CreateReport | ServerForm/Services/ReportService.cs:35-55 | writes the bytes under `Combine(uploads, guid + extension)`, then appends a row with the next key and returns it; the table stays key-ordered |
| Reports.CreateThenGet | ServerForm/Services/ReportService.cs:37-54 | after create there is exactly one more row; it reads back under the new key with the caller's name; its path holds exactly the uploaded bytes; every other key reads as before |
| Reports.CreateKeepsPairing | ServerForm/Services/ReportService.cs:43-51 | with a fresh path, create adds exactly one file and every row still names its own distinct, existing file |
| Reports.StoredNameKeepsExtension | ServerForm/Services/ReportService.cs:37-40 | the stored name's extension is the original name's extension, or none when that name is null or empty; its stem is the GUID text |
| Reports.ReportService.GetAllReports | ServerForm/Services/ReportService.cs:57-60 | returns every row and changes nothing |
| Reports.ReportService.GetReport | ServerForm/Services/ReportService.cs:62-65 | returns the row with that key or null and changes nothing |
| Reports.Find | ServerForm/Services/ReportService.cs:64 | the result is a row with that key, and it is null exactly when no row has that key |
| Prelude.IndexWhere | ServerForm/Services/ReportService.cs:64 | the first position whose element passes the test, or -1 exactly when none does; used for every key and e-mail lookup |
| Prelude.SameVerdictsSameIndex | ServerForm/Services/ReportService.cs:64 | two lists on which the test agrees position by position have the same first match |
| Reports.ReportService.UpdateReport | ServerForm/Services/ReportService.cs:67-104 | returns null exactly for an unknown key; otherwise it renames the row and, with a stream, replaces its file; the result is the updated row |
| Reports.ReportService.ReplaceFile | ServerForm/Services/ReportService.cs:75-99 | deletes the old file if it is there, then writes the stream under `guid + extension of originalFileName` |
| Reports.UpdateUnknownIsNoop | ServerForm/Services/ReportService.cs:69-70 | update of an absent key changes neither table nor files |
| Reports.UpdateRow | ServerForm/Services/ReportService.cs:72-103 | the name is always replaced and no other row changes; without a stream, file name, path and files stay the same |
| Reports.UpdateReplacesFile | ServerForm/Services/ReportService.cs:75-99 | with a stream, the row points at a fresh file that has originalFileName's extension; the old file is gone and the new one holds the stream |
| Reports.UpdateKeepsPairing | ServerForm/Services/ReportService.cs:75-99 | with a fresh path, every row still names its own distinct, existing file |
| Reports.ReportService.DeleteReport | ServerForm/Services/ReportService.cs:106-118 | deletes the file and then the row; an unknown key changes nothing; the table stays key-ordered, and pairing is kept |
| Reports.DeleteKeepsValid | ServerForm/Services/ReportService.cs:116 | deleting a row keeps the remaining keys increasing and below the counter |
| Reports.DeleteUnknownIsNoop | ServerForm/Services/ReportService.cs:108-109 | delete of an absent key changes nothing |
| Reports.DeleteRemovesRowAndFile | ServerForm/Services/ReportService.cs:106-118 | the key no longer reads; its file is the only file removed; the table is one row shorter; every other key reads as before |
| Reports.FindAfterRemoval | ServerForm/Services/ReportService.cs:116 | removing a row from a key-ordered table hides that key and no other |
| Reports.RemovalKeepsInvariants | ServerForm/Services/ReportService.cs:111-116 | removing a row with its file keeps the table key-ordered and every remaining row paired |
| Reports.CreateThenDelete | ServerForm/Services/ReportService.cs:35-118 | creating a report and deleting it restores table and files; only the key counter has moved |
| Reports.ReportService.ConvertToWord | ServerForm/Services/ReportService.cs:120-198 | null for an unknown key; a failure when the file is missing, is no workbook, or a picture cannot be saved; otherwise the document body built sheet by sheet |
| Reports.ConvertOutline | ServerForm/Services/ReportService.cs:120-198 | conversion is null exactly for an unknown key; a produced body, with images removed, is the outline of the sheets with a used range, three elements each |
| WordConversion.BuildDocument | ServerForm/Services/ReportService.cs:135-193 | the loop over worksheets skips those without a used range and appends each section in order; a failing drawing aborts the whole conversion |
| WordConversion.BuildSection | ServerForm/Services/ReportService.cs:137-192 | one section is heading, table, one image per picture or chart, nothing for other drawings, page break; a picture whose PNG save throws aborts |
| WordConversion.DrawingImagesFailIff | ServerForm/Services/ReportService.cs:175-190 | a sheet's drawings fail exactly when one of them is a picture whose PNG save throws |
| WordConversion.DrawingImagesAreImageDrawings | ServerForm/Services/ReportService.cs:175-190 | a sheet that converts yields one image per picture or chart, in drawing order: the picture's PNG bytes or the chart's placeholder; other shapes yield nothing |
| WordConversion.ImageDrawings | ServerForm/Services/ReportService.cs:175-190 | the drawings kept are pictures and charts taken from the sheet |
| WordConversion.ImageDrawingsAppend | ServerForm/Services/ReportService.cs:175-190 | keeping pictures and charts distributes over concatenation, so every one is kept, in order |
| WordConversion.ImageDrawingsOfOne | ServerForm/Services/ReportService.cs:177-189 | a lone drawing is kept exactly when it is a picture or a chart |
| WordConversion.BodyFailsIff | ServerForm/Services/ReportService.cs:135-193 | conversion fails exactly when some sheet with a used range fails |
| WordConversion.SectionStructure | ServerForm/Services/ReportService.cs:138-192 | without its images a section is its heading, its table and its page break |
| WordConversion.BodyStructure | ServerForm/Services/ReportService.cs:135-193 | without its images the body is the outline of the kept sheets in workbook order |
| WordConversion.OutlineAt | ServerForm/Services/ReportService.cs:135-193 | the outline has three elements per kept sheet: heading, table and page break of sheet k at 3k, 3k+1 and 3k+2 |
| WordConversion.NonEmpty | ServerForm/Services/ReportService.cs:135 | the kept sheets all have a used range and come from the workbook |
| WordConversion.NonEmptyAppend | ServerForm/Services/ReportService.cs:135 | keeping the sheets with a used range distributes over concatenation, so every such sheet is kept, in workbook order |
| WordConversion.NonEmptyOfOne | ServerForm/Services/ReportService.cs:135 | a lone sheet is kept exactly when it has a used range |
| Spreadsheet.ReadGrid | ServerForm/Services/ReportService.cs:158-171 | the nested row and column loops produce the capped grid of cell texts |
| Spreadsheet.GridShape | ServerForm/Services/ReportService.cs:158-171 | the grid has min(Rows, 100) rows of min(Columns, 20) cells; cell (i, j) is the text at row i+1, column j+1, counted from A1 |
| Spreadsheet.Pictures | ClientForm/Pages/Reports/Details.cshtml.cs:154-167 | the drawings kept are pictures taken from the sheet |
| Spreadsheet.PicturesAppend | ClientForm/Pages/Reports/Details.cshtml.cs:154-167 | keeping the pictures distributes over concatenation, so every picture is kept, in order |
| Spreadsheet.PicturesOfOne | ClientForm/Pages/Reports/Details.cshtml.cs:156 | a lone drawing is kept exactly when it is a picture |
| Spreadsheet.SaveAsRaw | ClientForm/Pages/Reports/Details.cshtml.cs:159 | saving in the raw format throws for a format GDI+ has no encoder for; a PNG image saves as its PNG encoding |
| Paths.ExtensionShape | ServerForm/Services/ReportService.cs:38 | `GetExtension` yields "" or a dot followed by plain characters that ends the path |
| Paths.ExtensionOfSuffix | ServerForm/Services/ReportService.cs:38 | a path that ends with a true extension has that extension |
| Paths.ExtensionOfAppended | ServerForm/Services/ReportService.cs:38-40 | a plain stem followed by "" or an extension has exactly that extension |
| Paths.StemOfAppended | ServerForm/Controllers/ReportsController.cs:86 | `GetFileNameWithoutExtension` of a plain stem plus an extension is the stem |
| Paths.FileNameOfPlain | ServerForm/Controllers/ReportsController.cs:86 | a name without separators is its own file name |
| Paths.CombineInjective | ServerForm/Services/ReportService.cs:41 | distinct relative file names give distinct paths in the same directory |
| Paths.LastDot | ServerForm/Services/ReportService.cs:38 | the extension scan finds the last dot before any separator, or reports that there is none |
| Guids.Text | ServerForm/Services/ReportService.cs:40 | a GUID prints as 36 characters of lower-case hex and dashes |
| Guids.TextIsPlain | ServerForm/Services/ReportService.cs:40-41 | the GUID text has no dot, no separator and no root, so it is a plain file name |
| Guids.TextInjective | ServerForm/Services/ReportService.cs:40 | distinct GUIDs print differently |
| Hashing.HashPassword | ServerForm/Services/PasswordHasher.cs:9-23 | the loop appends two hex digits per digest byte and returns `HashOf` |
| Hashing.HashOf | ServerForm/Services/PasswordHasher.cs:13-21 | a password hash is 64 lower-case hex digits |
| Hashing.HexAt | ServerForm/Services/PasswordHasher.cs:16-19 | the encoding is twice as long as the digest; characters 2i and 2i+1 spell byte i, high nibble first |
| Hashing.HexAlphabet | ServerForm/Services/PasswordHasher.cs:18 | every character of the encoding is in 0-9a-f |
| Hashing.ParseHexOfHex | ServerForm/Services/PasswordHasher.cs:16-19 | decoding the encoding gives back the digest |
| Hashing.HexOfParseHex | ServerForm/Services/PasswordHasher.cs:16-19 | every text that decodes is the encoding of what it decodes to |
| Hashing.HexInjective | ServerForm/Services/PasswordHasher.cs:16-19 | distinct digests give distinct texts |
| Hashing.VerifyPassword | ServerForm/Services/PasswordHasher.cs:25-31 | false when either argument is null or empty; true only against a 64-digit lower-case hex text |
| Hashing.VerifyAgainstHash | ServerForm/Services/PasswordHasher.cs:25-31 | a non-empty password verifies against the stored hash of `original` exactly when the two digests are equal, so always for `original` itself |
| Strings.TrimStart | ServerForm/Controllers/UserController.cs:121 | the result is a suffix; only white space was dropped; it does not start with white space |
| Strings.TrimEnd | ServerForm/Controllers/UserController.cs:121 | the result is a prefix; only white space was dropped; it does not end with white space |
| Strings.TrimIdempotent | ServerForm/Controllers/UserController.cs:121 | trimming twice is trimming once |
| Strings.HexDigit | ServerForm/Services/PasswordHasher.cs:18 | a value below 16 prints as one lower-case hex digit |
| Strings.HexValue | ServerForm/Services/PasswordHasher.cs:18 | reading a hex digit back gives a value below 16 that prints as that digit |
| Prelude.Min | ServerForm/Services/ReportService.cs:158-159 | the result is one of the arguments and at most both |
| ReportsApi.ReportsController.GetReports | ServerForm/Controllers/ReportsController.cs:22-26 | 200 with every row |
| ReportsApi.ReportsController.GetReport | ServerForm/Controllers/ReportsController.cs:28-33 | 200 with the row, or 404 |
| ReportsApi.GetResponse | ServerForm/Controllers/ReportsController.cs:31-32 | 404 exactly when no row has the key; a 200 carries a stored row with that key |
| ReportsApi.ReportsController.CreateReport | ServerForm/Controllers/ReportsController.cs:35-47 | a null or empty file gives 400 and no service call; otherwise the service creates a row from the name and client file name, and the result is 201 |
| ReportsApi.CreateResponse | ServerForm/Controllers/ReportsController.cs:40-46 | 400 "File is required" exactly for a missing or empty file, else 201 with a row under the next key carrying the given name |
| ReportsApi.ReportsController.UpdateReport | ServerForm/Controllers/ReportsController.cs:49-60 | passes the name and, when a file came, its bytes, but never the file's name; 204 when the service found the row, else 404 |
| ReportsApi.UpdateResponse | ServerForm/Controllers/ReportsController.cs:59 | 204 exactly when the key exists, 404 exactly when it does not |
| ReportsApi.ReplacedFileLosesExtension | ServerForm/Controllers/ReportsController.cs:55-58 | a report whose file is replaced through the controller is stored under the bare GUID text, with no extension |
| ReportsApi.ReportsController.DeleteReport | ServerForm/Controllers/ReportsController.cs:62-67 | 204 whether or not the key existed; the store changes as the service's delete |
| ReportsApi.ReportsController.DownloadReport | ServerForm/Controllers/ReportsController.cs:69-77 | 404 for an unknown key; a missing file throws; otherwise the spreadsheet bytes under the stored file name |
| ReportsApi.DownloadResponse | ServerForm/Controllers/ReportsController.cs:72-76 | 404 exactly for an unknown key; a 200 carries the bytes of that row's file and its stored name as the download name |
| ReportsApi.UploadThenDownload | ServerForm/Controllers/ReportsController.cs:35-77 | an uploaded report downloads as the same bytes, named GUID text plus the uploaded name's extension |
| ReportsApi.ReportsController.ConvertToWord | ServerForm/Controllers/ReportsController.cs:79-88 | 404 when conversion returns null, otherwise the Word body with the download name from the stored file name |
| ReportsApi.ConvertResponse | ServerForm/Controllers/ReportsController.cs:82-87 | 404 exactly for an unknown key; a 200 carries the converted body, the Word content type and the stored name's stem plus ".docx" |
| ReportsApi.UploadThenConvertName | ServerForm/Controllers/ReportsController.cs:86 | the Word download of an uploaded report is named GUID text plus ".docx" |
| Users.UserService.constructor | ServerForm/Services/UserService.cs:14-18 | the table starts empty and valid |
| Users.UserService.GetUserById | ServerForm/Services/UserService.cs:20-23 | the first user with that key, or null exactly when none has it |
| Users.UserService.GetUserByEmail | ServerForm/Services/UserService.cs:25-28 | the first user with that e-mail, or null exactly when none has it |
| Users.UserService.RegisterUser | ServerForm/Services/UserService.cs:48-67 | checks for a null user, a blank password and a taken e-mail, in that order; then stores the user with hashed password, clock reading, default role and the next key |
| Users.RegisterOutcome | ServerForm/Services/UserService.cs:50-66 | each failure is reported as its own error under exactly its condition and adds nothing; success adds exactly the returned user, with the password's hash, "user" when no role was given, and the clock reading |
| Users.RegisterKeepsUniqueEmails | ServerForm/Services/UserService.cs:56-57 | registration never creates two users with one e-mail address |
| Users.RegisterThenAuthenticate | ServerForm/Services/UserService.cs:48-85 | a freshly registered user authenticates with the e-mail and password given at registration |
| Users.UserService.AuthenticateUser | ServerForm/Services/UserService.cs:69-85 | returns `Authenticate` of the current table and changes nothing |
| Users.Authenticate | ServerForm/Services/UserService.cs:69-85 | a user comes back exactly when e-mail and password are not blank, a user has that e-mail, and its stored hash is the hash of the password; it is that stored user |
| Users.AuthenticateNeedsMatchingDigest | ServerForm/Services/UserService.cs:81 | authentication succeeds exactly when the password's digest equals the digest the stored hash was made from |
| Users.UserService.UpdateUser | ServerForm/Services/UserService.cs:30-46 | an unknown key throws "User not found" and changes nothing; otherwise the table becomes `AfterUpdateUser` |
| Users.UpdateUserOutcome | ServerForm/Services/UserService.cs:32-45 | unknown key is exactly the failure; otherwise name, e-mail and role are overwritten, key and registration time kept, the hash replaced exactly for a non-empty password, other users untouched |
| Users.UpdateCanShareEmail | ServerForm/Services/UserService.cs:36-37 | update does not check e-mail uniqueness: two users can end up with one address |
| UserApi.UserController.Register | ServerForm/Controllers/UserController.cs:26-63 | runs the checks of `RegisterResponse` and registers through the service only when both pass |
| UserApi.RegisterResponse | ServerForm/Controllers/UserController.cs:29-62 | 400 exactly for an invalid model state; 409 with its message exactly when the e-mail is taken |
| UserApi.RegisterRequestOutcome | ServerForm/Controllers/UserController.cs:29-62 | only 201 changes the table; 500 happens exactly for a blank password, with the service's message; 201 echoes key, name, e-mail and role "user" of the stored user, with the hashed password left out |
| UserApi.UserController.GetUser | ServerForm/Controllers/UserController.cs:66-75 | 200 with the stored user, or 404 |
| UserApi.GetUserResponse | ServerForm/Controllers/UserController.cs:69-74 | 404 exactly when no user has the key; a 200 carries a stored user with that key |
| UserApi.UserController.UpdateUser | ServerForm/Controllers/UserController.cs:78-100 | 400, 404 or 204 as `UpdateUserResponse`; copies only name and e-mail into the stored user and hands it to the service |
| UserApi.UpdateUserResponse | ServerForm/Controllers/UserController.cs:81-99 | 400 "Invalid user data." exactly for a missing body or a mismatched key, 404 exactly for an unknown user, else 204 |
| UserApi.UpdateDoubleHashes | ServerForm/Controllers/UserController.cs:86-97 | the stored password becomes the hash of the old stored hash; key, role and registration time are kept |
| UserApi.UpdateLocksOutUser | ServerForm/Controllers/UserController.cs:86-97 | after a profile edit the original password logs in only if its digest collides with the digest of its own hash |
| UserApi.UserController.Login | ServerForm/Controllers/UserController.cs:104-148 | returns `LoginResult` of the current table and changes nothing |
| UserApi.LoginResult | ServerForm/Controllers/UserController.cs:107-147 | 400 exactly for a missing request or an empty e-mail or password; 401 exactly when authentication fails; a sign-in happens exactly with a 200, whose claims carry the user's key, the trimmed name, the e-mail and the role defaulting to "user" |
| UserApi.RegisterThenLogin | ServerForm/Controllers/UserController.cs:26-148 | a user registered through the controller logs in with the same credentials with role "user" and the trimmed name |
| ReportDetails.IsExcelByExtension | ClientForm/Pages/Reports/Details.cshtml.cs:39-40 | the suffix test holds exactly when the file's extension is ".xlsx" or ".xls", ignoring case |
| ReportDetails.ExcelSuffixIsExtension | ClientForm/Pages/Reports/Details.cshtml.cs:39-40 | a name ending in ".xlsx" or ".xls" in any case has that suffix as its extension |
| ReportDetails.StoredNameIsExcelIff | ClientForm/Pages/Reports/Details.cshtml.cs:39-40 | a name stored on upload is an Excel name exactly when the uploaded name was |
| ReportDetails.GuidTextIsNotExcel | ClientForm/Pages/Reports/Details.cshtml.cs:39-40 | a bare GUID text never passes the test, so a report replaced through the API gets no preview |
| ReportDetails.DetailsModel.constructor | ClientForm/Pages/Reports/Details.cshtml.cs:24-28 | a page starts with no report, not Excel, and no worksheets |
| ReportDetails.DetailsModel.OnGet | ClientForm/Pages/Reports/Details.cshtml.cs:30-48 | 404 when the report request fails; a null file name throws; otherwise the page, loading the preview only for an Excel name |
| ReportDetails.DetailsModel.LoadExcelData | ClientForm/Pages/Reports/Details.cshtml.cs:117-176 | appends the models of the worksheets before the first one that throws; a failed download or a corrupt package adds nothing |
| ReportDetails.DetailsModel.LoadSheet | ClientForm/Pages/Reports/Details.cshtml.cs:129-169 | one worksheet model: name, capped grid (empty without a used range), pictures |
| ReportDetails.DetailsModel.CollectImages | ClientForm/Pages/Reports/Details.cshtml.cs:154-167 | the loop over drawings keeps pictures only and throws on one it cannot save |
| ReportDetails.FirstFailure | ClientForm/Pages/Reports/Details.cshtml.cs:127-170 | every sheet before the returned position loads and the sheet at it throws |
| ReportDetails.Loaded | ClientForm/Pages/Reports/Details.cshtml.cs:127-170 | as many models as sheets load before the first failure |
| ReportDetails.ImageModelsFailIff | ClientForm/Pages/Reports/Details.cshtml.cs:154-167 | the preview of a sheet's pictures throws exactly when one picture's raw-format save throws |
| ReportDetails.ImageModelsArePictures | ClientForm/Pages/Reports/Details.cshtml.cs:154-167 | the image models are the pictures in order, each with its raw-format bytes, that format's name and the picture's name |
| ReportDetails.NoEncoderPreviewFails | ClientForm/Pages/Reports/Details.cshtml.cs:159 | one picture stored as EMF, WMF, Exif, Icon or MemoryBMP makes its sheet's preview throw |
| ReportDetails.EmfPictureDivergence | ClientForm/Pages/Reports/Details.cshtml.cs:159 | a sheet with one EMF picture that renders as PNG converts on the server but throws in the preview |
| ReportDetails.PngPicturesAgree | ClientForm/Pages/Reports/Details.cshtml.cs:154-167 | for pictures stored as PNG the preview throws exactly when the server conversion does, and shows the bytes the Word document embeds |
| ReportDetails.LoadedAll | ClientForm/Pages/Reports/Details.cshtml.cs:127-170 | when every picture saves in its raw format, one model per worksheet in order, with the capped grid, an empty table for a sheet without a used range, and one image per picture |
| ReportDetails.DetailsModel.ConvertFirstSheet | ClientForm/Pages/Reports/Details.cshtml.cs:52-71 | a document comes out exactly when the download is a workbook with at least one sheet (without sheets no Word file is written and opening it throws); it is the export of the first sheet |
| ReportDetails.DetailsModel.ConvertExcelToWord | ClientForm/Pages/Reports/Details.cshtml.cs:76-115 | one table of the capped grid when the sheet has a used range, else nothing |
| ReportDetails.FirstSheetDocument | ClientForm/Pages/Reports/Details.cshtml.cs:65-111 | at most one element, present exactly when there is a first sheet with a used range |
| ReportDetails.FirstSheetMatchesServer | ClientForm/Pages/Reports/Details.cshtml.cs:87-111 | the exported table is the table of the server conversion's first section |

## Left out

- Persistence: the tables are values in the service objects. EF Core, `SaveChangesAsync`, change tracking and `AsNoTracking` are not modelled, and neither is aliasing between the returned entity and the stored row.
- Keys are assigned by a counter that starts at 1, standing in for the database identity column.
- Concurrency: async calls are sequential atomic steps, and races between requests are not modelled.
- Query order: the report list and "the first user with this e-mail" follow insertion order. EF queries without `ORDER BY` leave the order to SQL Server, which does not promise one.
- The uploads directory compares paths exactly, including case; the Windows file system ignores case in file names.
- E-mail comparison is exact string equality; SQL Server's collation, often case-insensitive, is not modelled.
- GUIDs are a parameter. Freshness of the resulting path is assumed only where a pairing lemma needs it, as an explicit precondition.
- SHA-256 and the UTF-8 encoding are an uninterpreted function to 32 bytes.
- The clock (`DateTime.UtcNow`) and `ModelState.IsValid` are parameters. The data annotations behind the model state are not modelled.
- The workbook parser (EPPlus) is a parameter. Cell text formatting is a given map from (row, column) to the displayed text.
- The two ways pictures are saved: the server writes each picture as PNG (ServerForm/Services/ReportService.cs:180) and the client in its raw format (ClientForm/Pages/Reports/Details.cshtml.cs:159). Whether the GDI+ encoder itself fails on an image is a per-picture value for each encoding; which formats have an encoder is modelled.
- The pixel-level PNG re-encoding, chart bitmap rendering (ServerForm/Services/ReportService.cs:200-211) and the OpenXML parts, XML and table borders (ServerForm/Services/ReportService.cs:145-156, 213-252) are left out. An image element carries the picture's bytes, and a chart element its name.
- Files are read and written as whole byte sequences. Stream copying, `FileMode`, and the temporary Word file and its `FileStream` in the client are not modelled.
- Path handling follows Windows rules (`\` and `/` as separators, drive roots). Invalid-character checks and UNC paths are not modelled.
- Ignore-case comparison folds ASCII letters only. Full ordinal case folding of other letters is not modelled.
- Reports.ReportService.CreateReport: a null stream (a `NullReferenceException` in the source) is not modelled; the controller never passes one.
- Users.UserService.UpdateUser: a null user argument (a `NullReferenceException` at `user.Id`) is not modelled; the controller never passes one.
- ClientForm/Pages/Reports/Details.cshtml.cs:50-74, the POST handler around the export: its response depends on `Report`, which that request never sets, so the handler throws at line 73. Only the export itself (`ConvertFirstSheet`) is modelled.
- The client's download URL `api/reports/download/{id}` does not match the server route `{id}/download`. The download result is a parameter of the details page, so every outcome is covered.
- The client's `ReportData` class is not part of this model. The page reads the server's row as it is sent.
- The cookie sign-in, its 30-day expiry, and the `Console.WriteLine` of a swallowed exception: the login result carries the claims as a value.
- `IReportService` (ServerForm/Interfaces/IReportService.cs) does not match the implementation. The implementation is modelled.
- The `Microsoft.Office.Interop.Excel` import has no use in the code and nothing models it.
- Dependency injection, CORS, Swagger, the Polly retry policies and the other Razor pages are not modelled.
