/** `ReportsController`: the report endpoints under `api/Reports` and the status each returns. */
module ReportsApi {
  import opened Prelude
  import opened Strings
  import Paths
  import Guids
  import opened Spreadsheet
  import opened WordConversion
  import opened Http
  import opened Reports

  const SpreadsheetType := "application/vnd.openxmlformats-officedocument.spreadsheetml.sheet"
  const WordType := "application/vnd.openxmlformats-officedocument.wordprocessingml.document"

  /** A multipart `IFormFile`: the client's file name and the uploaded bytes. */
  datatype FormFile = FormFile(fileName: string, content: seq<byte>)

  /** A `File(...)` result: contents, content type and download name. */
  datatype FileResult<C> = FileResult(contents: C, contentType: string, downloadName: NString)

  /** `GET api/Reports/{id}`. */
  function GetResponse(s: Store, id: int): (r: Response<ReportData>)
    ensures r.Ok? || r.NotFound?
    ensures r.StatusCode() == 404 <==> forall j :: 0 <= j < |s.reports| ==> s.reports[j].id != id
    ensures r.Ok? ==> r.value in s.reports && r.value.id == id
  {
    match Find(s.reports, id)
    case None => NotFound
    case Some(row) => Ok(row)
  }

  /** A missing or empty upload is refused before the service is called. */
  predicate MissingFile(file: Option<FormFile>) {
    file.None? || |file.value.content| == 0
  }

  /** The row the controller hands to `CreateReportAsync`: only the name and the client's file name. */
  function CreateRequest(name: NString, file: FormFile): ReportData {
    ReportData(0, Some(file.fileName), None, name)
  }

  /** `POST api/Reports`: 400 "File is required", or 201 with the created row. */
  function CreateResponse(s: Store, uploadsPath: string, name: NString, file: Option<FormFile>, g: Guids.Guid): (r: Response<ReportData>)
    ensures r.StatusCode() == 400 <==> MissingFile(file)
    ensures r.BadRequest? ==> r.message == "File is required"
    ensures r.Created? ==> r.value.id == s.nextId && r.value.name == name
    ensures r.StatusCode() == 201 || r.StatusCode() == 400
  {
    if MissingFile(file) then BadRequest("File is required")
    else Created(NewRow(s, uploadsPath, CreateRequest(name, file.value), g))
  }

  /** The store after `POST api/Reports`. */
  function AfterCreateRequest(s: Store, uploadsPath: string, name: NString, file: Option<FormFile>, g: Guids.Guid): Store {
    if MissingFile(file) then s else AfterCreate(s, uploadsPath, CreateRequest(name, file.value), file.value.content, g)
  }

  /** `PUT api/Reports/{id}`: a present file becomes the stream; the original name is never passed on. */
  function UpdateResponse(s: Store, id: int): (r: Response<ReportData>)
    ensures r.StatusCode() == 204 <==> Find(s.reports, id).Some?
    ensures r.StatusCode() == 404 <==> Find(s.reports, id).None?
  {
    if Find(s.reports, id).None? then NotFound else NoContent
  }

  function Stream(file: Option<FormFile>): Option<seq<byte>> {
    if file.None? then None else Some(file.value.content)
  }

  /** The store after `PUT api/Reports/{id}`. */
  function AfterUpdateRequest(s: Store, uploadsPath: string, id: int, name: NString, file: Option<FormFile>, g: Guids.Guid): Store {
    AfterUpdate(s, uploadsPath, id, ReportData(0, None, None, name), Stream(file), None, g)
  }

  /**
   * `GET api/Reports/{id}/download`: 404 for an unknown key; a missing file throws;
   * otherwise the stored bytes under the stored name.
   */
  function DownloadResponse(s: Store, id: int): (r: Response<FileResult<seq<byte>>>)
    ensures r.StatusCode() == 404 <==> Find(s.reports, id).None?
    ensures r.Ok? ==>
      (&& r.value.contentType == SpreadsheetType
       && exists j :: (&& 0 <= j < |s.reports| && s.reports[j].id == id && HasFile(s.files, s.reports[j])
                       && r.value.contents == s.files[s.reports[j].filePath.value]
                       && r.value.downloadName == s.reports[j].fileName))
  {
    match Find(s.reports, id)
    case None => NotFound
    case Some(row) =>
      if IsNullOrEmpty(row.filePath) || row.filePath.value !in s.files then Unhandled
      else
        var k := IndexOf(s.reports, id);
        assert s.reports[k] == row;
        Ok(FileResult(s.files[row.filePath.value], SpreadsheetType, row.fileName))
  }

  /** `Path.GetFileNameWithoutExtension(report.FileName) + ".docx"`; a null name gives ".docx". */
  function DocxName(fileName: NString): string {
    (if fileName.None? then "" else Paths.GetFileNameWithoutExtension(fileName.value)) + ".docx"
  }

  /** `GET api/Reports/{id}/convert-to-word`: 404 when the service returns null, a thrown conversion, or the document. */
  function ConvertResponse(s: Store, id: int, parse: seq<byte> -> Option<Workbook>): (r: Response<FileResult<seq<Element>>>)
    ensures r.StatusCode() == 404 <==> Find(s.reports, id).None?
    ensures r.Ok? ==>
      (&& r.value.contentType == WordType && Convert(s, id, parse) == Document(r.value.contents)
       && r.value.downloadName == Some(DocxName(Find(s.reports, id).value.fileName)))
  {
    match Convert(s, id, parse)
    case NoReport => NotFound
    case ConversionFailed => Unhandled
    case Document(body) => Ok(FileResult(body, WordType, Some(DocxName(Find(s.reports, id).value.fileName))))
  }

  // ---- the request sequences a client goes through ---------------------------------------

  /** A report uploaded through the API downloads again as the same bytes, under the stored name that keeps the extension. */
  lemma UploadThenDownload(s: Store, uploadsPath: string, name: NString, file: FormFile, g: Guids.Guid)
    requires Valid(s) && |file.content| > 0
    ensures var t := AfterCreateRequest(s, uploadsPath, name, Some(file), g);
      var d := DownloadResponse(t, s.nextId);
      && d.Ok? && d.value.contents == file.content
      && d.value.downloadName == Some(Guids.Text(g) + Paths.GetExtension(file.fileName))
  {
    var request := CreateRequest(name, file);
    var row := NewRow(s, uploadsPath, request, g);
    CreateThenGet(s, uploadsPath, request, file.content, g);
    var t := AfterCreateRequest(s, uploadsPath, name, Some(file), g);
    var k := IndexOf(t.reports, s.nextId);
    assert t.reports[k] == row;
    Guids.TextIsPlain(g);
    Paths.ExtensionShape(file.fileName);
  }

  /** The Word download of an uploaded report is named after the stored file: the GUID text plus ".docx". */
  lemma UploadThenConvertName(s: Store, uploadsPath: string, name: NString, file: FormFile, g: Guids.Guid,
                              parse: seq<byte> -> Option<Workbook>)
    requires Valid(s) && |file.content| > 0
    ensures var r := ConvertResponse(AfterCreateRequest(s, uploadsPath, name, Some(file), g), s.nextId, parse);
      r.Ok? ==> r.value.downloadName == Some(Guids.Text(g) + ".docx")
  {
    CreateThenGet(s, uploadsPath, CreateRequest(name, file), file.content, g);
    StoredNameKeepsExtension(g, Some(file.fileName));
  }

  /**
   * Because the controller never passes the uploaded file's name, a file replaced
   * through `PUT` is stored without an extension.
   */
  lemma ReplacedFileLosesExtension(s: Store, uploadsPath: string, id: int, name: NString, file: FormFile, g: Guids.Guid)
    requires Valid(s) && Find(s.reports, id).Some?
    ensures var t := AfterUpdateRequest(s, uploadsPath, id, name, Some(file), g);
      && Find(t.reports, id).Some?
      && Find(t.reports, id).value.fileName == Some(Guids.Text(g))
      && Paths.GetExtension(Find(t.reports, id).value.fileName.value) == ""
  {
    UpdateReplacesFile(s, uploadsPath, id, ReportData(0, None, None, name), file.content, None, g);
    assert StoredFileName(g, None) == Guids.Text(g) + "" == Guids.Text(g);
  }

  class ReportsController {
    const reportService: ReportService

    constructor(reportService: ReportService)
      ensures this.reportService == reportService
    {
      this.reportService := reportService;
    }

    method GetReports() returns (r: Response<seq<ReportData>>)
      ensures r == Ok(reportService.reports)
    {
      var all := reportService.GetAllReports();
      r := Ok(all);
    }

    method GetReport(id: int) returns (r: Response<ReportData>)
      ensures r == GetResponse(reportService.State(), id)
    {
      var report := reportService.GetReport(id);
      r := if report.Some? then Ok(report.value) else NotFound;
    }

    method CreateReport(name: NString, file: Option<FormFile>, g: Guids.Guid) returns (r: Response<ReportData>)
      requires Valid(reportService.State())
      modifies reportService
      ensures Valid(reportService.State())
      ensures r == CreateResponse(old(reportService.State()), reportService.uploadsPath, name, file, g)
      ensures reportService.State() == AfterCreateRequest(old(reportService.State()), reportService.uploadsPath, name, file, g)
    {
      if file.None? || |file.value.content| == 0 {
        return BadRequest("File is required");
      }
      var report := ReportData(0, Some(file.value.fileName), None, name);
      var created := reportService.CreateReport(report, file.value.content, g);
      r := Created(created);
    }

    method UpdateReport(id: int, name: NString, file: Option<FormFile>, g: Guids.Guid) returns (r: Response<ReportData>)
      requires Valid(reportService.State())
      modifies reportService
      ensures Valid(reportService.State())
      ensures r == UpdateResponse(old(reportService.State()), id)
      ensures reportService.State() == AfterUpdateRequest(old(reportService.State()), reportService.uploadsPath, id, name, file, g)
    {
      var report := ReportData(0, None, None, name);
      var stream := if file.Some? then Some(file.value.content) else None;
      var updated := reportService.UpdateReport(id, report, stream, None, g);
      r := if updated.Some? then NoContent else NotFound;
    }

    method DeleteReport(id: int) returns (r: Response<ReportData>)
      requires Valid(reportService.State())
      modifies reportService
      ensures r == NoContent
      ensures reportService.State() == AfterDelete(old(reportService.State()), id)
      ensures Valid(reportService.State())
      ensures Paired(old(reportService.State())) ==> Paired(reportService.State())
    {
      reportService.DeleteReport(id);
      r := NoContent;
    }

    method DownloadReport(id: int) returns (r: Response<FileResult<seq<byte>>>)
      ensures r == DownloadResponse(reportService.State(), id)
    {
      var report := reportService.GetReport(id);
      if report.None? {
        return NotFound;
      }
      var path := report.value.filePath;
      if IsNullOrEmpty(path) || path.value !in reportService.files {
        return Unhandled;
      }
      r := Ok(FileResult(reportService.files[path.value], SpreadsheetType, report.value.fileName));
    }

    method ConvertToWord(id: int, parse: seq<byte> -> Option<Workbook>) returns (r: Response<FileResult<seq<Element>>>)
      ensures r == ConvertResponse(reportService.State(), id, parse)
    {
      var conversion := reportService.ConvertToWord(id, parse);
      if conversion.NoReport? {
        return NotFound;
      }
      if conversion.ConversionFailed? {
        return Unhandled;
      }
      var report := reportService.GetReport(id);
      var fileName := DocxName(report.value.fileName);
      r := Ok(FileResult(conversion.body, WordType, Some(fileName)));
    }
  }
}
