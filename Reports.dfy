/**
 * `ReportService`: report metadata rows kept in step with uploaded files. The
 * `ReportDatas` table is a sequence of rows in key order, the uploads directory
 * a map from full path to file bytes.
 */
module Reports {
  import opened Prelude
  import opened Strings
  import Paths
  import Guids
  import opened Spreadsheet
  import opened WordConversion

  /** A `ReportData` row. */
  datatype ReportData = ReportData(id: int, fileName: NString, filePath: NString, name: NString)

  /** The table and the uploads directory together; `nextId` is the next identity value. */
  datatype Store = Store(reports: seq<ReportData>, files: map<string, seq<byte>>, nextId: int)

  /** Keys are positive, below the next identity value and increasing along the table. */
  predicate Valid(s: Store) {
    && s.nextId >= 1
    && (forall i :: 0 <= i < |s.reports| ==> 1 <= s.reports[i].id < s.nextId)
    && (forall i, j :: 0 <= i < j < |s.reports| ==> s.reports[i].id < s.reports[j].id)
  }

  /** Every row names a stored file, and no two rows name the same one. */
  predicate Paired(s: Store) {
    && (forall i :: 0 <= i < |s.reports| ==> HasFile(s.files, s.reports[i]))
    && (forall i, j :: 0 <= i < j < |s.reports| ==> s.reports[i].filePath != s.reports[j].filePath)
  }

  /** The row names a non-empty path that is present in the directory. */
  predicate HasFile(files: map<string, seq<byte>>, r: ReportData) {
    r.filePath.Some? && r.filePath.value != "" && r.filePath.value in files
  }

  /** Position of the first row with this key, or -1. */
  function IndexOf(rows: seq<ReportData>, id: int): int {
    IndexWhere(rows, (r: ReportData) => r.id == id)
  }

  /** `FindAsync(id)`: the row with this key, or null. */
  function Find(rows: seq<ReportData>, id: int): (r: Option<ReportData>)
    ensures r.Some? ==> r.value in rows && r.value.id == id
    ensures r.None? <==> forall j :: 0 <= j < |rows| ==> rows[j].id != id
  {
    var k := IndexOf(rows, id);
    if k < 0 then None else Some(rows[k])
  }

  /** The extension kept from an uploaded file's name; "" when the name is null or empty. */
  function Extension(original: NString): string {
    if IsNullOrEmpty(original) then "" else Paths.GetExtension(original.value)
  }

  /** `$"{Guid.NewGuid()}{extension}"`. */
  function StoredFileName(g: Guids.Guid, original: NString): string {
    Guids.Text(g) + Extension(original)
  }

  /** `File.Delete` guarded by `!string.IsNullOrEmpty(path) && File.Exists(path)`. */
  function RemoveFile(files: map<string, seq<byte>>, path: NString): map<string, seq<byte>> {
    if !IsNullOrEmpty(path) && path.value in files then files - {path.value} else files
  }

  /** The row `CreateReportAsync` adds and returns. */
  function NewRow(s: Store, uploadsPath: string, report: ReportData, g: Guids.Guid): ReportData {
    var fileName := StoredFileName(g, report.fileName);
    report.(id := s.nextId, fileName := Some(fileName), filePath := Some(Paths.Combine(uploadsPath, fileName)))
  }

  /** `CreateReportAsync`: write the file, then add the row. */
  function AfterCreate(s: Store, uploadsPath: string, report: ReportData, content: seq<byte>, g: Guids.Guid): Store {
    var row := NewRow(s, uploadsPath, report, g);
    Store(s.reports + [row], s.files[row.filePath.value := content], s.nextId + 1)
  }

  /** `UpdateReportAsync`: rename; with a stream, replace the file under a fresh name. */
  function AfterUpdate(s: Store, uploadsPath: string, id: int, report: ReportData,
                       stream: Option<seq<byte>>, originalFileName: NString, g: Guids.Guid): Store
  {
    var k := IndexOf(s.reports, id);
    if k < 0 then s
    else
      var row := s.reports[k].(name := report.name);
      if stream.None? then s.(reports := s.reports[k := row])
      else
        var fileName := StoredFileName(g, originalFileName);
        var filePath := Paths.Combine(uploadsPath, fileName);
        Store(s.reports[k := row.(fileName := Some(fileName), filePath := Some(filePath))],
              RemoveFile(s.files, s.reports[k].filePath)[filePath := stream.value],
              s.nextId)
  }

  /** `DeleteReportAsync`: delete the file, then the row; nothing for an unknown key. */
  function AfterDelete(s: Store, id: int): Store {
    var k := IndexOf(s.reports, id);
    if k < 0 then s
    else Store(s.reports[..k] + s.reports[k + 1..], RemoveFile(s.files, s.reports[k].filePath), s.nextId)
  }

  datatype Conversion = NoReport | ConversionFailed | Document(body: seq<Element>)

  /**
   * `ConvertToWordAsync`: null for an unknown key; an exception (`ConversionFailed`)
   * when the file is missing, is not a workbook, or holds a picture that cannot be
   * saved; otherwise the document body.
   */
  function Convert(s: Store, id: int, parse: seq<byte> -> Option<Workbook>): Conversion {
    match Find(s.reports, id)
    case None => NoReport
    case Some(r) =>
      if IsNullOrEmpty(r.filePath) || r.filePath.value !in s.files then ConversionFailed
      else match parse(s.files[r.filePath.value])
        case None => ConversionFailed
        case Some(wb) =>
          match Body(wb)
          case None => ConversionFailed
          case Some(b) => Document(b)
  }

  // ---- what the lifecycle promises -------------------------------------------------------

  /** The stored name carries exactly the original name's extension, or none when that name is null or empty. */
  lemma StoredNameKeepsExtension(g: Guids.Guid, original: NString)
    ensures Paths.GetExtension(StoredFileName(g, original)) == Extension(original)
    ensures Paths.GetFileNameWithoutExtension(StoredFileName(g, original)) == Guids.Text(g)
  {
    Guids.TextIsPlain(g);
    if !IsNullOrEmpty(original) {
      Paths.ExtensionShape(original.value);
    }
    Paths.ExtensionOfAppended(Guids.Text(g), Extension(original));
    Paths.StemOfAppended(Guids.Text(g), Extension(original));
  }

  /** According to `Valid`, a key appended above every other key is found at the end. */
  lemma FindAppended(rows: seq<ReportData>, row: ReportData)
    requires forall i :: 0 <= i < |rows| ==> rows[i].id < row.id
    ensures Find(rows + [row], row.id) == Some(row)
    ensures forall id :: id != row.id ==> Find(rows + [row], id) == Find(rows, id)
  {
    var all := rows + [row];
    assert all[|rows|] == row;
    forall id | id != row.id ensures Find(all, id) == Find(rows, id) {
      var k := IndexOf(rows, id);
      if k >= 0 {
        assert all[k] == rows[k];
        assert IndexOf(all, id) == k;
      } else {
        assert forall j :: 0 <= j < |all| ==> all[j].id != id by {
          forall j | 0 <= j < |all| ensures all[j].id != id {
            if j < |rows| { assert all[j] == rows[j]; }
          }
        }
      }
    }
  }

  /**
   * Create adds one row under a new key, which reads back with the uploaded name
   * and a path holding exactly the uploaded bytes; the other rows read as before.
   */
  lemma CreateThenGet(s: Store, uploadsPath: string, report: ReportData, content: seq<byte>, g: Guids.Guid)
    requires Valid(s)
    ensures var t, row := AfterCreate(s, uploadsPath, report, content, g), NewRow(s, uploadsPath, report, g);
      && Valid(t)
      && |t.reports| == |s.reports| + 1
      && Find(t.reports, s.nextId) == Some(row)
      && row.name == report.name
      && row.filePath.value in t.files && t.files[row.filePath.value] == content
      && forall id :: id != s.nextId ==> Find(t.reports, id) == Find(s.reports, id)
  {
    FindAppended(s.reports, NewRow(s, uploadsPath, report, g));
  }

  /** With a fresh path, create adds exactly one file and keeps every row paired with its own file. */
  lemma CreateKeepsPairing(s: Store, uploadsPath: string, report: ReportData, content: seq<byte>, g: Guids.Guid)
    requires Paired(s)
    requires Paths.Combine(uploadsPath, StoredFileName(g, report.fileName)) !in s.files
    ensures var t := AfterCreate(s, uploadsPath, report, content, g);
      Paired(t) && |t.files| == |s.files| + 1
  {
    var t := AfterCreate(s, uploadsPath, report, content, g);
    var path := Paths.Combine(uploadsPath, StoredFileName(g, report.fileName));
    assert t.files.Keys == s.files.Keys + {path};
    forall i | 0 <= i < |s.reports| ensures s.reports[i].filePath != Some(path) {
    }
  }

  /** Update of an unknown key changes neither the table nor the files. */
  lemma UpdateUnknownIsNoop(s: Store, uploadsPath: string, id: int, report: ReportData,
                            stream: Option<seq<byte>>, originalFileName: NString, g: Guids.Guid)
    requires Find(s.reports, id).None?
    ensures AfterUpdate(s, uploadsPath, id, report, stream, originalFileName, g) == s
  {
  }

  /**
   * Update always renames the row and touches no other row; without a stream it
   * keeps the stored name, the path and every file.
   */
  lemma UpdateRow(s: Store, uploadsPath: string, id: int, report: ReportData,
                  stream: Option<seq<byte>>, originalFileName: NString, g: Guids.Guid)
    requires Valid(s) && Find(s.reports, id).Some?
    ensures var t, old_ := AfterUpdate(s, uploadsPath, id, report, stream, originalFileName, g), Find(s.reports, id).value;
      && Valid(t)
      && Find(t.reports, id).Some? && Find(t.reports, id).value.name == report.name
      && (forall other :: other != id ==> Find(t.reports, other) == Find(s.reports, other))
      && (stream.None? ==> Find(t.reports, id) == Some(old_.(name := report.name)) && t.files == s.files)
  {
    var t := AfterUpdate(s, uploadsPath, id, report, stream, originalFileName, g);
    var k := IndexOf(s.reports, id);
    forall j | 0 <= j < |t.reports| ensures t.reports[j].id == s.reports[j].id { }
    SameKeysSameFind(s.reports, t.reports, k);
  }

  /** Two tables with the same keys at every position find the same positions. */
  lemma SameKeysSameIndex(a: seq<ReportData>, b: seq<ReportData>, id: int)
    requires |a| == |b| && forall j :: 0 <= j < |a| ==> a[j].id == b[j].id
    ensures IndexOf(a, id) == IndexOf(b, id)
  {
    SameVerdictsSameIndex(a, b, (r: ReportData) => r.id == id);
  }

  lemma SameKeysSameFind(a: seq<ReportData>, b: seq<ReportData>, k: int)
    requires |a| == |b| && forall j :: 0 <= j < |a| ==> a[j].id == b[j].id
    requires forall j :: 0 <= j < |a| && j != k ==> a[j] == b[j]
    ensures forall id :: 0 <= k < |a| && id != a[k].id ==> Find(a, id) == Find(b, id)
    ensures 0 <= k < |a| ==> Find(b, a[k].id).Some? && IndexOf(b, a[k].id) == IndexOf(a, a[k].id)
  {
    forall id ensures IndexOf(a, id) == IndexOf(b, id) { SameKeysSameIndex(a, b, id); }
  }

  /**
   * Update with a stream stores the new bytes under a fresh name with the extension
   * of `originalFileName` (none when it is null or empty), points the row at it, and
   * deletes the old file if it exists.
   */
  lemma UpdateReplacesFile(s: Store, uploadsPath: string, id: int, report: ReportData,
                           content: seq<byte>, originalFileName: NString, g: Guids.Guid)
    requires Valid(s) && Find(s.reports, id).Some?
    ensures var t, row := AfterUpdate(s, uploadsPath, id, report, Some(content), originalFileName, g), Find(s.reports, id).value;
      var fileName := StoredFileName(g, originalFileName);
      var filePath := Paths.Combine(uploadsPath, fileName);
      && Find(t.reports, id) == Some(row.(name := report.name, fileName := Some(fileName), filePath := Some(filePath)))
      && Paths.GetExtension(fileName) == Extension(originalFileName)
      && t.files == RemoveFile(s.files, row.filePath)[filePath := content]
  {
    UpdateRow(s, uploadsPath, id, report, Some(content), originalFileName, g);
    StoredNameKeepsExtension(g, originalFileName);
  }

  /** With a fresh path, update keeps every row paired with its own file. */
  lemma UpdateKeepsPairing(s: Store, uploadsPath: string, id: int, report: ReportData,
                           stream: Option<seq<byte>>, originalFileName: NString, g: Guids.Guid)
    requires Paired(s)
    requires stream.Some? ==> Paths.Combine(uploadsPath, StoredFileName(g, originalFileName)) !in s.files
    ensures Paired(AfterUpdate(s, uploadsPath, id, report, stream, originalFileName, g))
  {
    var k := IndexOf(s.reports, id);
    if k >= 0 && stream.Some? {
      var t := AfterUpdate(s, uploadsPath, id, report, stream, originalFileName, g);
      var path := Paths.Combine(uploadsPath, StoredFileName(g, originalFileName));
      forall i | 0 <= i < |t.reports| ensures HasFile(t.files, t.reports[i]) {
        if i != k {
          assert t.reports[i] == s.reports[i];
          assert s.reports[i].filePath != s.reports[k].filePath by {
            if i < k { } else { }
          }
        }
      }
      forall i, j | 0 <= i < j < |t.reports| ensures t.reports[i].filePath != t.reports[j].filePath {
        if i == k { assert s.reports[j].filePath.value in s.files; }
        else if j == k { assert s.reports[i].filePath.value in s.files; }
      }
    }
  }

  /** Deleting a row keeps the remaining keys increasing and below the counter. */
  lemma DeleteKeepsValid(s: Store, id: int)
    requires Valid(s)
    ensures Valid(AfterDelete(s, id))
  {
  }

  /** Delete of an unknown key changes nothing. */
  lemma DeleteUnknownIsNoop(s: Store, id: int)
    requires Find(s.reports, id).None?
    ensures AfterDelete(s, id) == s
  {
  }

  /** Removing the row at position `k` of a key-ordered table: that key is gone, every other key reads as before. */
  lemma FindAfterRemoval(rows: seq<ReportData>, k: int)
    requires 0 <= k < |rows|
    requires forall i, j :: 0 <= i < j < |rows| ==> rows[i].id < rows[j].id
    ensures var rest := rows[..k] + rows[k + 1..];
      && Find(rest, rows[k].id).None?
      && forall other :: other != rows[k].id ==> Find(rest, other) == Find(rows, other)
  {
    var rest := rows[..k] + rows[k + 1..];
    assert forall j :: 0 <= j < k ==> rest[j] == rows[j];
    assert forall j :: k <= j < |rest| ==> rest[j] == rows[j + 1];
    forall other | other != rows[k].id ensures Find(rest, other) == Find(rows, other) {
      var m := IndexOf(rows, other);
      if m >= 0 {
        var m' := if m < k then m else m - 1;
        assert rest[m'] == rows[m];
        assert forall j :: 0 <= j < m' ==> rest[j].id != other by {
          forall j | 0 <= j < m' ensures rest[j].id != other {
            if j < k { assert rest[j] == rows[j]; } else { assert rest[j] == rows[j + 1]; }
          }
        }
        assert IndexOf(rest, other) == m';
      } else {
        forall j | 0 <= j < |rest| ensures rest[j].id != other {
          if j < k { assert rest[j] == rows[j]; } else { assert rest[j] == rows[j + 1]; }
        }
      }
    }
    forall j | 0 <= j < |rest| ensures rest[j].id != rows[k].id {
      if j < k { assert rest[j] == rows[j]; } else { assert rest[j] == rows[j + 1]; }
    }
  }

  /** Removing the row at position `k` together with its file keeps the rest of the store valid and paired. */
  lemma RemovalKeepsInvariants(s: Store, k: int)
    requires Valid(s) && Paired(s) && 0 <= k < |s.reports|
    ensures var t := Store(s.reports[..k] + s.reports[k + 1..], RemoveFile(s.files, s.reports[k].filePath), s.nextId);
      Valid(t) && Paired(t) && t.files == s.files - {s.reports[k].filePath.value}
  {
    var t := Store(s.reports[..k] + s.reports[k + 1..], RemoveFile(s.files, s.reports[k].filePath), s.nextId);
    var rest := t.reports;
    assert HasFile(s.files, s.reports[k]);
    assert forall j :: 0 <= j < k ==> rest[j] == s.reports[j];
    assert forall j :: k <= j < |rest| ==> rest[j] == s.reports[j + 1];
    forall j | 0 <= j < |rest| ensures HasFile(t.files, rest[j]) {
      var j' := if j < k then j else j + 1;
      assert rest[j] == s.reports[j'];
      assert HasFile(s.files, s.reports[j']);
      assert s.reports[j'].filePath != s.reports[k].filePath;
    }
    forall i, j | 0 <= i < j < |rest| ensures rest[i].filePath != rest[j].filePath && rest[i].id < rest[j].id {
      var i', j' := if i < k then i else i + 1, if j < k then j else j + 1;
      assert rest[i] == s.reports[i'] && rest[j] == s.reports[j'];
    }
    forall j | 0 <= j < |rest| ensures 1 <= rest[j].id < t.nextId {
      var j' := if j < k then j else j + 1;
      assert rest[j] == s.reports[j'];
    }
  }

  /**
   * Delete of a known key removes that row and its file and leaves every other
   * row, and every other file, as it was.
   */
  lemma DeleteRemovesRowAndFile(s: Store, id: int)
    requires Valid(s) && Paired(s) && Find(s.reports, id).Some?
    ensures var t, row := AfterDelete(s, id), Find(s.reports, id).value;
      && Valid(t) && Paired(t)
      && Find(t.reports, id).None?
      && row.filePath.value !in t.files
      && t.files == s.files - {row.filePath.value}
      && |t.reports| == |s.reports| - 1
      && forall other :: other != id ==> Find(t.reports, other) == Find(s.reports, other)
  {
    var k := IndexOf(s.reports, id);
    FindAfterRemoval(s.reports, k);
    RemovalKeepsInvariants(s, k);
  }

  /** Creating a report and deleting it again leaves the table and the files as they were (only the key counter moves). */
  lemma CreateThenDelete(s: Store, uploadsPath: string, report: ReportData, content: seq<byte>, g: Guids.Guid)
    requires Valid(s)
    requires Paths.Combine(uploadsPath, StoredFileName(g, report.fileName)) !in s.files
    ensures AfterDelete(AfterCreate(s, uploadsPath, report, content, g), s.nextId) == s.(nextId := s.nextId + 1)
  {
    var row := NewRow(s, uploadsPath, report, g);
    var t := AfterCreate(s, uploadsPath, report, content, g);
    FindAppended(s.reports, row);
    assert IndexOf(t.reports, s.nextId) == |s.reports|;
    assert t.reports[..|s.reports|] == s.reports;
    assert t.files - {row.filePath.value} == s.files;
  }

  /** Conversion of an unknown key is null; of a known one, if it succeeds, its body outlines the sheets with a used range. */
  lemma ConvertOutline(s: Store, id: int, parse: seq<byte> -> Option<Workbook>)
    ensures Convert(s, id, parse).NoReport? <==> Find(s.reports, id).None?
    ensures Convert(s, id, parse).Document? ==>
      var r := Find(s.reports, id).value;
      var wb := parse(s.files[r.filePath.value]).value;
      Structure(Convert(s, id, parse).body) == Outline(wb)
      && |Outline(wb)| == 3 * |NonEmpty(wb)|
  {
    if Convert(s, id, parse).Document? {
      var r := Find(s.reports, id).value;
      var wb := parse(s.files[r.filePath.value]).value;
      BodyStructure(wb);
      OutlineAt(wb);
    }
  }

  // ---- the service object ----------------------------------------------------------------

  class ReportService {
    const uploadsPath: string
    var reports: seq<ReportData>
    var files: map<string, seq<byte>>
    var nextId: int

    function State(): Store
      reads this
    {
      Store(reports, files, nextId)
    }

    /** The constructor: uploads live in `<web root>\uploads`, created empty here. */
    constructor(webRootPath: string)
      ensures uploadsPath == Paths.Combine(webRootPath, "uploads")
      ensures State() == Store([], map[], 1) && Valid(State()) && Paired(State())
    {
      uploadsPath := Paths.Combine(webRootPath, "uploads");
      reports, files, nextId := [], map[], 1;
    }

    method CreateReport(report: ReportData, fileStream: seq<byte>, g: Guids.Guid) returns (created: ReportData)
      requires Valid(State())
      modifies this
      ensures Valid(State())
      ensures State() == AfterCreate(old(State()), uploadsPath, report, fileStream, g)
      ensures created == NewRow(old(State()), uploadsPath, report, g)
    {
      var extension := if !IsNullOrEmpty(report.fileName) then Paths.GetExtension(report.fileName.value) else "";
      var fileName := Guids.Text(g) + extension;
      var filePath := Paths.Combine(uploadsPath, fileName);
      files := files[filePath := fileStream];
      created := report.(filePath := Some(filePath), fileName := Some(fileName), id := nextId);
      reports := reports + [created];
      nextId := nextId + 1;
      CreateThenGet(old(State()), uploadsPath, report, fileStream, g);
    }

    method GetAllReports() returns (rows: seq<ReportData>)
      ensures rows == reports
    {
      rows := reports;
    }

    method GetReport(id: int) returns (report: Option<ReportData>)
      ensures report == Find(reports, id)
    {
      report := Find(reports, id);
    }

    method UpdateReport(id: int, report: ReportData, fileStream: Option<seq<byte>>, originalFileName: NString, g: Guids.Guid)
      returns (updated: Option<ReportData>)
      requires Valid(State())
      modifies this
      ensures Valid(State())
      ensures State() == AfterUpdate(old(State()), uploadsPath, id, report, fileStream, originalFileName, g)
      ensures updated == Find(reports, id)
      ensures updated.None? <==> Find(old(reports), id).None?
    {
      var k := IndexOf(reports, id);
      if k < 0 {
        return None;
      }
      var existing := reports[k];
      existing := existing.(name := report.name);
      if fileStream.Some? {
        var fileName, filePath := ReplaceFile(existing.filePath, fileStream.value, originalFileName, g);
        existing := existing.(filePath := Some(filePath), fileName := Some(fileName));
      }
      reports := reports[k := existing];
      UpdateRow(old(State()), uploadsPath, id, report, fileStream, originalFileName, g);
      updated := Some(existing);
    }

    /** The stream branch of `UpdateReportAsync`: delete the old file, write the new one under a fresh name. */
    method ReplaceFile(oldPath: NString, content: seq<byte>, originalFileName: NString, g: Guids.Guid)
      returns (fileName: string, filePath: string)
      modifies this
      ensures fileName == StoredFileName(g, originalFileName)
      ensures filePath == Paths.Combine(uploadsPath, fileName)
      ensures files == RemoveFile(old(files), oldPath)[filePath := content]
      ensures reports == old(reports) && nextId == old(nextId)
    {
      if !IsNullOrEmpty(oldPath) && oldPath.value in files {
        files := files - {oldPath.value};
      }
      var extension := if !IsNullOrEmpty(originalFileName) then Paths.GetExtension(originalFileName.value) else "";
      fileName := Guids.Text(g) + extension;
      filePath := Paths.Combine(uploadsPath, fileName);
      files := files[filePath := content];
    }

    method DeleteReport(id: int)
      requires Valid(State())
      modifies this
      ensures State() == AfterDelete(old(State()), id)
      ensures Valid(State())
      ensures Paired(old(State())) ==> Paired(State())
    {
      var k := IndexOf(reports, id);
      if k < 0 {
        return;
      }
      var report := reports[k];
      if !IsNullOrEmpty(report.filePath) && report.filePath.value in files {
        files := files - {report.filePath.value};
      }
      reports := reports[..k] + reports[k + 1..];
      DeleteKeepsValid(old(State()), id);
      if Paired(old(State())) {
        DeleteRemovesRowAndFile(old(State()), id);
      }
    }

    method ConvertToWord(id: int, parse: seq<byte> -> Option<Workbook>) returns (conversion: Conversion)
      ensures conversion == Convert(State(), id, parse)
    {
      var report := GetReport(id);
      if report.None? {
        return NoReport;
      }
      var path := report.value.filePath;
      if IsNullOrEmpty(path) || path.value !in files {
        return ConversionFailed;
      }
      var workbook := parse(files[path.value]);
      if workbook.None? {
        return ConversionFailed;
      }
      var body := BuildDocument(workbook.value);
      if body.None? {
        return ConversionFailed;
      }
      conversion := Document(body.value);
    }
  }
}
