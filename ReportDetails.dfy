/**
 * The client's report details page (`DetailsModel`): the Excel test on the stored
 * file name, the in-page preview of every worksheet, and the one-sheet Word export.
 */
module ReportDetails {
  import opened Prelude
  import opened Strings
  import Paths
  import Guids
  import opened Spreadsheet
  import opened WordConversion
  import opened Http
  import opened Reports

  /** `ExcelImageModel`. */
  datatype ImageModel = ImageModel(imageData: seq<byte>, format: string, name: string)

  /** `ExcelWorksheetModel`. */
  datatype WorksheetModel = WorksheetModel(name: string, tableData: seq<seq<string>>, images: seq<ImageModel>)

  /** What downloading and opening the stored file yields: a failed request, bytes that are no package, or the workbook. */
  datatype Download = DownloadFailed | CorruptPackage | Package(workbook: Workbook)

  /** The `IsExcel` test: the name ends with ".xlsx" or ".xls", ignoring case. */
  predicate IsExcel(fileName: string) {
    EndsWithIgnoreCase(fileName, ".xlsx") || EndsWithIgnoreCase(fileName, ".xls")
  }

  /** A suffix spelled ".xlsx" or ".xls" in any case is the name's extension. */
  lemma ExcelSuffixIsExtension(fileName: string, suffix: string)
    requires suffix == ".xlsx" || suffix == ".xls"
    requires EndsWithIgnoreCase(fileName, suffix)
    ensures Paths.GetExtension(fileName) == fileName[|fileName| - |suffix|..]
  {
    var e := fileName[|fileName| - |suffix|..];
    assert AsciiUpper(e[0]) == AsciiUpper(suffix[0]);
    forall m | 1 <= m < |e| ensures e[m] != '.' && !Paths.IsDirectorySeparator(e[m]) {
      assert AsciiUpper(e[m]) == AsciiUpper(suffix[m]);
    }
    Paths.ExtensionOfSuffix(fileName, e);
  }

  /** The Excel test is a test of the extension `Path.GetExtension` reports. */
  lemma IsExcelByExtension(fileName: string)
    ensures IsExcel(fileName) <==>
      var e := Paths.GetExtension(fileName);
      EqualsIgnoreCase(e, ".xlsx") || EqualsIgnoreCase(e, ".xls")
  {
    var e := Paths.GetExtension(fileName);
    Paths.ExtensionShape(fileName);
    if EndsWithIgnoreCase(fileName, ".xlsx") {
      ExcelSuffixIsExtension(fileName, ".xlsx");
    } else if EndsWithIgnoreCase(fileName, ".xls") {
      ExcelSuffixIsExtension(fileName, ".xls");
    }
  }

  /** A name stored on upload is an Excel name exactly when the client's original name was. */
  lemma StoredNameIsExcelIff(g: Guids.Guid, original: NString)
    ensures IsExcel(StoredFileName(g, original)) <==> original.Some? && IsExcel(original.value)
  {
    StoredNameKeepsExtension(g, original);
    IsExcelByExtension(StoredFileName(g, original));
    if original.Some? {
      IsExcelByExtension(original.value);
    }
    if IsNullOrEmpty(original) {
      GuidTextIsNotExcel(g);
      assert StoredFileName(g, original) == Guids.Text(g);
    }
  }

  /** A bare GUID text, the name a file replaced through the API receives, never passes the Excel test. */
  lemma GuidTextIsNotExcel(g: Guids.Guid)
    ensures !IsExcel(Guids.Text(g))
  {
    var t := Guids.Text(g);
    var c := t[|t| - 1];
    assert c == '-' || IsLowerHexDigit(c);
    assert AsciiUpper(c) != 'X' && AsciiUpper(c) != 'S';
    assert t[|t| - 4..][3] == c && t[|t| - 5..][4] == c;
  }

  // ---- preview models ----------------------------------------------------------------------

  /** The model of one drawing, if it is a picture: the bytes saved in its raw format, that format's name and the picture's name. */
  function ImageModelOf(d: Drawing): Option<ImageModel>
    requires d.Picture?
  {
    match SaveAsRaw(d.image)
    case None => None
    case Some(bytes) => Some(ImageModel(bytes, FormatName(d.image.rawFormat), d.name))
  }

  /** The image models of the drawings: pictures only; a picture that cannot be saved in its raw format throws (`None`). */
  function ImageModels(ds: seq<Drawing>): Option<seq<ImageModel>>
    decreases |ds|
  {
    if ds == [] then Some([])
    else
      var init := ImageModels(ds[..|ds| - 1]);
      var d := ds[|ds| - 1];
      if init.None? then None
      else if !d.Picture? then init
      else if ImageModelOf(d).None? then None
      else Some(init.value + [ImageModelOf(d).value])
  }

  /** The model of one worksheet; the table stays empty for a sheet without a used range. */
  function SheetModel(ws: Worksheet): Option<WorksheetModel> {
    match ImageModels(ws.drawings)
    case None => None
    case Some(images) => Some(WorksheetModel(ws.name, Grid(ws), images))
  }

  /** The number of leading worksheets whose model completes. */
  function FirstFailure(wb: Workbook): (n: nat)
    ensures n <= |wb|
    ensures forall k :: 0 <= k < n ==> SheetModel(wb[k]).Some?
    ensures n < |wb| ==> SheetModel(wb[n]).None?
  {
    if wb == [] then 0
    else if SheetModel(wb[0]).None? then 0
    else
      var n := FirstFailure(wb[1..]);
      assert forall k :: 1 <= k < n + 1 ==> wb[k] == wb[1..][k - 1];
      n + 1
  }

  /** What `LoadExcelData` adds: the models of the worksheets before the first one that throws. */
  function Loaded(wb: Workbook): (ms: seq<WorksheetModel>)
    ensures |ms| == FirstFailure(wb)
  {
    seq(FirstFailure(wb), k requires 0 <= k < FirstFailure(wb) => SheetModel(wb[k]).value)
  }

  lemma ImageModelsSnoc(ds: seq<Drawing>, j: int)
    requires 0 <= j < |ds|
    ensures ImageModels(ds[..j + 1]) ==
      var init := ImageModels(ds[..j]);
      if init.None? then None
      else if !ds[j].Picture? then init
      else if ImageModelOf(ds[j]).None? then None
      else Some(init.value + [ImageModelOf(ds[j]).value])
  {
    assert ds[..j + 1][..j] == ds[..j];
  }

  lemma {:induction false} ImageModelsFailurePersists(ds: seq<Drawing>, n: int)
    requires 0 <= n <= |ds| && ImageModels(ds[..n]).None?
    ensures ImageModels(ds).None?
    decreases |ds| - n
  {
    if n < |ds| {
      ImageModelsSnoc(ds, n);
      ImageModelsFailurePersists(ds, n + 1);
    } else {
      assert ds[..n] == ds;
    }
  }

  /** The preview of a sheet's drawings fails exactly when one of its pictures cannot be saved in its raw format. */
  lemma {:induction false} ImageModelsFailIff(ds: seq<Drawing>)
    ensures ImageModels(ds).None? <==> RawSaveFails(ds)
    decreases |ds|
  {
    if ds != [] {
      var init := ds[..|ds| - 1];
      ImageModelsFailIff(init);
      if RawSaveFails(init) {
        var k :| 0 <= k < |init| && init[k].Picture? && SaveAsRaw(init[k].image).None?;
        assert ds[k] == init[k];
      } else {
        forall k | 0 <= k < |ds| - 1 ensures !(ds[k].Picture? && SaveAsRaw(ds[k].image).None?) {
          assert ds[k] == init[k];
        }
      }
    }
  }

  /**
   * The image models are exactly the pictures, in drawing order, each with the bytes
   * saved in its raw format, that format's name and the picture's name.
   */
  lemma {:induction false} ImageModelsArePictures(ds: seq<Drawing>)
    requires ImageModels(ds).Some?
    ensures var ims, ps := ImageModels(ds).value, Pictures(ds);
      && |ims| == |ps|
      && forall k :: 0 <= k < |ims| ==>
           SaveAsRaw(ps[k].image).Some?
           && ims[k] == ImageModel(SaveAsRaw(ps[k].image).value, FormatName(ps[k].image.rawFormat), ps[k].name)
    decreases |ds|
  {
    if ds != [] {
      var init, d := ds[..|ds| - 1], ds[|ds| - 1];
      ImageModelsArePictures(init);
      var ims, ps := ImageModels(ds).value, Pictures(ds);
      var imsInit, psInit := ImageModels(init).value, Pictures(init);
      if d.Picture? {
        assert ims == imsInit + [ImageModelOf(d).value];
        assert ps == psInit + [d];
        forall k | 0 <= k < |imsInit| ensures ims[k] == imsInit[k] && ps[k] == psInit[k] {
        }
      } else {
        assert ims == imsInit && ps == psInit;
      }
    }
  }

  /**
   * A picture stored in a format without an encoder (EMF, WMF, Exif, Icon, MemoryBMP)
   * makes the whole preview of its sheet throw, whatever the PNG conversion does.
   */
  lemma NoEncoderPreviewFails(ds: seq<Drawing>, k: int)
    requires 0 <= k < |ds| && ds[k].Picture? && !HasEncoder(ds[k].image.rawFormat)
    ensures ImageModels(ds).None?
  {
    ImageModelsFailIff(ds);
  }

  /**
   * The preview and the server conversion disagree on a sheet with one EMF picture
   * that renders as PNG: the server converts it, the preview throws.
   */
  lemma EmfPictureDivergence(png: seq<byte>)
    ensures var ds := [Picture("Picture 1", ImageData(Emf, Some(png), None))];
      DrawingImages(ds) == Some([PictureImage(png)]) && ImageModels(ds).None?
  {
    var ds := [Picture("Picture 1", ImageData(Emf, Some(png), None))];
    assert ds[..0] == [];
    assert ImageModelOf(ds[0]).None?;
    assert DrawingImage(ds[0]) == Some([PictureImage(png)]);
    assert DrawingImages(ds[..0]) == Some([]);
    assert DrawingImages(ds) == Join(Some([]), Some([PictureImage(png)]));
    assert [] + [PictureImage(png)] == [PictureImage(png)];
  }

  /**
   * For pictures stored as PNG the two agree: the preview fails exactly when the
   * conversion fails, and it shows the very bytes the Word document embeds.
   */
  lemma {:induction false} PngPicturesAgree(ds: seq<Drawing>)
    requires forall k :: 0 <= k < |ds| && ds[k].Picture? ==> ds[k].image.rawFormat == Png
    ensures ImageModels(ds).None? <==> DrawingImages(ds).None?
    ensures ImageModels(ds).Some? ==>
      && |ImageModels(ds).value| == |Pictures(ds)|
      && forall k :: 0 <= k < |Pictures(ds)| ==> Some(ImageModels(ds).value[k].imageData) == SaveAsPng(Pictures(ds)[k].image)
  {
    ImageModelsFailIff(ds);
    DrawingImagesFailIff(ds);
    if RawSaveFails(ds) {
      var k :| 0 <= k < |ds| && ds[k].Picture? && SaveAsRaw(ds[k].image).None?;
      assert SaveAsPng(ds[k].image).None?;
    }
    if ImageModels(ds).Some? {
      ImageModelsArePictures(ds);
    }
  }

  /**
   * `LoadExcelData` on a workbook whose pictures can all be saved yields one model
   * per worksheet, in workbook order, with the capped grid, and an empty table for a
   * sheet without a used range.
   */
  lemma LoadedAll(wb: Workbook)
    requires forall k :: 0 <= k < |wb| ==> !RawSaveFails(wb[k].drawings)
    ensures var ms := Loaded(wb);
      && |ms| == |wb|
      && forall k :: 0 <= k < |wb| ==>
           && ms[k].name == wb[k].name
           && ms[k].tableData == Grid(wb[k])
           && (wb[k].dimension.None? ==> ms[k].tableData == [])
           && |ms[k].images| == |Pictures(wb[k].drawings)|
  {
    forall k | 0 <= k < |wb| ensures SheetModel(wb[k]).Some? && |SheetModel(wb[k]).value.images| == |Pictures(wb[k].drawings)| {
      ImageModelsFailIff(wb[k].drawings);
      ImageModelsArePictures(wb[k].drawings);
    }
    assert FirstFailure(wb) == |wb|;
  }

  /** The single-sheet export of the POST handler: nothing without sheets or without a used range, else one capped table. */
  function FirstSheetDocument(wb: Workbook): (body: seq<Element>)
    ensures |body| <= 1
    ensures body != [] <==> |wb| > 0 && wb[0].dimension.Some?
  {
    if |wb| == 0 || wb[0].dimension.None? then [] else [Table(Grid(wb[0]))]
  }

  /** The exported table is the first section's table of the server's conversion. */
  lemma FirstSheetMatchesServer(wb: Workbook)
    requires |wb| > 0 && wb[0].dimension.Some?
    ensures |Outline(wb)| >= 3 && FirstSheetDocument(wb) == [Outline(wb)[1]]
  {
    NonEmptyHead(wb);
    OutlineAt(wb);
  }

  lemma {:induction false} NonEmptyHead(wb: Workbook)
    requires |wb| > 0 && wb[0].dimension.Some?
    ensures |NonEmpty(wb)| > 0 && NonEmpty(wb)[0] == wb[0]
    decreases |wb|
  {
    if |wb| > 1 {
      NonEmptyHead(wb[..|wb| - 1]);
      assert wb[..|wb| - 1][0] == wb[0];
    }
  }

  // ---- the page ------------------------------------------------------------------------------

  class DetailsModel {
    var id: int
    var report: Option<ReportData>
    var isExcel: bool
    var worksheets: seq<WorksheetModel>

    constructor(id: int)
      ensures this.id == id && report.None? && !isExcel && worksheets == []
    {
      this.id := id;
      report, isExcel, worksheets := None, false, [];
    }

    /**
     * `OnGetAsync`: 404 when the report request fails; the null file name throws;
     * otherwise the page, with the preview loaded only for an Excel file name.
     */
    method OnGet(fetched: Option<ReportData>, download: Download) returns (r: Response<()>)
      modifies this
      ensures id == old(id)
      ensures fetched.None? ==> r == NotFound && unchanged(this)
      ensures fetched.Some? ==> report == fetched
      ensures fetched.Some? && fetched.value.fileName.None? ==> r == Unhandled && worksheets == old(worksheets)
      ensures fetched.Some? && fetched.value.fileName.Some? ==>
        && r == Ok(())
        && isExcel == IsExcel(fetched.value.fileName.value)
        && worksheets == old(worksheets) + (if isExcel && download.Package? then Loaded(download.workbook) else [])
    {
      if fetched.None? {
        return NotFound;
      }
      report := fetched;
      if fetched.value.fileName.None? {
        return Unhandled;
      }
      var fileName := fetched.value.fileName.value;
      isExcel := EndsWithIgnoreCase(fileName, ".xlsx") || EndsWithIgnoreCase(fileName, ".xls");
      if isExcel {
        LoadExcelData(download);
      }
      r := Ok(());
    }

    /** `LoadExcelData`: appends the models completed before the first exception, which it swallows. */
    method LoadExcelData(download: Download)
      modifies this`worksheets
      ensures worksheets == old(worksheets) + (if download.Package? then Loaded(download.workbook) else [])
    {
      if !download.Package? {
        return;
      }
      var wb := download.workbook;
      for i := 0 to |wb|
        invariant i <= FirstFailure(wb)
        invariant worksheets == old(worksheets) + Loaded(wb)[..i]
      {
        var model := LoadSheet(wb[i]);
        if model.None? {
          assert Loaded(wb)[..i] == Loaded(wb);
          return;
        }
        assert Loaded(wb)[..i + 1] == Loaded(wb)[..i] + [model.value];
        worksheets := worksheets + [model.value];
      }
      assert Loaded(wb)[..|wb|] == Loaded(wb);
    }

    /** The body of the worksheet loop: the table rows, then the pictures. */
    method LoadSheet(ws: Worksheet) returns (model: Option<WorksheetModel>)
      ensures model == SheetModel(ws)
    {
      var tableData := [];
      if ws.dimension.Some? {
        tableData := ReadGrid(ws);
      }
      var images := CollectImages(ws.drawings);
      if images.None? {
        return None;
      }
      model := Some(WorksheetModel(ws.name, tableData, images.value));
    }

    method CollectImages(ds: seq<Drawing>) returns (images: Option<seq<ImageModel>>)
      ensures images == ImageModels(ds)
    {
      var acc := [];
      for j := 0 to |ds|
        invariant ImageModels(ds[..j]) == Some(acc)
      {
        ImageModelsSnoc(ds, j);
        match ds[j] {
          case Picture(name, img) =>
            var saved := SaveAsRaw(img);
            if saved.None? {
              ImageModelsFailurePersists(ds, j + 1);
              return None;
            }
            acc := acc + [ImageModel(saved.value, FormatName(img.rawFormat), name)];
          case Chart(_) =>
          case Shape(_) =>
        }
      }
      assert ds[..|ds|] == ds;
      images := Some(acc);
    }

    /**
     * The Word export of the POST handler, given the downloaded file. `None` when no
     * document comes out: the download failed, the package is corrupt, or the workbook
     * has no worksheets, so no Word file is written and opening it throws.
     */
    method ConvertFirstSheet(download: Download) returns (body: Option<seq<Element>>)
      ensures body.Some? <==> download.Package? && |download.workbook| > 0
      ensures body.Some? ==> body.value == FirstSheetDocument(download.workbook)
    {
      if !download.Package? {
        return None;
      }
      var wb := download.workbook;
      if |wb| == 0 {
        return None;
      }
      var elements := ConvertExcelToWord(wb[0]);
      body := Some(elements);
    }

    /** `ConvertExcelToWord`: one table of the capped grid when the sheet has a used range. */
    method ConvertExcelToWord(ws: Worksheet) returns (body: seq<Element>)
      ensures body == FirstSheetDocument([ws])
    {
      body := [];
      if ws.dimension.Some? {
        var grid := ReadGrid(ws);
        body := body + [Table(grid)];
      }
    }
  }
}
