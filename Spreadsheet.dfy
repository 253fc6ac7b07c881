/**
 * What the code reads from an EPPlus workbook: worksheets in workbook order,
 * each with a name, a used range (`Dimension`, null for an empty sheet), cell
 * texts and drawings. The library itself is not modelled.
 */
module Spreadsheet {
  import opened Prelude

  /** The table cap applied on the server and in the client preview. */
  const MaxRows := 100
  const MaxColumns := 20

  datatype Range = Range(fromRow: nat, fromColumn: nat, toRow: nat, toColumn: nat)

  /** `ExcelAddressBase` of a used range: 1-based and never empty. */
  type Dimension = r: Range | 1 <= r.fromRow <= r.toRow && 1 <= r.fromColumn <= r.toColumn
    witness Range(1, 1, 1, 1)

  function Rows(d: Dimension): nat { d.toRow - d.fromRow + 1 }

  function Columns(d: Dimension): nat { d.toColumn - d.fromColumn + 1 }

  /** The `System.Drawing` formats a picture's image can report as its `RawFormat`. */
  datatype ImageFormat = Bmp | Emf | Exif | Gif | Icon | Jpeg | MemoryBmp | Png | Tiff | Wmf

  /** GDI+ has encoders for BMP, GIF, JPEG, PNG and TIFF only. */
  predicate HasEncoder(f: ImageFormat) {
    f == Bmp || f == Gif || f == Jpeg || f == Png || f == Tiff
  }

  /** `ImageFormat.ToString()` of a built-in format. */
  function FormatName(f: ImageFormat): string {
    match f
    case Bmp => "Bmp"
    case Emf => "Emf"
    case Exif => "Exif"
    case Gif => "Gif"
    case Icon => "Icon"
    case Jpeg => "Jpeg"
    case MemoryBmp => "MemoryBMP"
    case Png => "Png"
    case Tiff => "Tiff"
    case Wmf => "Wmf"
  }

  /**
   * The image of an `ExcelPicture`: its raw format, and the bytes the PNG encoder
   * and the raw format's encoder write for it (`None` where GDI+ fails while encoding).
   */
  datatype ImageData = ImageData(rawFormat: ImageFormat, pngEncoding: Option<seq<byte>>, rawEncoding: Option<seq<byte>>)

  /** `Image.Save(stream, ImageFormat.Png)`, as the server saves pictures; `None` when it throws. */
  function SaveAsPng(img: ImageData): Option<seq<byte>> {
    img.pngEncoding
  }

  /**
   * `Image.Save(stream, image.RawFormat)`, as the client saves pictures: without an
   * encoder for the raw format (EMF, WMF, Exif, Icon, MemoryBMP) the save throws;
   * a PNG image is written by the same encoder as `SaveAsPng`.
   */
  function SaveAsRaw(img: ImageData): (r: Option<seq<byte>>)
    ensures !HasEncoder(img.rawFormat) ==> r.None?
    ensures img.rawFormat == Png ==> r == SaveAsPng(img)
  {
    if img.rawFormat == Png then img.pngEncoding
    else if HasEncoder(img.rawFormat) then img.rawEncoding
    else None
  }

  /** A drawing is a picture, a chart, or some other shape. */
  datatype Drawing =
    | Picture(name: string, image: ImageData)
    | Chart(name: string)
    | Shape(name: string)

  datatype Worksheet = Worksheet(
    name: string,
    dimension: Option<Dimension>,
    cells: map<(nat, nat), string>,
    drawings: seq<Drawing>)

  type Workbook = seq<Worksheet>

  /** `worksheet.Cells[row, col].Text`: an unset cell reads as "". */
  function CellText(ws: Worksheet, row: nat, col: nat): string {
    if (row, col) in ws.cells then ws.cells[(row, col)] else ""
  }

  function RowCount(d: Dimension): nat { Min(Rows(d), MaxRows) }

  function ColumnCount(d: Dimension): nat { Min(Columns(d), MaxColumns) }

  /**
   * The capped table: for a sheet with a used range, `RowCount` rows of
   * `ColumnCount` cell texts read from cell (1, 1) on; no rows for an empty sheet.
   */
  function Grid(ws: Worksheet): seq<seq<string>> {
    match ws.dimension
    case None => []
    case Some(d) =>
      seq(RowCount(d), i requires 0 <= i => seq(ColumnCount(d), j requires 0 <= j => CellText(ws, i + 1, j + 1)))
  }

  /**
   * The grid never exceeds the cap, and it is read from the top-left cell, not
   * from where the used range starts: a range that begins below row 1 or right
   * of column 1 loses its last rows or columns.
   */
  lemma GridShape(ws: Worksheet, d: Dimension)
    requires ws.dimension == Some(d)
    ensures |Grid(ws)| == RowCount(d) <= MaxRows && |Grid(ws)| <= Rows(d)
    ensures forall i :: 0 <= i < |Grid(ws)| ==>
      |Grid(ws)[i]| == ColumnCount(d) <= MaxColumns
      && forall j :: 0 <= j < |Grid(ws)[i]| ==> Grid(ws)[i][j] == CellText(ws, i + 1, j + 1)
  {
  }

  /**
   * The nested `for` loops over rows 1..rowCount and columns 1..colCount that
   * every converter in the code runs.
   */
  method ReadGrid(ws: Worksheet) returns (grid: seq<seq<string>>)
    ensures grid == Grid(ws)
  {
    grid := [];
    if ws.dimension.Some? {
      var d := ws.dimension.value;
      var rowCount := Min(Rows(d), MaxRows);
      var colCount := Min(Columns(d), MaxColumns);
      ghost var want := Grid(ws);
      for row := 1 to rowCount + 1
        invariant grid == want[..row - 1]
      {
        var currentRow := [];
        for col := 1 to colCount + 1
          invariant currentRow == want[row - 1][..col - 1]
        {
          currentRow := currentRow + [CellText(ws, row, col)];
        }
        assert currentRow == want[row - 1];
        grid := grid + [currentRow];
      }
    }
  }

  /** The pictures among some drawings, in order; charts and shapes are skipped. */
  function Pictures(ds: seq<Drawing>): (ps: seq<Drawing>)
    ensures |ps| <= |ds|
    ensures forall k :: 0 <= k < |ps| ==> ps[k].Picture? && ps[k] in ds
    decreases |ds|
  {
    if ds == [] then []
    else Pictures(ds[..|ds| - 1]) + (if ds[|ds| - 1].Picture? then [ds[|ds| - 1]] else [])
  }

  /** A lone drawing is kept exactly when it is a picture. */
  lemma PicturesOfOne(d: Drawing)
    ensures Pictures([d]) == if d.Picture? then [d] else []
  {
    assert [d][..0] == [];
  }

  /** Picking the pictures distributes over concatenation: every picture is kept, in order. */
  lemma {:induction false} PicturesAppend(a: seq<Drawing>, b: seq<Drawing>)
    ensures Pictures(a + b) == Pictures(a) + Pictures(b)
    decreases |b|
  {
    if b == [] {
      assert a + b == a;
    } else {
      var init := b[..|b| - 1];
      assert (a + b)[..|a + b| - 1] == a + init;
      assert (a + b)[|a + b| - 1] == b[|b| - 1];
      PicturesAppend(a, init);
    }
  }

  /** Saving some picture among these drawings as PNG throws. */
  predicate PngSaveFails(ds: seq<Drawing>) {
    exists k :: 0 <= k < |ds| && ds[k].Picture? && SaveAsPng(ds[k].image).None?
  }

  /** Saving some picture among these drawings in its raw format throws. */
  predicate RawSaveFails(ds: seq<Drawing>) {
    exists k :: 0 <= k < |ds| && ds[k].Picture? && SaveAsRaw(ds[k].image).None?
  }
}
