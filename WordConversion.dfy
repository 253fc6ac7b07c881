/**
 * The shape of the Word body `ConvertToWordAsync` writes: per worksheet with a
 * used range, a heading, the capped table, an image per picture or chart, and a
 * page break. Elements stand for the OpenXML nodes; their XML is not modelled.
 */
module WordConversion {
  import opened Prelude
  import opened Spreadsheet

  datatype Element =
    | Heading(text: string)                 // "Heading1" paragraph with the sheet name
    | Table(rows: seq<seq<string>>)         // bordered table of cell texts
    | PictureImage(image: seq<byte>)        // a picture, re-encoded as PNG
    | ChartImage(chartName: string)         // the 800x600 "Chart: <name>" placeholder bitmap
    | PageBreak

  function Join<T>(a: Option<seq<T>>, b: Option<seq<T>>): Option<seq<T>> {
    if a.Some? && b.Some? then Some(a.value + b.value) else None
  }

  /** The elements one drawing adds; `None` when saving its image throws. */
  function DrawingImage(d: Drawing): Option<seq<Element>> {
    match d
    case Picture(_, img) => if SaveAsPng(img).Some? then Some([PictureImage(SaveAsPng(img).value)]) else None
    case Chart(name) => Some([ChartImage(name)])
    case Shape(_) => Some([])
  }

  function DrawingImages(ds: seq<Drawing>): Option<seq<Element>>
    decreases |ds|
  {
    if ds == [] then Some([])
    else Join(DrawingImages(ds[..|ds| - 1]), DrawingImage(ds[|ds| - 1]))
  }

  /** The section of one worksheet. */
  function Section(ws: Worksheet): Option<seq<Element>> {
    Join(Join(Some([Heading(ws.name), Table(Grid(ws))]), DrawingImages(ws.drawings)), Some([PageBreak]))
  }

  /** The whole body: sections of the sheets with a used range, in workbook order; `None` when a drawing throws. */
  function Body(wb: Workbook): Option<seq<Element>>
    decreases |wb|
  {
    if wb == [] then Some([])
    else
      var last := wb[|wb| - 1];
      Join(Body(wb[..|wb| - 1]), if last.dimension.Some? then Section(last) else Some([]))
  }

  /** The `foreach` over worksheets with a used range in `ConvertToWordAsync`, appending each section to the body. */
  method BuildDocument(workbook: Workbook) returns (body: Option<seq<Element>>)
    ensures body == Body(workbook)
  {
    var acc: seq<Element> := [];
    for i := 0 to |workbook|
      invariant Body(workbook[..i]) == Some(acc)
    {
      var ws := workbook[i];
      BodySnoc(workbook, i);
      if ws.dimension.Some? {
        var section := BuildSection(ws);
        if section.None? {
          BodyFailurePersists(workbook, i + 1);
          return None;
        }
        acc := acc + section.value;
      } else {
        assert acc + [] == acc;
      }
    }
    assert workbook[..|workbook|] == workbook;
    body := Some(acc);
  }

  /** One worksheet's heading, table (the nested row and column loops), drawings (a `foreach`) and page break. */
  method BuildSection(ws: Worksheet) returns (section: Option<seq<Element>>)
    ensures section == Section(ws)
  {
    var grid := ReadGrid(ws);
    var head := [Heading(ws.name), Table(grid)];
    var imgs: seq<Element> := [];
    assert ws.drawings[..0] == [];
    for j := 0 to |ws.drawings|
      invariant DrawingImages(ws.drawings[..j]) == Some(imgs)
    {
      DrawingImagesSnoc(ws.drawings, j);
      match ws.drawings[j]
      case Picture(_, img) =>
        var png := SaveAsPng(img);
        if png.None? {
          DrawingImagesFailurePersists(ws.drawings, j + 1);
          return None;
        }
        imgs := imgs + [PictureImage(png.value)];
      case Chart(name) =>
        imgs := imgs + [ChartImage(name)];
      case Shape(_) =>
        assert imgs + [] == imgs;
    }
    assert ws.drawings[..|ws.drawings|] == ws.drawings;
    section := Some(head + imgs + [PageBreak]);
  }

  lemma DrawingImagesSnoc(ds: seq<Drawing>, j: nat)
    requires j < |ds|
    ensures DrawingImages(ds[..j + 1]) == Join(DrawingImages(ds[..j]), DrawingImage(ds[j]))
  {
    assert ds[..j + 1][..j] == ds[..j];
  }

  lemma BodySnoc(wb: Workbook, i: nat)
    requires i < |wb|
    ensures Body(wb[..i + 1]) == Join(Body(wb[..i]), if wb[i].dimension.Some? then Section(wb[i]) else Some([]))
  {
    assert wb[..i + 1][..i] == wb[..i];
  }

  /** Once a drawing has thrown, the rest cannot rescue the section. */
  lemma {:induction false} DrawingImagesFailurePersists(ds: seq<Drawing>, n: nat)
    requires n <= |ds| && DrawingImages(ds[..n]).None?
    ensures DrawingImages(ds).None?
    decreases |ds| - n
  {
    if n < |ds| {
      assert ds[..n + 1][..n] == ds[..n];
      DrawingImagesFailurePersists(ds, n + 1);
    } else {
      assert ds[..n] == ds;
    }
  }

  /** Once a worksheet has thrown, the conversion as a whole fails. */
  lemma {:induction false} BodyFailurePersists(wb: Workbook, n: nat)
    requires n <= |wb| && Body(wb[..n]).None?
    ensures Body(wb).None?
    decreases |wb| - n
  {
    if n < |wb| {
      assert wb[..n + 1][..n] == wb[..n];
      BodyFailurePersists(wb, n + 1);
    } else {
      assert wb[..n] == wb;
    }
  }

  /** A sheet's drawings fail exactly when one of its pictures cannot be saved as PNG. */
  lemma {:induction false} DrawingImagesFailIff(ds: seq<Drawing>)
    ensures DrawingImages(ds).None? <==> PngSaveFails(ds)
    decreases |ds|
  {
    if ds != [] {
      var init := ds[..|ds| - 1];
      DrawingImagesFailIff(init);
      if PngSaveFails(init) {
        var k :| 0 <= k < |init| && init[k].Picture? && SaveAsPng(init[k].image).None?;
        assert ds[k] == init[k];
      } else {
        forall k | 0 <= k < |ds| - 1 ensures !(ds[k].Picture? && SaveAsPng(ds[k].image).None?) {
          assert ds[k] == init[k];
        }
      }
    }
  }

  /** The drawings that yield an image: pictures and charts, in order; other shapes are skipped. */
  function ImageDrawings(ds: seq<Drawing>): (r: seq<Drawing>)
    ensures |r| <= |ds|
    ensures forall k :: 0 <= k < |r| ==> !r[k].Shape? && r[k] in ds
    decreases |ds|
  {
    if ds == [] then []
    else ImageDrawings(ds[..|ds| - 1]) + (if ds[|ds| - 1].Shape? then [] else [ds[|ds| - 1]])
  }

  /** A lone drawing yields an image exactly when it is a picture or a chart. */
  lemma ImageDrawingsOfOne(d: Drawing)
    ensures ImageDrawings([d]) == if d.Shape? then [] else [d]
  {
    assert [d][..0] == [];
  }

  /** Picking the image drawings distributes over concatenation: every picture and chart is kept, in order. */
  lemma {:induction false} ImageDrawingsAppend(a: seq<Drawing>, b: seq<Drawing>)
    ensures ImageDrawings(a + b) == ImageDrawings(a) + ImageDrawings(b)
    decreases |b|
  {
    if b == [] {
      assert a + b == a;
    } else {
      var init := b[..|b| - 1];
      assert (a + b)[..|a + b| - 1] == a + init;
      assert (a + b)[|a + b| - 1] == b[|b| - 1];
      ImageDrawingsAppend(a, init);
    }
  }

  /**
   * The images of a sheet that converts: one per picture or chart, in drawing order,
   * a picture's PNG bytes or a chart's placeholder, and nothing for other shapes.
   */
  lemma {:induction false} DrawingImagesAreImageDrawings(ds: seq<Drawing>)
    requires DrawingImages(ds).Some?
    ensures var imgs, src := DrawingImages(ds).value, ImageDrawings(ds);
      && |imgs| == |src|
      && forall k :: 0 <= k < |imgs| ==>
           && (src[k].Picture? ==> SaveAsPng(src[k].image).Some? && imgs[k] == PictureImage(SaveAsPng(src[k].image).value))
           && (src[k].Chart? ==> imgs[k] == ChartImage(src[k].name))
    decreases |ds|
  {
    if ds != [] {
      var init, d := ds[..|ds| - 1], ds[|ds| - 1];
      DrawingImagesAreImageDrawings(init);
      var imgs, src := DrawingImages(ds).value, ImageDrawings(ds);
      var imgsInit, srcInit := DrawingImages(init).value, ImageDrawings(init);
      assert imgs == imgsInit + DrawingImage(d).value;
      if d.Shape? {
        assert imgs == imgsInit && src == srcInit;
      } else {
        assert src == srcInit + [d];
        assert |DrawingImage(d).value| == 1;
        forall k | 0 <= k < |imgsInit| ensures imgs[k] == imgsInit[k] && src[k] == srcInit[k] {
        }
      }
    }
  }

  /** The sheets the conversion keeps: those with a used range, in workbook order. */
  function NonEmpty(wb: Workbook): (r: Workbook)
    ensures |r| <= |wb|
    ensures forall k :: 0 <= k < |r| ==> r[k].dimension.Some? && r[k] in wb
    decreases |wb|
  {
    if wb == [] then []
    else NonEmpty(wb[..|wb| - 1]) + (if wb[|wb| - 1].dimension.Some? then [wb[|wb| - 1]] else [])
  }

  /** A lone sheet is kept exactly when it has a used range. */
  lemma NonEmptyOfOne(ws: Worksheet)
    ensures NonEmpty([ws]) == if ws.dimension.Some? then [ws] else []
  {
    assert [ws][..0] == [];
  }

  /** Keeping the sheets with a used range distributes over concatenation: every such sheet is kept, in order. */
  lemma {:induction false} NonEmptyAppend(a: Workbook, b: Workbook)
    ensures NonEmpty(a + b) == NonEmpty(a) + NonEmpty(b)
    decreases |b|
  {
    if b == [] {
      assert a + b == a;
    } else {
      var init := b[..|b| - 1];
      assert (a + b)[..|a + b| - 1] == a + init;
      assert (a + b)[|a + b| - 1] == b[|b| - 1];
      NonEmptyAppend(a, init);
    }
  }

  /** Some sheet among these has a picture that cannot be saved as PNG. */
  predicate AnyFails(sheets: Workbook) {
    exists k :: 0 <= k < |sheets| && PngSaveFails(sheets[k].drawings)
  }

  lemma AnyFailsSnoc(sheets: Workbook, ws: Worksheet)
    ensures AnyFails(sheets + [ws]) <==> AnyFails(sheets) || PngSaveFails(ws.drawings)
  {
    var all := sheets + [ws];
    if AnyFails(sheets) {
      var k :| 0 <= k < |sheets| && PngSaveFails(sheets[k].drawings);
      assert all[k] == sheets[k];
    }
    if PngSaveFails(ws.drawings) {
      assert all[|sheets|] == ws;
    }
    if AnyFails(all) {
      var k :| 0 <= k < |all| && PngSaveFails(all[k].drawings);
      if k < |sheets| { assert all[k] == sheets[k]; }
    }
  }

  /** The conversion fails exactly when a kept sheet has a picture that cannot be saved. */
  lemma {:induction false} BodyFailsIff(wb: Workbook)
    ensures Body(wb).None? <==> AnyFails(NonEmpty(wb))
    decreases |wb|
  {
    if wb != [] {
      var init, last := wb[..|wb| - 1], wb[|wb| - 1];
      BodyFailsIff(init);
      if last.dimension.Some? {
        DrawingImagesFailIff(last.drawings);
        AnyFailsSnoc(NonEmpty(init), last);
      } else {
        assert NonEmpty(wb) == NonEmpty(init);
      }
    }
  }

  /** The body with its images taken out. */
  function Structure(b: seq<Element>): seq<Element>
    decreases |b|
  {
    if b == [] then []
    else
      var e := b[|b| - 1];
      Structure(b[..|b| - 1]) + (if e.PictureImage? || e.ChartImage? then [] else [e])
  }

  lemma {:induction false} StructureAppend(a: seq<Element>, b: seq<Element>)
    ensures Structure(a + b) == Structure(a) + Structure(b)
    decreases |b|
  {
    if b != [] {
      var init := b[..|b| - 1];
      assert (a + b)[..|a + b| - 1] == a + init;
      StructureAppend(a, init);
    } else {
      assert a + b == a;
    }
  }

  lemma {:induction false} StructureOfImages(ds: seq<Drawing>)
    requires DrawingImages(ds).Some?
    ensures Structure(DrawingImages(ds).value) == []
    decreases |ds|
  {
    if ds != [] {
      StructureOfImages(ds[..|ds| - 1]);
      StructureAppend(DrawingImages(ds[..|ds| - 1]).value, DrawingImage(ds[|ds| - 1]).value);
    }
  }

  /** Heading, table and page break of each kept sheet, in order. */
  function Outline(wb: Workbook): seq<Element>
    decreases |wb|
  {
    if wb == [] then []
    else
      var last := wb[|wb| - 1];
      Outline(wb[..|wb| - 1])
        + (if last.dimension.Some? then [Heading(last.name), Table(Grid(last)), PageBreak] else [])
  }

  /** Without its images, a section is its heading, its table and its page break. */
  lemma SectionStructure(ws: Worksheet)
    requires Section(ws).Some?
    ensures Structure(Section(ws).value) == [Heading(ws.name), Table(Grid(ws)), PageBreak]
  {
    var imgs := DrawingImages(ws.drawings).value;
    StructureOfImages(ws.drawings);
    FrameStructure(Heading(ws.name), Table(Grid(ws)), imgs);
  }

  lemma FrameStructure(h: Element, t: Element, imgs: seq<Element>)
    requires !h.PictureImage? && !h.ChartImage? && !t.PictureImage? && !t.ChartImage?
    requires Structure(imgs) == []
    ensures Structure([h, t] + imgs + [PageBreak]) == [h, t, PageBreak]
  {
    StructureSnoc([], h);
    assert [] + [h] == [h];
    StructureSnoc([h], t);
    assert [h] + [t] == [h, t];
    StructureAppend([h, t], imgs);
    StructureSnoc([h, t] + imgs, PageBreak);
  }

  /** One more element: it is kept exactly when it is not an image. */
  lemma StructureSnoc(b: seq<Element>, e: Element)
    ensures Structure(b + [e]) == Structure(b) + (if e.PictureImage? || e.ChartImage? then [] else [e])
  {
    assert (b + [e])[..|b|] == b;
  }

  /** Without its images, a converted body is exactly the outline of the kept sheets. */
  lemma {:induction false} BodyStructure(wb: Workbook)
    requires Body(wb).Some?
    ensures Structure(Body(wb).value) == Outline(wb)
    decreases |wb|
  {
    if wb != [] {
      var init, last := wb[..|wb| - 1], wb[|wb| - 1];
      BodyStructure(init);
      if last.dimension.Some? {
        SectionStructure(last);
        StructureAppend(Body(init).value, Section(last).value);
      } else {
        StructureAppend(Body(init).value, []);
      }
    }
  }

  /**
   * The outline of k kept sheets has 3k elements: sheet k's heading, table and
   * page break sit at 3k, 3k+1 and 3k+2.
   */
  lemma {:induction false} OutlineAt(wb: Workbook)
    ensures |Outline(wb)| == 3 * |NonEmpty(wb)|
    ensures forall k :: 0 <= k < |NonEmpty(wb)| ==>
      var ws := NonEmpty(wb)[k];
      Outline(wb)[3 * k] == Heading(ws.name)
      && Outline(wb)[3 * k + 1] == Table(Grid(ws))
      && Outline(wb)[3 * k + 2] == PageBreak
    decreases |wb|
  {
    if wb != [] {
      var init, last := wb[..|wb| - 1], wb[|wb| - 1];
      OutlineAt(init);
      var o, oInit := Outline(wb), Outline(init);
      var ne, neInit := NonEmpty(wb), NonEmpty(init);
      if last.dimension.Some? {
        assert ne == neInit + [last];
        assert o == oInit + [Heading(last.name), Table(Grid(last)), PageBreak];
        forall k | 0 <= k < |ne|
          ensures o[3 * k] == Heading(ne[k].name) && o[3 * k + 1] == Table(Grid(ne[k])) && o[3 * k + 2] == PageBreak
        {
          if k < |neInit| {
            assert ne[k] == neInit[k];
            assert o[3 * k] == oInit[3 * k] && o[3 * k + 1] == oInit[3 * k + 1] && o[3 * k + 2] == oInit[3 * k + 2];
          }
        }
      } else {
        assert ne == neInit && o == oInit;
      }
    }
  }
}
