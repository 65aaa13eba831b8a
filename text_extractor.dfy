/** The PDF text-run extractor: for each run of text a page reports, it estimates the
    run's box from the text and user-space matrices (ISO 32000-1 section 8.3.4) and the
    font dictionary's /FirstChar and /Widths (ISO 32000-1 section 9.6.2, widths in
    thousandths of text space), drops runs in the header and footer bands, and records
    the rest per page. The square root is a parameter of the extractor. */
module TextExtraction {
  import opened Wrappers
  import opened Geometry
  import Strings

  /** A transformation matrix [a b c d e f]. */
  datatype Matrix = Matrix(a: real, b: real, c: real, d: real, e: real, f: real)

  /** The font dictionary entries the extractor reads. `widths` is None when /Widths is
      absent, empty or not a list, since all three take the fallback path. */
  datatype FontDict = FontDict(fontBBox: Option<seq<real>>, widths: Option<seq<real>>, firstChar: Option<int>)

  datatype TextItem = TextItem(text: string, fontSize: real, font: Option<FontDict>, bounds: Rect)

  /** One text-run callback: the text (possibly None), the matrices, font and size. */
  datatype TextRun = TextRun(text: Option<string>, userMatrix: Matrix, textMatrix: Matrix,
                             font: Option<FontDict>, fontSize: real)

  /** A page's media box [x0 y0 x1 y1] and the text runs reported for it. */
  datatype PageSource = PageSource(mediaBox: Matrix4, runs: seq<TextRun>)

  datatype Matrix4 = Matrix4(x0: real, y0: real, x1: real, y1: real)

  /** The point (x, y) mapped through `m`. */
  function ApplyMatrix(m: Matrix, x: real, y: real): Point
  {
    Point(m.a * x + m.c * y + m.e, m.b * x + m.d * y + m.f)
  }

  /** The matrix maps the origin to its translation (e, f) and is affine: the image of
      (x, y) is that translation plus x times the column (a, b) and y times (c, d). */
  lemma ApplyMatrixAffine(m: Matrix, x: real, y: real)
    ensures ApplyMatrix(m, 0.0, 0.0) == Point(m.e, m.f)
    ensures ApplyMatrix(m, x, y).x - m.e == x * ApplyMatrix(m, 1.0, 0.0).x - x * m.e
                                           + y * ApplyMatrix(m, 0.0, 1.0).x - y * m.e
    ensures ApplyMatrix(m, x, y).y - m.f == x * ApplyMatrix(m, 1.0, 0.0).y - x * m.f
                                           + y * ApplyMatrix(m, 0.0, 1.0).y - y * m.f
  {
  }

  function Determinant(m: Matrix): real { m.a * m.d - m.b * m.c }

  /** The font size scaled by the user matrix: by the square root of the determinant
      when it is positive, by |d| otherwise. */
  function EffectiveFontSize(fontSize: real, m: Matrix, sqrt: real -> real): real
  {
    var det := Determinant(m);
    fontSize * (if det > 0.0 then sqrt(det) else Abs(m.d))
  }

  /** With a square root that is exact at the determinant, the squared effective size is
      the squared font size times the determinant; otherwise the size scales by |d|. */
  lemma EffectiveFontSizeScales(fontSize: real, m: Matrix, sqrt: real -> real)
    requires Determinant(m) > 0.0 ==> sqrt(Determinant(m)) * sqrt(Determinant(m)) == Determinant(m)
    ensures Determinant(m) > 0.0 ==>
      EffectiveFontSize(fontSize, m, sqrt) * EffectiveFontSize(fontSize, m, sqrt)
      == fontSize * fontSize * Determinant(m)
    ensures Determinant(m) <= 0.0 ==> EffectiveFontSize(fontSize, m, sqrt) == fontSize * Abs(m.d)
  {
    var det := Determinant(m);
    if det > 0.0 {
      var s := sqrt(det);
      calc {
        (fontSize * s) * (fontSize * s);
        fontSize * fontSize * (s * s);
        fontSize * fontSize * det;
      }
    }
  }

  const DefaultAscent: real := 0.8
  const DefaultDescent: real := 0.2

  /** The font has a /FontBBox of four numbers whose top lies above its bottom. */
  predicate UsableBBox(font: Option<FontDict>)
  {
    && font.Some? && font.value.fontBBox.Some? && |font.value.fontBBox.value| == 4
    && font.value.fontBBox.value[3] > font.value.fontBBox.value[1]
  }

  /** Ascent and descent, as fractions of the font size, read from /FontBBox: the box's
      top and the size of its bottom, per thousand, when the box is usable, and the
      defaults otherwise. Either way they add up to a positive line height. */
  function AscentDescent(font: Option<FontDict>): (r: (real, real))
    ensures r.0 + r.1 > 0.0
    ensures UsableBBox(font) ==>
      r == (font.value.fontBBox.value[3] / 1000.0, Abs(font.value.fontBBox.value[1]) / 1000.0)
    ensures !UsableBBox(font) ==> r == (DefaultAscent, DefaultDescent)
  {
    if font.None? then (DefaultAscent, DefaultDescent)
    else match font.value.fontBBox
      case None => (DefaultAscent, DefaultDescent)
      case Some(bbox) =>
        if |bbox| != 4 then (DefaultAscent, DefaultDescent)
        else
          var yMin := bbox[1];
          var yMax := bbox[3];
          if yMax <= yMin then (DefaultAscent, DefaultDescent)
          else (yMax / 1000.0, Abs(yMin) / 1000.0)
  }

  /** The /Widths list, when present and non-empty. */
  function WidthsOf(font: Option<FontDict>): Option<seq<real>>
  {
    if font.Some? && font.value.widths.Some? && |font.value.widths.value| > 0
    then font.value.widths else None
  }

  function FirstCharOf(font: Option<FontDict>): int
  {
    if font.Some? then font.value.firstChar.GetOr(0) else 0
  }

  /** The width of one character in thousandths: its /Widths entry, or 500 when the code
      falls outside the list. */
  function CharUnits(ch: char, widths: seq<real>, firstChar: int): real
  {
    var cid := ch as int - firstChar;
    if 0 <= cid < |widths| then widths[cid] else 500.0
  }

  function GlyphUnits(text: string, widths: seq<real>, firstChar: int): real
  {
    if text == [] then 0.0
    else GlyphUnits(text[..|text| - 1], widths, firstChar) + CharUnits(text[|text| - 1], widths, firstChar)
  }

  /** The estimated advance width of `text` at `fontSize`. */
  function TextWidth(font: Option<FontDict>, fontSize: real, text: string): real
  {
    if Strings.IsBlank(text) then 0.0
    else match WidthsOf(font)
      case None => 0.55 * fontSize * |text| as real
      case Some(w) => GlyphUnits(text, w, FirstCharOf(font)) / 1000.0 * fontSize
  }

  /** Glyph widths add up over concatenated text. */
  lemma {:induction false} GlyphUnitsAppend(a: string, b: string, widths: seq<real>, firstChar: int)
    ensures GlyphUnits(a + b, widths, firstChar) == GlyphUnits(a, widths, firstChar) + GlyphUnits(b, widths, firstChar)
  {
    if b == [] {
      assert a + b == a;
    } else {
      var b' := b[..|b| - 1];
      assert (a + b)[..|a + b| - 1] == a + b';
      GlyphUnitsAppend(a, b', widths, firstChar);
    }
  }

  /** With non-negative widths and size the estimate is non-negative. */
  lemma {:induction false} GlyphUnitsNonNegative(text: string, widths: seq<real>, firstChar: int)
    requires forall k :: 0 <= k < |widths| ==> widths[k] >= 0.0
    ensures GlyphUnits(text, widths, firstChar) >= 0.0
  {
    if text != [] {
      GlyphUnitsNonNegative(text[..|text| - 1], widths, firstChar);
    }
  }

  lemma TextWidthNonNegative(font: Option<FontDict>, fontSize: real, text: string)
    requires fontSize >= 0.0
    requires WidthsOf(font).Some? ==> forall k :: 0 <= k < |WidthsOf(font).value| ==> WidthsOf(font).value[k] >= 0.0
    ensures TextWidth(font, fontSize, text) >= 0.0
  {
    if !Strings.IsBlank(text) {
      match WidthsOf(font)
      case None =>
        ProductNonNegative(0.55 * fontSize, |text| as real);
      case Some(w) =>
        GlyphUnitsNonNegative(text, w, FirstCharOf(font));
        ProductNonNegative(GlyphUnits(text, w, FirstCharOf(font)) / 1000.0, fontSize);
    }
  }

  lemma ProductNonNegative(x: real, y: real)
    requires x >= 0.0 && y >= 0.0
    ensures x * y >= 0.0
  {
  }

  /** `__estimate_text_width`: sums the widths of the characters in a loop. */
  method EstimateTextWidth(font: Option<FontDict>, fontSize: real, text: string) returns (w: real)
    ensures w == TextWidth(font, fontSize, text)
  {
    if Strings.IsBlank(text) {
      return 0.0;
    }
    var widths := WidthsOf(font);
    if widths.None? {
      return 0.55 * fontSize * |text| as real;
    }
    var firstChar := FirstCharOf(font);
    var total := 0.0;
    var i := 0;
    while i < |text|
      invariant 0 <= i <= |text|
      invariant total == GlyphUnits(text[..i], widths.value, firstChar)
    {
      var cid := text[i] as int - firstChar;
      ghost var before := total;
      if 0 <= cid < |widths.value| {
        total := total + widths.value[cid];
      } else {
        total := total + 500.0;
      }
      assert total == before + CharUnits(text[i], widths.value, firstChar);
      assert text[..i + 1][..i] == text[..i];
      i := i + 1;
    }
    assert text[..|text|] == text;
    w := total / 1000.0 * fontSize;
  }

  function TextSize(text: string, fontSize: real, font: Option<FontDict>): Size
  {
    var (ascent, descent) := AscentDescent(font);
    Size(TextWidth(font, fontSize, text), (ascent + descent) * fontSize)
  }

  /** The run's box in top-left page coordinates: `size` wide and high, left edge at the
      origin, bottom edge at page height minus the origin's y. */
  function FromTopLeft(pageHeight: real, origin: Point, size: Size): (r: Rect)
    ensures size.width >= 0.0 && size.height >= 0.0 ==> r.Extent() == size && r.Normalised()
    ensures r.start.x == origin.x && r.end.y == pageHeight - origin.y
  {
    Rect(Point(origin.x, pageHeight - origin.y - size.height),
         Point(origin.x + size.width, pageHeight - origin.y))
  }

  /** A run without text, or with only whitespace. */
  predicate BlankRun(run: TextRun)
  {
    run.text.None? || Strings.IsBlank(run.text.value)
  }

  /** What one run contributes: nothing (blank, or in the header/footer band), one item,
      or the error the source raises (page size unknown, or 0/0 in the vertical norm). */
  function RunOutcome(run: TextRun, pageSize: Option<Size>, sqrt: real -> real): Result<Option<TextItem>>
  {
    if BlankRun(run) then Ok(None)
    else if pageSize.None? then Err(KeyError)
    else
      var (fontSize, bounds) := RunPlacement(run.text.value, run, pageSize.value.height, sqrt);
      var norm := bounds.VerticalNorm(pageSize.value.height);
      if norm.Err? then Err(norm.error)
      else if norm.value < 0.1 || norm.value > 0.9 then Ok(None)
      else Ok(Some(TextItem(run.text.value, fontSize, run.font, bounds)))
  }

  /** The effective font size of a run and its box on a page of the given height. */
  function RunPlacement(text: string, run: TextRun, pageHeight: real, sqrt: real -> real): (real, Rect)
  {
    var origin := ApplyMatrix(run.userMatrix, run.textMatrix.e, run.textMatrix.f);
    var fontSize := EffectiveFontSize(run.fontSize, run.userMatrix, sqrt);
    (fontSize, FromTopLeft(pageHeight, origin, TextSize(text, fontSize, run.font)))
  }

  /** Places a run step by step, estimating its width with the character loop. */
  method PlaceRun(text: string, run: TextRun, pageHeight: real, sqrt: real -> real)
    returns (fontSize: real, bounds: Rect)
    ensures (fontSize, bounds) == RunPlacement(text, run, pageHeight, sqrt)
  {
    var origin := ApplyMatrix(run.userMatrix, run.textMatrix.e, run.textMatrix.f);
    fontSize := EffectiveFontSize(run.fontSize, run.userMatrix, sqrt);
    var width := EstimateTextWidth(run.font, fontSize, text);
    var (ascent, descent) := AscentDescent(run.font);
    var size := Size(width, (ascent + descent) * fontSize);
    assert size == TextSize(text, fontSize, run.font);
    bounds := FromTopLeft(pageHeight, origin, size);
  }

  /** Blank runs and runs in the top or bottom tenth of the page are never kept; a kept
      item carries the run's text and font. */
  lemma KeptRunsAreInFlow(run: TextRun, pageSize: Option<Size>, sqrt: real -> real)
    requires RunOutcome(run, pageSize, sqrt).Ok? && RunOutcome(run, pageSize, sqrt).value.Some?
    ensures !BlankRun(run) && pageSize.Some?
    ensures var item := RunOutcome(run, pageSize, sqrt).value.value;
      && item.text == run.text.value && item.font == run.font
      && item.bounds.VerticalNorm(pageSize.value.height).Ok?
      && 0.1 <= item.bounds.VerticalNorm(pageSize.value.height).value <= 0.9
  {
  }

  /** On a page of positive height no run raises. */
  lemma RunOutcomeTotalOnPositivePages(run: TextRun, size: Size, sqrt: real -> real)
    requires size.height > 0.0
    ensures RunOutcome(run, Some(size), sqrt).Ok?
  {
    if !BlankRun(run) {
      VerticalNormInUnitInterval(RunPlacement(run.text.value, run, size.height, sqrt).1, size.height);
    }
  }

  /** The items a sequence of runs on one page contributes, in order. */
  function PageItems(runs: seq<TextRun>, size: Size, sqrt: real -> real): Result<seq<TextItem>>
  {
    if runs == [] then Ok([])
    else
      var init := PageItems(runs[..|runs| - 1], size, sqrt);
      var last := RunOutcome(runs[|runs| - 1], Some(size), sqrt);
      if init.Err? then init
      else if last.Err? then Err(last.error)
      else if last.value.Some? then Ok(init.value + [last.value.value])
      else init
  }

  /** Once a prefix of the runs fails, every longer prefix fails with the same error. */
  lemma {:induction false} PageItemsErrorPersists(runs: seq<TextRun>, j: nat, size: Size, sqrt: real -> real)
    requires j <= |runs| && PageItems(runs[..j], size, sqrt).Err?
    ensures PageItems(runs, size, sqrt) == PageItems(runs[..j], size, sqrt)
    decreases |runs| - j
  {
    if j < |runs| {
      assert runs[..j + 1][..j] == runs[..j];
      PageItemsErrorPersists(runs, j + 1, size, sqrt);
    } else {
      assert runs[..j] == runs;
    }
  }

  /** The only error a page can raise is the division in the vertical norm. */
  lemma {:induction false} PageItemsErrors(runs: seq<TextRun>, size: Size, sqrt: real -> real)
    ensures PageItems(runs, size, sqrt).Err? ==> PageItems(runs, size, sqrt).error == ZeroDivisionError
  {
    if runs != [] {
      PageItemsErrors(runs[..|runs| - 1], size, sqrt);
    }
  }

  function MediaBoxSize(mb: Matrix4): Size { Size(mb.x1, mb.y1) }

  function ItemsOf(items: map<int, seq<TextItem>>, page: int): seq<TextItem>
  {
    if page in items then items[page] else []
  }

  /** `PdfTextExtractor`: page sizes and the kept text items of each page. */
  class TextExtractor {
    const sqrt: real -> real
    var pageSizes: map<int, Size>
    var textItems: map<int, seq<TextItem>>

    constructor (sqrt: real -> real)
      ensures this.sqrt == sqrt && pageSizes == map[] && textItems == map[]
    {
      this.sqrt := sqrt;
      pageSizes := map[];
      textItems := map[];
    }

    function PageSizeOf(page: int): Option<Size>
      reads this
    {
      if page in pageSizes then Some(pageSizes[page]) else None
    }

    /** `__visit_text`: appends a kept run to the end of its own page's list; every
        other page, and the page sizes, are left unchanged. */
    method VisitText(page: int, run: TextRun) returns (err: Option<PyError>)
      modifies this
      ensures pageSizes == old(pageSizes)
      ensures var outcome := RunOutcome(run, old(PageSizeOf(page)), sqrt);
        && (err.Some? <==> outcome.Err?)
        && (err.Some? ==> err.value == outcome.error)
        && textItems == (if outcome.Ok? && outcome.value.Some?
                         then old(textItems)[page := ItemsOf(old(textItems), page) + [outcome.value.value]]
                         else old(textItems))
    {
      if run.text.None? || Strings.IsBlank(run.text.value) {
        return None;
      }
      if page !in pageSizes {
        return Some(KeyError);
      }
      var pageSize := pageSizes[page];
      var fontSize, bounds := PlaceRun(run.text.value, run, pageSize.height, sqrt);
      var norm := bounds.VerticalNorm(pageSize.height);
      if norm.Err? {
        return Some(norm.error);
      }
      if norm.value < 0.1 || norm.value > 0.9 {
        return None;
      }
      var item := TextItem(run.text.value, fontSize, run.font, bounds);
      textItems := textItems[page := ItemsOf(textItems, page) + [item]];
      return None;
    }

    /** One page's pass of the run visitor: the page's list ends up holding exactly its
        kept items in order, and no key is created for a page that keeps nothing. */
    method VisitPage(page: int, runs: seq<TextRun>) returns (err: Option<PyError>)
      requires page in pageSizes && page !in textItems
      modifies this
      ensures pageSizes == old(pageSizes)
      ensures var expected := PageItems(runs, pageSizes[page], sqrt);
        && (err.None? <==> expected.Ok?)
        && (err.Some? ==> err.value == expected.error)
        && (err.None? ==> textItems == if expected.value == [] then old(textItems)
                                       else old(textItems)[page := expected.value])
      ensures textItems == old(textItems) || (page in textItems && textItems == old(textItems)[page := textItems[page]])
    {
      var j := 0;
      while j < |runs|
        invariant 0 <= j <= |runs|
        invariant pageSizes == old(pageSizes)
        invariant PageItems(runs[..j], pageSizes[page], sqrt).Ok?
        invariant var items := PageItems(runs[..j], pageSizes[page], sqrt).value;
          textItems == if items == [] then old(textItems) else old(textItems)[page := items]
      {
        assert runs[..j + 1][..j] == runs[..j];
        err := VisitText(page, runs[j]);
        if err.Some? {
          PageItemsErrorPersists(runs, j + 1, pageSizes[page], sqrt);
          return;
        }
        j := j + 1;
      }
      assert runs[..|runs|] == runs;
      return None;
    }

    /** Page `p` has been visited without error: its list holds exactly its kept items. */
    predicate PageRead(items: map<int, seq<TextItem>>, pages: seq<PageSource>, p: int)
      requires 0 <= p < |pages|
    {
      && PageItems(pages[p].runs, MediaBoxSize(pages[p].mediaBox), sqrt).Ok?
      && ItemsOf(items, p) == PageItems(pages[p].runs, MediaBoxSize(pages[p].mediaBox), sqrt).value
    }

    /** `__call__`: clears both maps, then records each page's size from its media box
        and visits its runs. It succeeds exactly when every page's runs can be placed;
        only a zero-height page can make it raise, and then the pages before the failing
        one are fully read and no size after it is recorded. */
    method Extract(pages: seq<PageSource>) returns (err: Option<PyError>)
      modifies this
      ensures err.None? <==> forall p :: 0 <= p < |pages| ==>
        PageItems(pages[p].runs, MediaBoxSize(pages[p].mediaBox), sqrt).Ok?
      ensures err.None? ==>
        && (forall p :: p in pageSizes <==> 0 <= p < |pages|)
        && (forall p :: 0 <= p < |pages| ==> pageSizes[p] == MediaBoxSize(pages[p].mediaBox))
        && (forall p :: 0 <= p < |pages| ==> PageRead(textItems, pages, p))
        && (forall p :: p in textItems ==> 0 <= p < |pages| && textItems[p] != [])
      ensures err.Some? ==> err.value == ZeroDivisionError
      ensures err.Some? ==> exists k ::
        && 0 <= k < |pages|
        && PageItems(pages[k].runs, MediaBoxSize(pages[k].mediaBox), sqrt).Err?
        && (forall p :: p in pageSizes <==> 0 <= p <= k)
        && (forall p :: 0 <= p <= k ==> pageSizes[p] == MediaBoxSize(pages[p].mediaBox))
        && (forall p :: 0 <= p < k ==> PageRead(textItems, pages, p))
    {
      pageSizes := map[];
      textItems := map[];
      var i := 0;
      while i < |pages|
        invariant 0 <= i <= |pages|
        invariant forall p :: p in pageSizes <==> 0 <= p < i
        invariant forall p :: 0 <= p < i ==> pageSizes[p] == MediaBoxSize(pages[p].mediaBox)
        invariant forall p :: 0 <= p < i ==> PageRead(textItems, pages, p)
        invariant forall p :: p in textItems ==> 0 <= p < i && textItems[p] != []
      {
        pageSizes := pageSizes[i := MediaBoxSize(pages[i].mediaBox)];
        ghost var before := textItems;
        err := VisitPage(i, pages[i].runs);
        forall p | 0 <= p < i
          ensures PageRead(textItems, pages, p)
        {
          assert PageRead(before, pages, p);
          assert ItemsOf(textItems, p) == ItemsOf(before, p);
        }
        if err.Some? {
          PageItemsErrors(pages[i].runs, MediaBoxSize(pages[i].mediaBox), sqrt);
          assert PageItems(pages[i].runs, MediaBoxSize(pages[i].mediaBox), sqrt).Err?
            && (forall p :: p in pageSizes <==> 0 <= p <= i)
            && (forall p :: 0 <= p <= i ==> pageSizes[p] == MediaBoxSize(pages[p].mediaBox));
          return;
        }
        assert ItemsOf(before, i) == [];
        i := i + 1;
      }
      forall p | 0 <= p < |pages|
        ensures PageItems(pages[p].runs, MediaBoxSize(pages[p].mediaBox), sqrt).Ok?
      {
        assert PageRead(textItems, pages, p);
      }
      return None;
    }
  }
}
