/** The line-based PDF text extractor: lines read from the pages are grouped by page,
    marked out of flow when they sit above or below the bulk of their page's lines,
    cleared of repeated running headers and page numbers, kept when they read like
    prose or like a section header, sorted into reading order and joined.
    Reading the PDF is not part of this model: the lines are the input. Python's
    float arithmetic is taken over exact reals. */
module LineHeuristics {
  import opened Strings
  import Seqs
  import Geometry

  /** One line of a page, as the reader reports it: `x_norm`/`y_norm` are the line's
      centre relative to the page width and height, `norm` the reader's normalised text,
      compared only for equality here. */
  datatype Line = Line(page: int, text: string, norm: string, xNorm: real, yNorm: real,
                       blockNo: int, lineNo: int, fontSize: real, isBold: bool)

  /** A line with its `out_of_flow` mark. */
  datatype MarkedLine = MarkedLine(line: Line, outOfFlow: bool)

  function YNorms(lines: seq<Line>): (ys: seq<real>)
    ensures |ys| == |lines| && forall k :: 0 <= k < |lines| ==> ys[k] == lines[k].yNorm
  {
    seq(|lines|, k requires 0 <= k < |lines| => lines[k].yNorm)
  }

  /** `_compute_flow_bounds`: the y values found a tenth and nine tenths of the way
      through the page's sorted y values, or the whole page when it has no lines.
      (`int(n * 0.1)` and `int(n * 0.9)` are `n / 10` and `9 * n / 10` here.) */
  function FlowBounds(lines: seq<Line>): (r: (real, real))
    ensures lines == [] ==> r == (0.0, 1.0)
    ensures lines != [] ==> r.0 <= r.1 && r.0 in YNorms(lines) && r.1 in YNorms(lines)
    ensures lines != [] ==> Seqs.IsOrderStatistic(YNorms(lines), |lines| / 10, r.0)
    ensures lines != [] ==> Seqs.IsOrderStatistic(YNorms(lines), 9 * |lines| / 10, r.1)
  {
    var ys := Seqs.SortReals(YNorms(lines));
    if ys == [] then (0.0, 1.0)
    else
      var n := |ys|;
      assert ys[n / 10] in multiset(ys) && ys[9 * n / 10] in multiset(ys);
      Seqs.SortRealsOrderStatistic(YNorms(lines), n / 10);
      Seqs.SortRealsOrderStatistic(YNorms(lines), 9 * n / 10);
      (ys[n / 10], ys[9 * n / 10])
  }

  /** The number of ASCII letters in `s`. */
  function CountAlpha(s: string): (r: nat)
    ensures r <= |s|
  {
    if s == [] then 0 else CountAlpha(s[..|s| - 1]) + (if IsAlpha(s[|s| - 1]) then 1 else 0)
  }

  /** The number of ASCII digits in `s`. */
  function CountDigits(s: string): (r: nat)
    ensures r <= |s|
  {
    if s == [] then 0 else CountDigits(s[..|s| - 1]) + (if IsDigit(s[|s| - 1]) then 1 else 0)
  }

  /** `a / n >= 0.5` in integers. */
  lemma HalfRatio(a: nat, n: nat)
    requires n > 0
    ensures (a as real) / (n as real) >= 0.5 <==> 2 * a >= n
  {
    var q := (a as real) / (n as real);
    assert q * (n as real) == a as real;
  }

  /** `a / n < 0.2` in integers. */
  lemma FifthRatio(a: nat, n: nat)
    requires n > 0
    ensures (a as real) / (n as real) < 0.2 <==> 5 * a < n
  {
    var q := (a as real) / (n as real);
    var nr := n as real;
    assert q * nr == a as real;
    ScalingKeepsOrder(q, 0.2, nr);
    assert 0.2 * nr * 5.0 == nr;
  }

  lemma ScalingKeepsOrder(x: real, y: real, k: real)
    requires k > 0.0
    ensures x < y <==> x * k < y * k
  {
    if x < y {
      assert (y - x) * k > 0.0;
    } else {
      assert (x - y) * k >= 0.0;
    }
  }

  /** `_is_prose_line`: at least 20 characters, at least half of them letters and
      under a fifth of them digits. */
  function IsProseLine(text: string): (r: bool)
    ensures r <==> |text| >= 20 && 2 * CountAlpha(text) >= |text| && 5 * CountDigits(text) < |text|
  {
    if |text| == 0 then false
    else if |text| < 20 then false
    else
      HalfRatio(CountAlpha(text), |text|);
      FifthRatio(CountDigits(text), |text|);
      (CountAlpha(text) as real) / (|text| as real) >= 0.5
      && (CountDigits(text) as real) / (|text| as real) < 0.2
  }

  /** `_is_section_header`: a non-blank line of at most 120 characters once stripped,
      at least half letters, set at least 1.3 times the median font size, or in bold
      at least at the median size. */
  function IsSectionHeader(line: Line, medianFontSize: real): (r: bool)
    ensures var t := Strip(line.text);
      r <==> 0 < |t| <= 120 && 2 * CountAlpha(t) >= |t|
             && (line.fontSize >= medianFontSize * 1.3 || (line.isBold && line.fontSize >= medianFontSize))
  {
    var t := Strip(line.text);
    if t == [] then false
    else if |t| > 120 then false
    else
      HalfRatio(CountAlpha(t), |t|);
      if (CountAlpha(t) as real) / (|t| as real) < 0.5 then false
      else line.fontSize >= medianFontSize * 1.3 || (line.isBold && line.fontSize >= medianFontSize)
  }

  /** The repeated-line signature: the line's position in bins of 2% of the page
      height and 5% of the page width, and its normalised text. */
  datatype Signature = Signature(yBin: int, xBin: int, norm: string)

  function SignatureOf(l: Line): Signature
  {
    Signature(Geometry.RoundHalfEven(l.yNorm / 0.02), Geometry.RoundHalfEven(l.xNorm / 0.05), l.norm)
  }

  /** The pages on which an out-of-flow line with signature `sig` occurs. */
  function PagesWith(ms: seq<MarkedLine>, sig: Signature): set<int>
  {
    if ms == [] then {}
    else
      var last := ms[|ms| - 1];
      PagesWith(ms[..|ms| - 1], sig)
      + (if last.outOfFlow && SignatureOf(last.line) == sig then {last.line.page} else {})
  }

  lemma {:induction false} PagesWithMembers(ms: seq<MarkedLine>, sig: Signature, page: int)
    ensures page in PagesWith(ms, sig) <==>
      exists k :: 0 <= k < |ms| && ms[k].outOfFlow && SignatureOf(ms[k].line) == sig && ms[k].line.page == page
  {
    if ms != [] {
      PagesWithMembers(ms[..|ms| - 1], sig, page);
      assert forall k :: 0 <= k < |ms| - 1 ==> ms[..|ms| - 1][k] == ms[k];
    }
  }

  /** `max(3, ceil(page_count * 0.3))`. */
  function RepetitionThreshold(pageCount: nat): (r: int)
    ensures r >= 3 && 10 * r >= 3 * pageCount
    ensures r == 3 || 10 * (r - 1) < 3 * pageCount
  {
    var c := (3 * pageCount + 9) / 10;
    if c > 3 then c else 3
  }

  /** A page number: at most four characters, all digits (the filter drops it only when
      it is also out of flow). */
  predicate IsPageNumber(l: Line)
  {
    |l.text| <= 4 && IsDigits(l.text)
  }

  /** A line the filter drops: out of flow, and either repeated on enough pages or a
      page number. */
  predicate Dropped(ms: seq<MarkedLine>, pageCount: nat, m: MarkedLine)
  {
    m.outOfFlow
    && (|PagesWith(ms, SignatureOf(m.line))| >= RepetitionThreshold(pageCount) || IsPageNumber(m.line))
  }

  function KeepFilter(ms: seq<MarkedLine>, pageCount: nat): MarkedLine -> bool
  {
    (m: MarkedLine) => !Dropped(ms, pageCount, m)
  }

  function KeptLines(ms: seq<MarkedLine>, pageCount: nat): seq<MarkedLine>
  {
    Seqs.Filter(ms, KeepFilter(ms, pageCount))
  }

  /** The filter keeps every in-flow line, keeps the input order, and drops exactly
      the out-of-flow lines repeated on enough pages and the page numbers. */
  lemma KeptLinesProperties(ms: seq<MarkedLine>, pageCount: nat)
    ensures Seqs.IsSubseq(KeptLines(ms, pageCount), ms)
    ensures forall k :: 0 <= k < |ms| && !ms[k].outOfFlow ==> ms[k] in KeptLines(ms, pageCount)
    ensures forall m :: m in KeptLines(ms, pageCount) <==> m in ms && !Dropped(ms, pageCount, m)
  {
    Seqs.FilterIsSubseq(ms, KeepFilter(ms, pageCount));
  }

  /** `_filter_out_of_flow_elements`: collects the pages of each out-of-flow signature,
      then keeps the lines that are neither repeated headers nor page numbers. */
  method FilterOutOfFlowElements(ms: seq<MarkedLine>, pageCount: nat) returns (kept: seq<MarkedLine>)
    ensures kept == KeptLines(ms, pageCount)
  {
    var sigPages := SignaturePages(ms);
    var threshold := RepetitionThreshold(pageCount);
    var repetitive := set sig | sig in sigPages && |sigPages[sig]| >= threshold;
    kept := [];
    var i := 0;
    while i < |ms|
      invariant 0 <= i <= |ms|
      invariant kept == Seqs.Filter(ms[..i], KeepFilter(ms, pageCount))
    {
      Seqs.FilterAppend(ms[..i], ms[i], KeepFilter(ms, pageCount));
      assert ms[..i + 1] == ms[..i] + [ms[i]];
      var sig := SignatureOf(ms[i].line);
      assert sig in repetitive <==> |PagesWith(ms, sig)| >= threshold;
      if ms[i].outOfFlow && sig in repetitive {
      } else if ms[i].outOfFlow && |ms[i].line.text| <= 4 && IsDigits(ms[i].line.text) {
      } else {
        kept := kept + [ms[i]];
      }
      i := i + 1;
    }
    assert ms[..i] == ms;
  }

  /** The first loop of `_filter_out_of_flow_elements`: the pages of each signature of
      an out-of-flow line. */
  method SignaturePages(ms: seq<MarkedLine>) returns (sigPages: map<Signature, set<int>>)
    ensures forall sig :: sig in sigPages ==> sigPages[sig] == PagesWith(ms, sig)
    ensures forall sig :: sig !in sigPages ==> PagesWith(ms, sig) == {}
  {
    sigPages := map[];
    var i := 0;
    while i < |ms|
      invariant 0 <= i <= |ms|
      invariant forall sig :: sig in sigPages ==> sigPages[sig] == PagesWith(ms[..i], sig)
      invariant forall sig :: sig !in sigPages ==> PagesWith(ms[..i], sig) == {}
    {
      assert ms[..i + 1][..i] == ms[..i];
      if ms[i].outOfFlow {
        var sig := SignatureOf(ms[i].line);
        var pages := if sig in sigPages then sigPages[sig] else {};
        sigPages := sigPages[sig := pages + {ms[i].line.page}];
      }
      i := i + 1;
    }
    assert ms[..i] == ms;
  }

  /** The lines of page `p`, in their original order. */
  function PageLines(lines: seq<Line>, p: int): seq<Line>
  {
    Seqs.Filter(lines, (l: Line) => l.page == p)
  }

  function PagesOf(lines: seq<Line>): (ps: seq<int>)
    ensures |ps| == |lines| && forall k :: 0 <= k < |lines| ==> ps[k] == lines[k].page
  {
    seq(|lines|, k requires 0 <= k < |lines| => lines[k].page)
  }

  /** The pages in the order they first appear, as a dict keyed by page keeps them. */
  function PageOrder(lines: seq<Line>): seq<int>
  {
    Seqs.Dedup(PagesOf(lines))
  }

  /** A line is out of flow exactly when it lies strictly above or below its page's bounds. */
  function Mark(l: Line, bounds: (real, real)): (m: MarkedLine)
    ensures m.line == l
    ensures m.outOfFlow <==> l.yNorm < bounds.0 || l.yNorm > bounds.1
  {
    MarkedLine(l, l.yNorm < bounds.0 || l.yNorm > bounds.1)
  }

  function MarkAll(lines: seq<Line>, bounds: (real, real)): (ms: seq<MarkedLine>)
    ensures |ms| == |lines| && forall k :: 0 <= k < |lines| ==> ms[k] == Mark(lines[k], bounds)
  {
    seq(|lines|, k requires 0 <= k < |lines| => Mark(lines[k], bounds))
  }

  /** The lines of the pages `ps`, page after page, each marked against its own page's
      flow bounds. */
  function MarkedPages(lines: seq<Line>, ps: seq<int>): seq<MarkedLine>
  {
    if ps == [] then []
    else
      var page := PageLines(lines, ps[|ps| - 1]);
      MarkedPages(lines, ps[..|ps| - 1]) + MarkAll(page, FlowBounds(page))
  }

  /** Every marked line is a line of the input, on one of the pages `ps`, and is out of
      flow exactly when it lies outside the flow bounds of its own page. */
  lemma {:induction false} MarkedPagesMembers(lines: seq<Line>, ps: seq<int>, m: MarkedLine)
    requires m in MarkedPages(lines, ps)
    ensures m.line in lines && m.line.page in ps
    ensures var bounds := FlowBounds(PageLines(lines, m.line.page));
      m.outOfFlow <==> m.line.yNorm < bounds.0 || m.line.yNorm > bounds.1
  {
    var init := MarkedPages(lines, ps[..|ps| - 1]);
    var page := PageLines(lines, ps[|ps| - 1]);
    if m in init {
      MarkedPagesMembers(lines, ps[..|ps| - 1], m);
    } else {
      var k :| 0 <= k < |page| && MarkAll(page, FlowBounds(page))[k] == m;
      assert page[k] in page;
    }
  }

  /** The line sizes that are set (non-zero), in order. */
  function FontSizes(ms: seq<MarkedLine>): (r: seq<real>)
    ensures forall k :: 0 <= k < |r| ==> r[k] != 0.0
  {
    if ms == [] then []
    else
      var last := ms[|ms| - 1].line.fontSize;
      FontSizes(ms[..|ms| - 1]) + (if last != 0.0 then [last] else [])
  }

  /** The element at `len // 2` of the sorted non-zero font sizes, or 0 if there are none. */
  function MedianFont(ms: seq<MarkedLine>): (r: real)
    ensures r == 0.0 <==> FontSizes(ms) == []
    ensures FontSizes(ms) != [] ==> r in FontSizes(ms)
    ensures FontSizes(ms) != [] ==> Seqs.IsOrderStatistic(FontSizes(ms), |FontSizes(ms)| / 2, r)
  {
    var sizes := Seqs.SortReals(FontSizes(ms));
    if sizes == [] then 0.0
    else
      assert sizes[|sizes| / 2] in multiset(FontSizes(ms));
      Seqs.SortRealsOrderStatistic(FontSizes(ms), |sizes| / 2);
      sizes[|sizes| / 2]
  }

  /** A line that reaches the output: prose, or a section header against the median size. */
  predicate IsChosen(m: MarkedLine, median: real)
  {
    IsProseLine(m.line.text) || IsSectionHeader(m.line, median)
  }

  function Selected(median: real): MarkedLine -> bool
  {
    (m: MarkedLine) => IsChosen(m, median)
  }

  /** The reading-order key `(page, block_no, line_no, x_norm, y_norm)`, compared
      lexicographically. */
  predicate KeyLe(a: Line, b: Line)
  {
    a.page < b.page || (a.page == b.page &&
    (a.blockNo < b.blockNo || (a.blockNo == b.blockNo &&
    (a.lineNo < b.lineNo || (a.lineNo == b.lineNo &&
    (a.xNorm < b.xNorm || (a.xNorm == b.xNorm && a.yNorm <= b.yNorm)))))))
  }

  lemma KeyLeTotalPreorder(a: Line, b: Line, c: Line)
    ensures KeyLe(a, a)
    ensures KeyLe(a, b) || KeyLe(b, a)
    ensures KeyLe(a, b) && KeyLe(b, c) ==> KeyLe(a, c)
  {
  }

  predicate SortedByKey(ms: seq<MarkedLine>)
  {
    forall i, j :: 0 <= i < j < |ms| ==> KeyLe(ms[i].line, ms[j].line)
  }

  /** Inserts `m` after the last element whose key does not exceed its own. */
  function InsertByKey(s: seq<MarkedLine>, m: MarkedLine): (r: seq<MarkedLine>)
    requires SortedByKey(s)
    ensures SortedByKey(r)
    ensures multiset(r) == multiset(s) + multiset{m}
  {
    if s == [] then [m]
    else
      var last := s[|s| - 1];
      if KeyLe(last.line, m.line) then
        assert forall i :: 0 <= i < |s| ==> KeyLe(s[i].line, m.line) by {
          forall i | 0 <= i < |s|
            ensures KeyLe(s[i].line, m.line)
          {
            KeyLeTotalPreorder(s[i].line, last.line, m.line);
          }
        }
        s + [m]
      else
        KeyLeTotalPreorder(last.line, m.line, m.line);
        var t := InsertByKey(s[..|s| - 1], m);
        assert s == s[..|s| - 1] + [last];
        BelowLast(s, m, t);
        t + [last]
  }

  /** Everything inserted below the last element of a sorted sequence stays below it. */
  lemma BelowLast(s: seq<MarkedLine>, m: MarkedLine, t: seq<MarkedLine>)
    requires s != [] && SortedByKey(s) && KeyLe(m.line, s[|s| - 1].line)
    requires multiset(t) == multiset(s[..|s| - 1]) + multiset{m}
    ensures forall k :: 0 <= k < |t| ==> KeyLe(t[k].line, s[|s| - 1].line)
  {
    var init, last := s[..|s| - 1], s[|s| - 1];
    forall k | 0 <= k < |t|
      ensures KeyLe(t[k].line, last.line)
    {
      assert t[k] in multiset(t);
      if t[k] != m {
        assert t[k] in multiset(init);
        var i :| 0 <= i < |init| && init[i] == t[k];
        assert s[i] == t[k];
      }
    }
  }

  /** `list.sort(key=_sort_key)`: in key order and a permutation of the input. */
  function SortByKey(s: seq<MarkedLine>): (r: seq<MarkedLine>)
    ensures SortedByKey(r)
    ensures multiset(r) == multiset(s)
    ensures |r| == |s|
  {
    if s == [] then []
    else
      assert s == s[..|s| - 1] + [s[|s| - 1]];
      var r := InsertByKey(SortByKey(s[..|s| - 1]), s[|s| - 1]);
      assert |multiset(r)| == |multiset(s)|;
      r
  }

  /** The lines whose key equals the key of `x`. */
  function SameKey(x: Line): MarkedLine -> bool
  {
    (m: MarkedLine) => KeyLe(m.line, x) && KeyLe(x, m.line)
  }

  /** Insertion puts `m` after every line with its key, so the lines of one key keep
      their order and `m` joins its own key last. */
  lemma {:induction false} InsertByKeyStable(s: seq<MarkedLine>, m: MarkedLine, x: Line)
    requires SortedByKey(s)
    ensures Seqs.Filter(InsertByKey(s, m), SameKey(x)) ==
      Seqs.Filter(s, SameKey(x)) + (if SameKey(x)(m) then [m] else [])
  {
    if s != [] {
      var init, last := s[..|s| - 1], s[|s| - 1];
      var p := SameKey(x);
      InsertByKeyUnfold(s, m);
      if KeyLe(last.line, m.line) {
        assert InsertByKey(s, m) == s + [m];
        Seqs.FilterAppend(s, m, p);
        assert Seqs.Filter(InsertByKey(s, m), p) == Seqs.Filter(s, p) + (if p(m) then [m] else []);
      } else {
        assert s == init + [last];
        var t := InsertByKey(init, m);
        assert InsertByKey(s, m) == t + [last];
        Seqs.FilterAppend(init, last, p);
        InsertByKeyStable(init, m, x);
        Seqs.FilterAppend(t, last, p);
        NotBothSameKey(last, m, x);
        var fi, em, el := Seqs.Filter(init, p), (if p(m) then [m] else []), (if p(last) then [last] else []);
        assert Seqs.Filter(s, p) == fi + el;
        assert Seqs.Filter(InsertByKey(s, m), p) == fi + em + el;
        assert em == [] || el == [];
        SwapWithEmpty(fi, em, el);
        assert Seqs.Filter(InsertByKey(s, m), p) == Seqs.Filter(s, p) + em;
      }
    }
  }

  lemma SwapWithEmpty<T>(a: seq<T>, b: seq<T>, c: seq<T>)
    requires b == [] || c == []
    ensures a + b + c == a + c + b
  {
    if b == [] { assert a + b == a; } else { assert a + c == a; }
  }

  /** A line whose key exceeds that of `m` does not share a key with it. */
  lemma NotBothSameKey(last: MarkedLine, m: MarkedLine, x: Line)
    requires !KeyLe(last.line, m.line)
    ensures !(SameKey(x)(m) && SameKey(x)(last))
  {
    if SameKey(x)(m) && SameKey(x)(last) {
      KeyLeTotalPreorder(last.line, x, m.line);
    }
  }

  /** One step of `InsertByKey` on a non-empty sequence. */
  lemma InsertByKeyUnfold(s: seq<MarkedLine>, m: MarkedLine)
    requires s != [] && SortedByKey(s)
    ensures SortedByKey(s[..|s| - 1])
    ensures InsertByKey(s, m) ==
      if KeyLe(s[|s| - 1].line, m.line) then s + [m]
      else InsertByKey(s[..|s| - 1], m) + [s[|s| - 1]]
  {
  }

  /** `list.sort` is stable: the lines of one key leave the sort in their input order. */
  lemma {:induction false} SortByKeyStable(s: seq<MarkedLine>, x: Line)
    ensures Seqs.Filter(SortByKey(s), SameKey(x)) == Seqs.Filter(s, SameKey(x))
  {
    if s != [] {
      var init, last := s[..|s| - 1], s[|s| - 1];
      assert s == init + [last];
      SortByKeyStable(init, x);
      InsertByKeyStable(SortByKey(init), last, x);
      Seqs.FilterAppend(init, last, SameKey(x));
    }
  }

  function Texts(ms: seq<MarkedLine>): (ts: seq<string>)
    ensures |ts| == |ms| && forall k :: 0 <= k < |ms| ==> ts[k] == ms[k].line.text
  {
    seq(|ms|, k requires 0 <= k < |ms| => ms[k].line.text)
  }

  /** All lines, grouped page by page in first-appearance order and marked. */
  function MarkedLines(lines: seq<Line>): seq<MarkedLine>
  {
    MarkedPages(lines, PageOrder(lines))
  }

  /** What `extract_pdf_text` returns for the lines read from a document of
      `pageCount` pages. */
  function ExtractedText(lines: seq<Line>, pageCount: nat): string
  {
    var marked := MarkedLines(lines);
    var kept := KeptLines(marked, pageCount);
    var chosen := Seqs.Filter(kept, Selected(MedianFont(kept)));
    Join("\n", Texts(SortByKey(chosen)))
  }

  /** The lines that reach the output: in reading order, each kept by the filter and
      either prose or a section header. */
  function OutputLines(lines: seq<Line>, pageCount: nat): (r: seq<MarkedLine>)
    ensures SortedByKey(r)
    ensures forall m :: m in r ==>
      && m in MarkedLines(lines)
      && !Dropped(MarkedLines(lines), pageCount, m)
      && IsChosen(m, MedianFont(KeptLines(MarkedLines(lines), pageCount)))
    ensures ExtractedText(lines, pageCount) == Join("\n", Texts(r))
  {
    var marked := MarkedLines(lines);
    var kept := KeptLines(marked, pageCount);
    KeptLinesProperties(marked, pageCount);
    SortedChoiceMembers(kept, MedianFont(kept));
    SortByKey(Seqs.Filter(kept, Selected(MedianFont(kept))))
  }

  lemma SortedChoiceMembers(kept: seq<MarkedLine>, median: real)
    ensures forall m :: m in SortByKey(Seqs.Filter(kept, Selected(median))) ==> m in kept && IsChosen(m, median)
  {
    var chosen := Seqs.Filter(kept, Selected(median));
    assert forall m :: m in SortByKey(chosen) ==> m in multiset(chosen);
  }

  /** The grouping step of `extract_pdf_text`: a dict from page to its lines, and the
      pages in the order the dict received them. */
  method GroupByPage(lines: seq<Line>) returns (byPage: map<int, seq<Line>>, order: seq<int>)
    ensures order == PageOrder(lines)
    ensures forall p :: p in byPage <==> p in order
    ensures forall p :: p in byPage ==> byPage[p] == PageLines(lines, p)
  {
    byPage := map[];
    order := [];
    var i := 0;
    while i < |lines|
      invariant 0 <= i <= |lines|
      invariant order == PageOrder(lines[..i])
      invariant forall p :: p in byPage <==> p in order
      invariant forall p :: p in byPage ==> byPage[p] == PageLines(lines[..i], p)
    {
      var l := lines[i];
      GroupedStep(lines, i, byPage, order);
      if l.page !in byPage {
        order := order + [l.page];
        byPage := byPage[l.page := [l]];
      } else {
        byPage := byPage[l.page := byPage[l.page] + [l]];
      }
      i := i + 1;
    }
    assert lines[..i] == lines;
  }

  /** Marks the lines of one page against the page's flow bounds, line by line. */
  method MarkPage(page: seq<Line>) returns (marked: seq<MarkedLine>)
    ensures marked == MarkAll(page, FlowBounds(page))
  {
    var bounds := FlowBounds(page);
    marked := [];
    var k := 0;
    while k < |page|
      invariant 0 <= k <= |page|
      invariant marked == MarkAll(page[..k], bounds)
    {
      MarkAllSnoc(page, k, bounds);
      marked := marked + [Mark(page[k], bounds)];
      k := k + 1;
    }
    assert page[..k] == page;
  }

  /** The marking step of `extract_pdf_text`: the lines of each page in `order`, marked
      against that page's flow bounds. */
  method MarkByPage(lines: seq<Line>, byPage: map<int, seq<Line>>, order: seq<int>) returns (marked: seq<MarkedLine>)
    requires forall k :: 0 <= k < |order| ==> order[k] in byPage && byPage[order[k]] == PageLines(lines, order[k])
    ensures marked == MarkedPages(lines, order)
  {
    marked := [];
    var j := 0;
    while j < |order|
      invariant 0 <= j <= |order|
      invariant marked == MarkedPages(lines, order[..j])
    {
      var onPage := MarkPage(byPage[order[j]]);
      MarkedPagesStep(lines, order, j);
      marked := marked + onPage;
      j := j + 1;
    }
    assert order[..j] == order;
  }

  /** `extract_pdf_text` after the document has been read: groups the lines by page in
      first-appearance order, marks each page's lines against its flow bounds, filters
      them, keeps prose and headers, sorts them into reading order and joins them. */
  method ExtractPdfText(lines: seq<Line>, pageCount: nat) returns (text: string)
    ensures text == ExtractedText(lines, pageCount)
  {
    var byPage, order := GroupByPage(lines);
    assert forall k :: 0 <= k < |order| ==> order[k] in order;
    var marked := MarkByPage(lines, byPage, order);
    var kept := FilterOutOfFlowElements(marked, pageCount);
    var median := MedianFont(kept);
    var chosen := Seqs.Filter(kept, Selected(median));
    var sorted := SortByKey(chosen);
    text := Join("\n", Texts(sorted));
  }

  /** One more line: its page joins the page order when it is new, and the line joins
      its page's lines; no other page changes. */
  lemma GroupStep(lines: seq<Line>, i: nat)
    requires i < |lines|
    ensures var l := lines[i];
      PageOrder(lines[..i + 1]) ==
        PageOrder(lines[..i]) + (if l.page in PageOrder(lines[..i]) then [] else [l.page])
    ensures var l := lines[i];
      l.page !in PageOrder(lines[..i]) ==> PageLines(lines[..i], l.page) == []
    ensures forall p :: PageLines(lines[..i + 1], p) ==
                        PageLines(lines[..i], p) + (if lines[i].page == p then [lines[i]] else [])
  {
    var l := lines[i];
    assert lines[..i + 1] == lines[..i] + [l];
    assert PagesOf(lines[..i + 1]) == PagesOf(lines[..i]) + [l.page];
    Seqs.DedupSnoc(PagesOf(lines[..i]), l.page);
    forall p
      ensures PageLines(lines[..i + 1], p) == PageLines(lines[..i], p) + (if l.page == p then [l] else [])
    {
      Seqs.FilterAppend(lines[..i], l, (x: Line) => x.page == p);
    }
    PageLinesNonEmpty(lines[..i], l.page);
  }

  /** The dict and the page order after one more line. */
  lemma GroupedStep(lines: seq<Line>, i: nat, byPage: map<int, seq<Line>>, order: seq<int>)
    requires i < |lines| && order == PageOrder(lines[..i])
    requires forall p :: p in byPage <==> p in order
    requires forall p :: p in byPage ==> byPage[p] == PageLines(lines[..i], p)
    ensures var l := lines[i];
      var byPage' := if l.page !in byPage then byPage[l.page := [l]] else byPage[l.page := byPage[l.page] + [l]];
      var order' := if l.page !in byPage then order + [l.page] else order;
      && order' == PageOrder(lines[..i + 1])
      && (forall p :: p in byPage' <==> p in order')
      && (forall p :: p in byPage' ==> byPage'[p] == PageLines(lines[..i + 1], p))
  {
    if lines[i].page !in byPage {
      NewPageStep(lines, i, byPage, order);
    } else {
      KnownPageStep(lines, i, byPage, order);
    }
  }

  lemma NewPageStep(lines: seq<Line>, i: nat, byPage: map<int, seq<Line>>, order: seq<int>)
    requires i < |lines| && order == PageOrder(lines[..i])
    requires forall p :: p in byPage <==> p in order
    requires forall p :: p in byPage ==> byPage[p] == PageLines(lines[..i], p)
    requires lines[i].page !in byPage
    ensures var l := lines[i];
      var byPage' := byPage[l.page := [l]];
      && order + [l.page] == PageOrder(lines[..i + 1])
      && (forall p :: p in byPage' <==> p in order + [l.page])
      && (forall p :: p in byPage' ==> byPage'[p] == PageLines(lines[..i + 1], p))
  {
    GroupStep(lines, i);
  }

  lemma KnownPageStep(lines: seq<Line>, i: nat, byPage: map<int, seq<Line>>, order: seq<int>)
    requires i < |lines| && order == PageOrder(lines[..i])
    requires forall p :: p in byPage <==> p in order
    requires forall p :: p in byPage ==> byPage[p] == PageLines(lines[..i], p)
    requires lines[i].page in byPage
    ensures var l := lines[i];
      var byPage' := byPage[l.page := byPage[l.page] + [l]];
      && order == PageOrder(lines[..i + 1])
      && (forall p :: p in byPage' <==> p in order)
      && (forall p :: p in byPage' ==> byPage'[p] == PageLines(lines[..i + 1], p))
  {
    GroupStep(lines, i);
  }

  lemma MarkedPagesStep(lines: seq<Line>, ps: seq<int>, j: nat)
    requires j < |ps|
    ensures var page := PageLines(lines, ps[j]);
      MarkedPages(lines, ps[..j + 1]) == MarkedPages(lines, ps[..j]) + MarkAll(page, FlowBounds(page))
  {
    assert ps[..j + 1][..j] == ps[..j];
  }

  lemma MarkAllSnoc(page: seq<Line>, k: nat, bounds: (real, real))
    requires k < |page|
    ensures MarkAll(page[..k + 1], bounds) == MarkAll(page[..k], bounds) + [Mark(page[k], bounds)]
  {
  }

  lemma PageLinesNonEmpty(lines: seq<Line>, p: int)
    ensures PageLines(lines, p) != [] ==> p in PageOrder(lines)
  {
    if PageLines(lines, p) != [] {
      var l := PageLines(lines, p)[0];
      assert l in PageLines(lines, p);
      var k :| 0 <= k < |lines| && lines[k] == l;
      assert PagesOf(lines)[k] == p;
    }
  }
}
