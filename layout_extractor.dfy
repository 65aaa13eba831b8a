/** The PDF layout extractor: per rendered page it keeps the detected Text, List and
    Title regions as layout boxes and merges overlapping boxes with a greedy queue scan.
    The overlap ratio, the union of two layout boxes, `ensure_type` and the scaling of a
    layout box are operations of the layout types whose definitions are not part of
    this model: they are passed in as `LayoutOps` and no property of them is relied on. */
module LayoutExtraction {
  import opened Geometry
  import Seqs

  /** A region of a page with the layout types assigned to it. */
  datatype LayoutBox = LayoutBox(types: seq<string>, bounds: Rect)

  datatype LayoutOps = LayoutOps(
    overlapRatio: (Rect, Rect) -> real,
    union: (LayoutBox, LayoutBox) -> LayoutBox,
    ensureType: (LayoutBox, string) -> LayoutBox,
    scale: (LayoutBox, real, real) -> LayoutBox)

  /** A region reported by the layout model: its label and corner coordinates. */
  datatype Detection = Detection(kind: string, x0: real, y0: real, x1: real, y1: real)

  /** A rendered page: the image size in pixels and what the model detected on it. */
  datatype RenderedPage = RenderedPage(width: real, height: real, detections: seq<Detection>)

  /** The merge threshold the extractor uses unless told otherwise. */
  const DefaultMinMergeOverlapRatio: real := 0.5

  const SupportedKinds: set<string> := {"Text", "List", "Title"}

  predicate IsSupported(d: Detection)
  {
    d.kind in SupportedKinds
  }

  function ToLayoutBox(d: Detection, ops: LayoutOps): LayoutBox
  {
    ops.ensureType(LayoutBox([], Rect(Point(d.x0, d.y0), Point(d.x1, d.y1))), d.kind)
  }

  /** The supported detections, in order, as layout boxes. */
  function SupportedBoxes(ds: seq<Detection>, ops: LayoutOps): (r: seq<LayoutBox>)
    ensures |r| <= |ds|
  {
    if ds == [] then []
    else (if IsSupported(ds[0]) then [ToLayoutBox(ds[0], ops)] else []) + SupportedBoxes(ds[1..], ops)
  }

  /** Only supported detections become boxes: with none, the page has no boxes. */
  lemma {:induction false} UnsupportedDetectionsDropped(ds: seq<Detection>, ops: LayoutOps)
    ensures (forall k :: 0 <= k < |ds| ==> !IsSupported(ds[k])) ==> SupportedBoxes(ds, ops) == []
    ensures |SupportedBoxes(ds, ops)| == |Seqs.Filter(ds, IsSupported)|
  {
    if ds != [] {
      UnsupportedDetectionsDropped(ds[1..], ops);
    }
  }

  /** The boxes are the supported detections, filtered in order, each turned into a box. */
  lemma {:induction false} SupportedBoxesAreFiltered(ds: seq<Detection>, ops: LayoutOps)
    ensures |SupportedBoxes(ds, ops)| == |Seqs.Filter(ds, IsSupported)|
    ensures forall k :: 0 <= k < |SupportedBoxes(ds, ops)| ==>
      SupportedBoxes(ds, ops)[k] == ToLayoutBox(Seqs.Filter(ds, IsSupported)[k], ops)
  {
    if ds != [] {
      SupportedBoxesAreFiltered(ds[1..], ops);
    }
  }

  predicate Overlaps(ops: LayoutOps, minRatio: real, current: LayoutBox, candidate: LayoutBox)
  {
    ops.overlapRatio(current.bounds, candidate.bounds) >= minRatio
  }

  /** Unions the boxes of `xs` into `current`, in order. */
  function FoldUnion(ops: LayoutOps, current: LayoutBox, xs: seq<LayoutBox>): LayoutBox
    decreases |xs|
  {
    if xs == [] then current else FoldUnion(ops, ops.union(current, xs[0]), xs[1..])
  }

  /** The inner scan of the merge, from position `i` of the queue `q`: the final
      `current`, the boxes absorbed into it in order, and the queue that remains. */
  function Scan(ops: LayoutOps, minRatio: real, current: LayoutBox, q: seq<LayoutBox>, i: nat)
    : (r: (LayoutBox, seq<LayoutBox>, seq<LayoutBox>))
    requires i <= |q|
    ensures |r.1| + |r.2| == |q|
    ensures multiset(r.1) + multiset(r.2) == multiset(q)
    ensures r.0 == FoldUnion(ops, current, r.1)
    decreases |q|, |q| - i
  {
    if i == |q| then (current, [], q)
    else if Overlaps(ops, minRatio, current, q[i]) then
      assert q == q[..i] + [q[i]] + q[i + 1..];
      assert multiset(q) == multiset(q[..i] + q[i + 1..]) + multiset{q[i]};
      var r := Scan(ops, minRatio, ops.union(current, q[i]), q[..i] + q[i + 1..], 0);
      (r.0, [q[i]] + r.1, r.2)
    else Scan(ops, minRatio, current, q, i + 1)
  }

  /** The merge as a function of its input queue. */
  function Merge(ops: LayoutOps, minRatio: real, q: seq<LayoutBox>): seq<LayoutBox>
    decreases |q|
  {
    if q == [] then []
    else
      var r := Scan(ops, minRatio, q[0], q[1..], 0);
      [r.0] + Merge(ops, minRatio, r.2)
  }

  /** The boxes each emitted box was built from: its seed, then what it absorbed. */
  function Groups(ops: LayoutOps, minRatio: real, q: seq<LayoutBox>): seq<seq<LayoutBox>>
    decreases |q|
  {
    if q == [] then []
    else
      var r := Scan(ops, minRatio, q[0], q[1..], 0);
      [[q[0]] + r.1] + Groups(ops, minRatio, r.2)
  }

  function Flatten(gs: seq<seq<LayoutBox>>): seq<LayoutBox>
  {
    if gs == [] then [] else gs[0] + Flatten(gs[1..])
  }

  /** The seeds, in the order they were popped from the front of the queue. */
  function Seeds(ops: LayoutOps, minRatio: real, q: seq<LayoutBox>): seq<LayoutBox>
    decreases |q|
  {
    if q == [] then []
    else [q[0]] + Seeds(ops, minRatio, Scan(ops, minRatio, q[0], q[1..], 0).2)
  }

  lemma MergeOfEmpty(ops: LayoutOps, minRatio: real)
    ensures Merge(ops, minRatio, []) == []
  {
  }

  /** Every input box is consumed exactly once: as a seed, or absorbed into one. */
  lemma {:induction false} MergeConsumesEachBoxOnce(ops: LayoutOps, minRatio: real, q: seq<LayoutBox>)
    ensures multiset(Flatten(Groups(ops, minRatio, q))) == multiset(q)
    decreases |q|
  {
    if q != [] {
      var r := Scan(ops, minRatio, q[0], q[1..], 0);
      MergeConsumesEachBoxOnce(ops, minRatio, r.2);
      var gs := Groups(ops, minRatio, q);
      assert gs[1..] == Groups(ops, minRatio, r.2);
      assert q == [q[0]] + q[1..];
    }
  }

  /** Each emitted box is its seed unioned with the boxes absorbed into it, in order. */
  lemma {:induction false} MergeUnitesEachGroup(ops: LayoutOps, minRatio: real, q: seq<LayoutBox>)
    ensures |Groups(ops, minRatio, q)| == |Merge(ops, minRatio, q)|
    ensures forall k :: 0 <= k < |Groups(ops, minRatio, q)| ==>
      (Groups(ops, minRatio, q)[k] != [] &&
       Merge(ops, minRatio, q)[k] == FoldUnion(ops, Groups(ops, minRatio, q)[k][0], Groups(ops, minRatio, q)[k][1..]))
    decreases |q|
  {
    if q != [] {
      var r := Scan(ops, minRatio, q[0], q[1..], 0);
      MergeUnitesEachGroup(ops, minRatio, r.2);
      var gs := Groups(ops, minRatio, q);
      var ms := Merge(ops, minRatio, q);
      assert ([q[0]] + r.1)[1..] == r.1;
      forall k | 0 <= k < |gs|
        ensures gs[k] != [] && ms[k] == FoldUnion(ops, gs[k][0], gs[k][1..])
      {
        if k > 0 {
          assert gs[k] == Groups(ops, minRatio, r.2)[k - 1];
          assert ms[k] == Merge(ops, minRatio, r.2)[k - 1];
        }
      }
    }
  }

  /** The merge never emits more boxes than it received, and emits one when it got any. */
  lemma {:induction false} MergeLength(ops: LayoutOps, minRatio: real, q: seq<LayoutBox>)
    ensures |Merge(ops, minRatio, q)| <= |q|
    ensures q != [] ==> |Merge(ops, minRatio, q)| >= 1
    decreases |q|
  {
    if q != [] {
      MergeLength(ops, minRatio, Scan(ops, minRatio, q[0], q[1..], 0).2);
    }
  }

  /** No box of `rest` reaches the merge threshold with `box`. */
  predicate NoneOverlap(ops: LayoutOps, minRatio: real, box: LayoutBox, rest: seq<LayoutBox>)
  {
    forall j :: 0 <= j < |rest| ==> !Overlaps(ops, minRatio, box, rest[j])
  }

  /** When `current` is emitted, no box left in the queue reaches the threshold with it,
      given that the boxes before `i` were already checked against it. */
  lemma {:induction false} ScanLeavesNoOverlap(ops: LayoutOps, minRatio: real, current: LayoutBox, q: seq<LayoutBox>, i: nat)
    requires i <= |q|
    requires forall j :: 0 <= j < i ==> !Overlaps(ops, minRatio, current, q[j])
    ensures NoneOverlap(ops, minRatio, Scan(ops, minRatio, current, q, i).0, Scan(ops, minRatio, current, q, i).2)
    decreases |q|, |q| - i
  {
    if i < |q| {
      if Overlaps(ops, minRatio, current, q[i]) {
        var q' := q[..i] + q[i + 1..];
        ScanLeavesNoOverlap(ops, minRatio, ops.union(current, q[i]), q', 0);
        var inner := Scan(ops, minRatio, ops.union(current, q[i]), q', 0);
        assert Scan(ops, minRatio, current, q, i) == (inner.0, [q[i]] + inner.1, inner.2);
      } else {
        ScanLeavesNoOverlap(ops, minRatio, current, q, i + 1);
      }
    }
  }

  /** The remaining queue keeps the order of the boxes it still holds. */
  lemma {:induction false} ScanKeepsQueueOrder(ops: LayoutOps, minRatio: real, current: LayoutBox, q: seq<LayoutBox>, i: nat)
    requires i <= |q|
    ensures Seqs.IsSubseq(Scan(ops, minRatio, current, q, i).2, q)
    decreases |q|, |q| - i
  {
    if i == |q| {
      Seqs.SubseqRefl(q);
    } else if Overlaps(ops, minRatio, current, q[i]) {
      var q' := q[..i] + q[i + 1..];
      ScanKeepsQueueOrder(ops, minRatio, ops.union(current, q[i]), q', 0);
      DeleteIsSubseq(q, i);
      Seqs.SubseqTrans(Scan(ops, minRatio, ops.union(current, q[i]), q', 0).2, q', q);
    } else {
      ScanKeepsQueueOrder(ops, minRatio, current, q, i + 1);
    }
  }

  /** `del q[i]` keeps the order of the other elements. */
  lemma {:induction false} DeleteIsSubseq<T>(q: seq<T>, i: nat)
    requires i < |q|
    ensures Seqs.IsSubseq(q[..i] + q[i + 1..], q)
  {
    if i == 0 {
      assert q[..0] + q[1..] == q[1..];
      Seqs.SubseqRefl(q[1..]);
      Seqs.SubseqSkip(q[0], q[1..], q[1..]);
      assert [q[0]] + q[1..] == q;
    } else {
      DeleteIsSubseq(q[1..], i - 1);
      assert q[1..][..i - 1] + q[1..][i..] == (q[..i] + q[i + 1..])[1..];
      Seqs.SubseqCons(q[0], q[1..][..i - 1] + q[1..][i..], q[1..]);
      assert [q[0]] + (q[..i] + q[i + 1..])[1..] == q[..i] + q[i + 1..];
      assert [q[0]] + q[1..] == q;
    }
  }

  /** Outputs come in the order their seeds were popped: the seeds are a subsequence
      of the input and the first seed is the first input box. */
  lemma {:induction false} SeedsInInputOrder(ops: LayoutOps, minRatio: real, q: seq<LayoutBox>)
    ensures Seqs.IsSubseq(Seeds(ops, minRatio, q), q)
    ensures |Seeds(ops, minRatio, q)| == |Merge(ops, minRatio, q)|
    ensures q != [] ==> Seeds(ops, minRatio, q)[0] == q[0]
    decreases |q|
  {
    if q != [] {
      var rest := Scan(ops, minRatio, q[0], q[1..], 0).2;
      SeedsInInputOrder(ops, minRatio, rest);
      ScanKeepsQueueOrder(ops, minRatio, q[0], q[1..], 0);
      Seqs.SubseqTrans(Seeds(ops, minRatio, rest), rest, q[1..]);
      Seqs.SubseqCons(q[0], Seeds(ops, minRatio, rest), q[1..]);
      assert [q[0]] + q[1..] == q;
    }
  }

  /** When no box reaches the threshold with any later box, nothing is merged. */
  lemma {:induction false} MergeWithoutOverlapsIsIdentity(ops: LayoutOps, minRatio: real, q: seq<LayoutBox>)
    requires forall i, j :: 0 <= i < j < |q| ==> !Overlaps(ops, minRatio, q[i], q[j])
    ensures Merge(ops, minRatio, q) == q
    decreases |q|
  {
    if q != [] {
      ScanWithoutOverlaps(ops, minRatio, q[0], q[1..], 0);
      MergeWithoutOverlapsIsIdentity(ops, minRatio, q[1..]);
      assert [q[0]] + q[1..] == q;
    }
  }

  lemma {:induction false} ScanWithoutOverlaps(ops: LayoutOps, minRatio: real, current: LayoutBox, q: seq<LayoutBox>, i: nat)
    requires i <= |q|
    requires forall j :: i <= j < |q| ==> !Overlaps(ops, minRatio, current, q[j])
    ensures Scan(ops, minRatio, current, q, i) == (current, [], q)
    decreases |q| - i
  {
    if i < |q| {
      ScanWithoutOverlaps(ops, minRatio, current, q, i + 1);
    }
  }

  /** The boxes of one page: the supported detections, merged. */
  function PageBoxes(ds: seq<Detection>, ops: LayoutOps, minRatio: real): seq<LayoutBox>
  {
    Merge(ops, minRatio, SupportedBoxes(ds, ops))
  }

  /** `PdfLayoutExtractor`: the image size and merged layout boxes of each page. */
  class LayoutExtractor {
    const ops: LayoutOps
    const minMergeOverlapRatio: real
    var imageSizes: seq<Size>
    var pageLayouts: seq<seq<LayoutBox>>

    constructor (ops: LayoutOps, minMergeOverlapRatio: real)
      ensures this.ops == ops && this.minMergeOverlapRatio == minMergeOverlapRatio
      ensures imageSizes == [] && pageLayouts == []
    {
      this.ops := ops;
      this.minMergeOverlapRatio := minMergeOverlapRatio;
      imageSizes := [];
      pageLayouts := [];
    }

    /** `__greedy_overlap_merge`: pops a seed from the front, absorbs every queue box
        that reaches the threshold with it (restarting the scan at 0 after each merge),
        and emits it. */
    method GreedyOverlapMerge(boxes: seq<LayoutBox>) returns (result: seq<LayoutBox>)
      ensures result == Merge(ops, minMergeOverlapRatio, boxes)
    {
      var q := boxes;
      result := [];
      while |q| > 0
        invariant result + Merge(ops, minMergeOverlapRatio, q) == Merge(ops, minMergeOverlapRatio, boxes)
        decreases |q|
      {
        ghost var target := Scan(ops, minMergeOverlapRatio, q[0], q[1..], 0);
        var current := q[0];
        q := q[1..];
        var i := 0;
        while i < |q|
          invariant 0 <= i <= |q|
          invariant Scan(ops, minMergeOverlapRatio, current, q, i).0 == target.0
          invariant Scan(ops, minMergeOverlapRatio, current, q, i).2 == target.2
          decreases |q|, |q| - i
        {
          var candidate := q[i];
          if ops.overlapRatio(current.bounds, candidate.bounds) >= minMergeOverlapRatio {
            current := ops.union(current, candidate);
            q := q[..i] + q[i + 1..];
            i := 0;
          } else {
            i := i + 1;
          }
        }
        assert result + Merge(ops, minMergeOverlapRatio, q) + [] == result + Merge(ops, minMergeOverlapRatio, q);
        result := result + [current];
      }
    }

    method ProcessPage(ds: seq<Detection>) returns (boxes: seq<LayoutBox>)
      ensures boxes == PageBoxes(ds, ops, minMergeOverlapRatio)
    {
      boxes := GreedyOverlapMerge(SupportedBoxes(ds, ops));
    }

    /** `__call__`: clears both page containers, records each page's image size, then
        stores exactly one merged box list per page. */
    method Run(pages: seq<RenderedPage>)
      modifies this
      ensures |imageSizes| == |pages| && |pageLayouts| == |pages|
      ensures forall p :: 0 <= p < |pages| ==> imageSizes[p] == Size(pages[p].width, pages[p].height)
      ensures forall p :: 0 <= p < |pages| ==>
        pageLayouts[p] == PageBoxes(pages[p].detections, ops, minMergeOverlapRatio)
    {
      imageSizes := [];
      pageLayouts := [];
      var p := 0;
      while p < |pages|
        invariant 0 <= p <= |pages| && |imageSizes| == p && pageLayouts == []
        invariant forall k :: 0 <= k < p ==> imageSizes[k] == Size(pages[k].width, pages[k].height)
      {
        imageSizes := imageSizes + [Size(pages[p].width, pages[p].height)];
        p := p + 1;
      }
      p := 0;
      while p < |pages|
        invariant 0 <= p <= |pages| && |pageLayouts| == p && |imageSizes| == |pages|
        invariant forall k :: 0 <= k < |pages| ==> imageSizes[k] == Size(pages[k].width, pages[k].height)
        invariant forall k :: 0 <= k < p ==>
          pageLayouts[k] == PageBoxes(pages[k].detections, ops, minMergeOverlapRatio)
      {
        var boxes := ProcessPage(pages[p].detections);
        pageLayouts := pageLayouts + [boxes];
        p := p + 1;
      }
    }
  }
}
