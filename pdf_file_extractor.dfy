/** The PDF text file extractor: it scales each page's layout boxes from image pixels
    to the text extractor's page units, gives each text item the role of the
    highest-priority layout type among the boxes it overlaps, and renders runs of
    items with the same role as markdown-like text.

    The text extractor's page sizes and the layout extractor's image sizes and box
    lists are keyed by page numbers 0, 1, ... inserted in order, so they are taken
    here as sequences indexed by page number; the text items stay a map, since a
    page without kept items has no entry. */
module PdfFileExtraction {
  import opened Wrappers
  import opened Geometry
  import opened Strings
  import Seqs
  import opened TextExtraction
  import opened LayoutExtraction

  /** The text-to-layout overlap threshold the extractor uses unless told otherwise. */
  const DefaultMinOverlapRatio: real := 0.5

  /** One page handed to the text preparation: its scaled layout boxes and its text items. */
  datatype PageContent = PageContent(boxes: seq<LayoutBox>, items: seq<TextItem>)

  /** A zero image dimension makes the division raise. */
  predicate HasZeroSide(s: Size)
  {
    s.width == 0.0 || s.height == 0.0
  }

  /** Page `p` has an image size by which the text page can be divided. */
  predicate Scalable(imageSizes: seq<Size>, p: nat)
  {
    p < |imageSizes| && !HasZeroSide(imageSizes[p])
  }

  /** `__compute_text_to_layout_scale`, from page `i` on: for each text page, its size
      divided by the image size of the same page. A page without an image size raises
      KeyError, a zero image side raises ZeroDivisionError; the first failing page
      decides which. */
  function ScaleFrom(pageSizes: seq<Size>, imageSizes: seq<Size>, i: nat): (r: Result<seq<(real, real)>>)
    requires i <= |pageSizes|
    ensures r.Ok? <==> forall p :: i <= p < |pageSizes| ==> Scalable(imageSizes, p)
    ensures r.Err? ==> r.error == KeyError || r.error == ZeroDivisionError
    ensures r == Err(KeyError) <==>
      |pageSizes| > |imageSizes| && i < |pageSizes| && forall p :: i <= p < |imageSizes| ==> !HasZeroSide(imageSizes[p])
    ensures r.Ok? ==> |r.value| == |pageSizes| - i && forall p :: i <= p < |pageSizes| ==>
      Scalable(imageSizes, p)
      && r.value[p - i].0 * imageSizes[p].width == pageSizes[p].width
      && r.value[p - i].1 * imageSizes[p].height == pageSizes[p].height
    decreases |pageSizes| - i
  {
    if i == |pageSizes| then Ok([])
    else if i >= |imageSizes| then assert !Scalable(imageSizes, i); Err(KeyError)
    else if HasZeroSide(imageSizes[i]) then assert !Scalable(imageSizes, i); Err(ZeroDivisionError)
    else
      var rest := ScaleFrom(pageSizes, imageSizes, i + 1);
      if rest.Err? then rest
      else Ok([(pageSizes[i].width / imageSizes[i].width, pageSizes[i].height / imageSizes[i].height)] + rest.value)
  }

  function TextToLayoutScale(pageSizes: seq<Size>, imageSizes: seq<Size>): Result<seq<(real, real)>>
  {
    ScaleFrom(pageSizes, imageSizes, 0)
  }

  /** `box.scale(sx, sy)` for every box of a page. */
  function ScaleBoxes(boxes: seq<LayoutBox>, s: (real, real), ops: LayoutOps): seq<LayoutBox>
  {
    seq(|boxes|, k requires 0 <= k < |boxes| => ops.scale(boxes[k], s.0, s.1))
  }

  /** `__compute_boxes_by_page`, from page `i` on: one entry per layout page, its boxes
      scaled by that page's factors and its text items, none when the text extractor
      kept nothing on it. The scale of a page is looked up only when it has boxes, so
      KeyError is raised exactly when a page with boxes has no scale. */
  function BoxesByPageFrom(scale: seq<(real, real)>, pageLayouts: seq<seq<LayoutBox>>,
                           textItems: map<int, seq<TextItem>>, ops: LayoutOps, i: nat)
    : (r: Result<seq<PageContent>>)
    requires i <= |pageLayouts|
    ensures r.Ok? <==> forall p :: i <= p < |pageLayouts| && pageLayouts[p] != [] ==> p < |scale|
    ensures r.Err? ==> r.error == KeyError
    ensures r.Ok? ==> |r.value| == |pageLayouts| - i && forall p :: i <= p < |pageLayouts| ==>
      && |r.value[p - i].boxes| == |pageLayouts[p]|
      && (forall k :: 0 <= k < |pageLayouts[p]| ==>
            r.value[p - i].boxes[k] == ops.scale(pageLayouts[p][k], scale[p].0, scale[p].1))
      && r.value[p - i].items == ItemsOf(textItems, p)
    decreases |pageLayouts| - i
  {
    if i == |pageLayouts| then Ok([])
    else if pageLayouts[i] != [] && i >= |scale| then Err(KeyError)
    else
      var rest := BoxesByPageFrom(scale, pageLayouts, textItems, ops, i + 1);
      if rest.Err? then rest
      else
        var boxes := if pageLayouts[i] == [] then [] else ScaleBoxes(pageLayouts[i], scale[i], ops);
        Ok([PageContent(boxes, ItemsOf(textItems, i))] + rest.value)
  }

  function BoxesByPage(scale: seq<(real, real)>, pageLayouts: seq<seq<LayoutBox>>,
                       textItems: map<int, seq<TextItem>>, ops: LayoutOps): Result<seq<PageContent>>
  {
    BoxesByPageFrom(scale, pageLayouts, textItems, ops, 0)
  }

  /** `__layout_type_priority`: title beats list beats text beats anything else,
      whatever the case and surrounding whitespace of the type. */
  function LayoutTypePriority(boxType: string): int
  {
    PriorityOfNormalised(Strip(Lower(boxType)))
  }

  function PriorityOfNormalised(t: string): (r: int)
    ensures r == 3 <==> t == "title"
    ensures r == 2 <==> t == "list"
    ensures r == 1 <==> t == "text"
    ensures r == -1 <==> t !in {"title", "list", "text"}
  {
    if t == "title" then 3 else if t == "list" then 2 else if t == "text" then 1 else -1
  }

  /** `__to_string`: a title is stripped and set in bold on a line of its own, list
      entries go one per line, anything else is joined with spaces. The type is
      compared as given, without normalisation. */
  function RoleToString(boxType: string, texts: seq<string>): (r: string)
    ensures boxType == "title" ==> StartsWith(r, "\n**") && EndsWith(r, "**\n")
    ensures boxType == "list" ==> EndsWith(r, "\n")
    ensures boxType != "title" && boxType != "list" ==> EndsWith(r, " ")
    ensures r != ""
  {
    if boxType == "title" then "\n**" + Strip(Join(" ", texts)) + "**\n"
    else if boxType == "list" then Join("\n", texts) + "\n"
    else Join(" ", texts) + " "
  }

  /** The entries of a rendered list are recovered by splitting its body at newlines. */
  lemma ListRoleRoundTrip(texts: seq<string>)
    requires |texts| >= 1
    requires forall k :: 0 <= k < |texts| ==> '\n' !in texts[k]
    ensures var r := RoleToString("list", texts); Split(r[..|r| - 1], '\n') == texts
  {
    var r := RoleToString("list", texts);
    assert r[..|r| - 1] == Join(['\n'], texts);
    SplitJoin(texts, '\n');
  }

  /** A title is its joined text, stripped, between the bold markers on a line of its own. */
  lemma TitleRoleBody(texts: seq<string>)
    ensures var r := RoleToString("title", texts);
      |r| >= 6 && r[3..|r| - 3] == Strip(Join(" ", texts)) && Strip(r[3..|r| - 3]) == r[3..|r| - 3]
  {
    var body := Strip(Join(" ", texts));
    var r := RoleToString("title", texts);
    assert r == "\n**" + body + "**\n";
    assert r[3..|r| - 3] == body;
    StripIdempotent(Join(" ", texts));
  }

  /** The words of a text run are recovered by splitting its body at spaces, whatever its
      type other than title and list. */
  lemma TextRoleRoundTrip(boxType: string, texts: seq<string>)
    requires boxType != "title" && boxType != "list"
    requires |texts| >= 1
    requires forall k :: 0 <= k < |texts| ==> ' ' !in texts[k]
    ensures var r := RoleToString(boxType, texts); Split(r[..|r| - 1], ' ') == texts
  {
    var r := RoleToString(boxType, texts);
    assert r[..|r| - 1] == Join([' '], texts);
    SplitJoin(texts, ' ');
  }

  /** `__append_text`: a new fragment continues a previous one that ends in a hyphen
      once stripped (the hyphen and the new fragment's leading whitespace are dropped);
      otherwise it is appended. The list is returned rather than updated in place. */
  function AppendText(existing: seq<string>, newText: string): (r: seq<string>)
    ensures |r| >= 1
    ensures |r| == |existing| || |r| == |existing| + 1
    ensures |r| == |existing| <==> existing != [] && EndsWith(Strip(existing[|existing| - 1]), "-")
    ensures existing != [] ==> r[..|existing| - 1] == existing[..|existing| - 1]
    ensures EndsWith(r[|r| - 1], LStrip(newText))
    ensures existing != [] && EndsWith(Strip(existing[|existing| - 1]), "-") ==>
      var prev := Strip(existing[|existing| - 1]);
      r[|r| - 1] == prev[..|prev| - 1] + LStrip(newText)
    ensures !(existing != [] && EndsWith(Strip(existing[|existing| - 1]), "-")) ==> r == existing + [newText]
  {
    if |existing| > 0 then
      var prev := Strip(existing[|existing| - 1]);
      if EndsWith(prev, "-") then existing[..|existing| - 1] + [prev[..|prev| - 1] + LStrip(newText)]
      else existing + [newText]
    else [newText]
  }

  /** A hyphenated word split over two fragments is joined back. */
  lemma AppendTextJoinsHyphenation()
    ensures AppendText(["exam-"], " ple") == ["example"]
  {
    assert "exam-"[0] !in Whitespace && "exam-"[4] !in Whitespace;
    assert LStripChars("exam-", Whitespace) == "exam-";
    assert Strip("exam-") == "exam-";
    assert " ple"[0] in Whitespace && " ple"[1..] == "ple" && "ple"[0] !in Whitespace;
    assert LStrip(" ple") == "ple";
    assert "exam-"[5 - 1..] == "-";
    assert "exam-"[..4] + "ple" == "example";
  }

  /** `__find_overlaps`: the boxes whose overlap ratio with the item reaches the
      threshold, in their original order. */
  function FindOverlaps(item: TextItem, boxes: seq<LayoutBox>, ops: LayoutOps, minRatio: real): seq<LayoutBox>
  {
    Seqs.Filter(boxes, (b: LayoutBox) => ops.overlapRatio(b.bounds, item.bounds) >= minRatio)
  }

  lemma FindOverlapsKeepsExactlyTheOverlapping(item: TextItem, boxes: seq<LayoutBox>, ops: LayoutOps, minRatio: real)
    ensures forall b :: b in FindOverlaps(item, boxes, ops, minRatio) <==>
      b in boxes && ops.overlapRatio(b.bounds, item.bounds) >= minRatio
    ensures Seqs.IsSubseq(FindOverlaps(item, boxes, ops, minRatio), boxes)
  {
    Seqs.FilterIsSubseq(boxes, (b: LayoutBox) => ops.overlapRatio(b.bounds, item.bounds) >= minRatio);
  }

  /** The types of the boxes, box by box. */
  function TypesOf(boxes: seq<LayoutBox>): seq<string>
  {
    if boxes == [] then [] else boxes[0].types + TypesOf(boxes[1..])
  }

  lemma {:induction false} TypesOfMembers(boxes: seq<LayoutBox>)
    ensures forall t :: t in TypesOf(boxes) <==> exists b :: b in boxes && t in b.types
  {
    if boxes != [] {
      TypesOfMembers(boxes[1..]);
      assert forall b :: b in boxes <==> b == boxes[0] || b in boxes[1..];
    }
  }

  lemma {:induction false} TypesOfEmpty(boxes: seq<LayoutBox>)
    ensures TypesOf(boxes) == [] <==> forall b :: b in boxes ==> b.types == []
  {
    if boxes != [] {
      TypesOfEmpty(boxes[1..]);
      assert boxes[0] in boxes;
      assert forall b :: b in boxes <==> b == boxes[0] || b in boxes[1..];
    }
  }

  /** Python's `max` scan over the keys `ps` from position `i`: a later key replaces the
      best one only when it is strictly greater, so the earliest maximum wins. */
  function MaxIndexFrom(ps: seq<int>, best: nat, i: nat): (r: nat)
    requires best < i <= |ps|
    requires forall j :: 0 <= j < i ==> ps[j] <= ps[best]
    requires forall j :: 0 <= j < best ==> ps[j] < ps[best]
    ensures r < |ps|
    ensures forall j :: 0 <= j < |ps| ==> ps[j] <= ps[r]
    ensures forall j :: 0 <= j < r ==> ps[j] < ps[r]
    decreases |ps| - i
  {
    if i == |ps| then best
    else if ps[i] > ps[best] then MaxIndexFrom(ps, i, i + 1)
    else MaxIndexFrom(ps, best, i + 1)
  }

  function Keys(ts: seq<string>, key: string -> int): (ps: seq<int>)
    ensures |ps| == |ts| && forall k :: 0 <= k < |ts| ==> ps[k] == key(ts[k])
  {
    seq(|ts|, k requires 0 <= k < |ts| => key(ts[k]))
  }

  /** Python's `max(ts, key=key)`: ValueError when `ts` is empty. */
  function MaxByKey(ts: seq<string>, key: string -> int): (r: Result<string>)
    ensures r.Err? <==> ts == []
    ensures r.Err? ==> r.error == ValueError
    ensures r.Ok? ==> r.value in ts
  {
    if ts == [] then Err(ValueError)
    else
      var k := MaxIndexFrom(Keys(ts, key), 0, 1);
      Ok(ts[k])
  }

  /** The element chosen is the first one of highest key. */
  lemma MaxByKeyIsFirstMaximum(ts: seq<string>, key: string -> int)
    requires ts != []
    ensures exists k :: (0 <= k < |ts| && ts[k] == MaxByKey(ts, key).value
      && (forall j :: 0 <= j < |ts| ==> key(ts[j]) <= key(ts[k]))
      && (forall j :: 0 <= j < k ==> key(ts[j]) < key(ts[k])))
  {
    var k := MaxIndexFrom(Keys(ts, key), 0, 1);
    assert ts[k] == MaxByKey(ts, key).value;
  }

  /** `max(types, key=__layout_type_priority)`. */
  function MaxByPriority(ts: seq<string>): Result<string>
  {
    MaxByKey(ts, LayoutTypePriority)
  }

  /** A text item with the role it was given. */
  datatype Role = Role(boxType: string, text: string)

  /** The role of one item: none when it overlaps no box, the highest-priority type of
      the overlapping boxes otherwise, ValueError when those boxes carry no type. */
  function ItemRole(boxes: seq<LayoutBox>, item: TextItem, ops: LayoutOps, minRatio: real): (r: Result<Option<Role>>)
    ensures r.Err? ==> r.error == ValueError
  {
    var overlapping := FindOverlaps(item, boxes, ops, minRatio);
    if overlapping == [] then Ok(None)
    else
      var best := MaxByPriority(TypesOf(overlapping));
      if best.Err? then Err(best.error) else Ok(Some(Role(best.value, item.text)))
  }

  /** An item gets no role exactly when it overlaps no box, and fails exactly when the
      boxes it overlaps carry no type. */
  lemma ItemRoleCases(boxes: seq<LayoutBox>, item: TextItem, ops: LayoutOps, minRatio: real)
    ensures ItemRole(boxes, item, ops, minRatio) == Ok(None) <==>
      forall b :: b in boxes ==> ops.overlapRatio(b.bounds, item.bounds) < minRatio
    ensures ItemRole(boxes, item, ops, minRatio).Err? <==>
      && (exists b :: b in boxes && ops.overlapRatio(b.bounds, item.bounds) >= minRatio)
      && forall b :: b in boxes && ops.overlapRatio(b.bounds, item.bounds) >= minRatio ==> b.types == []
  {
    var ov := FindOverlaps(item, boxes, ops, minRatio);
    FindOverlapsKeepsExactlyTheOverlapping(item, boxes, ops, minRatio);
    TypesOfMembers(ov);
    if ov != [] {
      assert ov[0] in ov;
    }
    TypesOfEmpty(ov);
  }

  /** The type `max` picks among the types of some boxes belongs to one of them and
      no type of theirs has a higher key. */
  lemma MaxTypeIsHighest(boxes: seq<LayoutBox>, key: string -> int)
    requires TypesOf(boxes) != []
    ensures var m := MaxByKey(TypesOf(boxes), key).value;
      && (exists b :: b in boxes && m in b.types)
      && forall b, t :: b in boxes && t in b.types ==> key(t) <= key(m)
  {
    var ts := TypesOf(boxes);
    TypesOfMembers(boxes);
    MaxByKeyIsFirstMaximum(ts, key);
    var k :| 0 <= k < |ts| && ts[k] == MaxByKey(ts, key).value
      && (forall j :: 0 <= j < |ts| ==> key(ts[j]) <= key(ts[k]));
    forall b, t | b in boxes && t in b.types
      ensures key(t) <= key(ts[k])
    {
      assert t in ts;
      var j :| 0 <= j < |ts| && ts[j] == t;
    }
  }

  /** A role is a type of some overlapping box, and no overlapping box has a type of
      higher priority; its text is the item's. */
  lemma ItemRoleIsHighestPriority(boxes: seq<LayoutBox>, item: TextItem, ops: LayoutOps, minRatio: real)
    requires ItemRole(boxes, item, ops, minRatio).Ok? && ItemRole(boxes, item, ops, minRatio).value.Some?
    ensures var role := ItemRole(boxes, item, ops, minRatio).value.value;
      && role.text == item.text
      && (exists b :: b in boxes && ops.overlapRatio(b.bounds, item.bounds) >= minRatio && role.boxType in b.types)
      && forall b, t :: b in boxes && ops.overlapRatio(b.bounds, item.bounds) >= minRatio && t in b.types ==>
           LayoutTypePriority(t) <= LayoutTypePriority(role.boxType)
  {
    var ov := FindOverlaps(item, boxes, ops, minRatio);
    FindOverlapsKeepsExactlyTheOverlapping(item, boxes, ops, minRatio);
    MaxTypeIsHighest(ov, LayoutTypePriority);
  }

  /** The roles `role` gives some items, in item order, with the items that get none
      left out; the first failure, if any item's role fails. */
  function CollectRoles(items: seq<TextItem>, role: TextItem -> Result<Option<Role>>): (r: Result<seq<Role>>)
    ensures r.Ok? <==> forall k :: 0 <= k < |items| ==> role(items[k]).Ok?
    ensures r.Err? ==> exists k :: 0 <= k < |items| && role(items[k]) == Err(r.error)
    ensures r.Ok? ==> |r.value| <= |items|
    decreases |items|
  {
    if items == [] then Ok([])
    else
      var init := CollectRoles(items[..|items| - 1], role);
      var last := role(items[|items| - 1]);
      if init.Err? then init
      else if last.Err? then Err(last.error)
      else if last.value.None? then init
      else Ok(init.value + [last.value.value])
  }

  /** The roles of a page's items, in item order; ValueError if any item has one. */
  function ItemRoles(boxes: seq<LayoutBox>, items: seq<TextItem>, ops: LayoutOps, minRatio: real): (r: Result<seq<Role>>)
    ensures r.Ok? <==> forall k :: 0 <= k < |items| ==> ItemRole(boxes, items[k], ops, minRatio).Ok?
    ensures r.Err? ==> r.error == ValueError
    ensures r.Ok? ==> |r.value| <= |items|
  {
    CollectRoles(items, (item: TextItem) => ItemRole(boxes, item, ops, minRatio))
  }

  /** The roles of the first k + 1 items, from those of the first k and item k. */
  lemma ItemRolesStep(boxes: seq<LayoutBox>, items: seq<TextItem>, k: nat, ops: LayoutOps, minRatio: real)
    requires k < |items|
    ensures var before := ItemRoles(boxes, items[..k], ops, minRatio);
      var role := ItemRole(boxes, items[k], ops, minRatio);
      ItemRoles(boxes, items[..k + 1], ops, minRatio) ==
        if before.Err? then before
        else if role.Err? then Err(role.error)
        else if role.value.None? then before
        else Ok(before.value + [role.value.value])
  {
    var f := (item: TextItem) => ItemRole(boxes, item, ops, minRatio);
    var prefix := items[..k + 1];
    assert prefix[..|prefix| - 1] == items[..k];
    assert prefix[|prefix| - 1] == items[k];
    assert ItemRoles(boxes, prefix, ops, minRatio) == CollectRoles(prefix, f);
    assert ItemRoles(boxes, items[..k], ops, minRatio) == CollectRoles(items[..k], f);
  }

  /** Switching roles with nothing collected leaves nothing collected. */
  lemma SwitchKeepsEmpty(acc: Accumulator, boxType: string)
    requires acc.merged == [] && acc.currentTexts == []
    ensures SwitchRole(acc, boxType).merged == [] && SwitchRole(acc, boxType).currentTexts == []
  {
  }

  /** One item whose role fails makes the whole page fail. */
  lemma ItemRolesFail(boxes: seq<LayoutBox>, items: seq<TextItem>, k: nat, ops: LayoutOps, minRatio: real)
    requires k < |items| && ItemRole(boxes, items[k], ops, minRatio).Err?
    ensures ItemRoles(boxes, items, ops, minRatio).Err?
  {
  }

  /** The roles of all items, page by page. */
  function PageRoles(pages: seq<PageContent>, ops: LayoutOps, minRatio: real): (r: Result<seq<Role>>)
    ensures r.Ok? <==> forall p :: 0 <= p < |pages| ==> ItemRoles(pages[p].boxes, pages[p].items, ops, minRatio).Ok?
    ensures r.Err? ==> r.error == ValueError
  {
    CollectPages(pages, (page: PageContent) => ItemRoles(page.boxes, page.items, ops, minRatio))
  }

  /** The roles of each page in turn, joined; the first failing page decides the error. */
  function CollectPages(pages: seq<PageContent>, roles: PageContent -> Result<seq<Role>>): (r: Result<seq<Role>>)
    ensures r.Ok? <==> forall p :: 0 <= p < |pages| ==> roles(pages[p]).Ok?
    ensures r.Err? ==> exists p :: 0 <= p < |pages| && roles(pages[p]) == Err(r.error)
    decreases |pages|
  {
    if pages == [] then Ok([])
    else
      var init := CollectPages(pages[..|pages| - 1], roles);
      var last := roles(pages[|pages| - 1]);
      if init.Err? then init
      else if last.Err? then last
      else Ok(init.value + last.value)
  }

  /** One more page: its roles join those of the pages before it. */
  lemma PageRolesStep(pages: seq<PageContent>, p: nat, ops: LayoutOps, minRatio: real)
    requires p < |pages|
    ensures var before := PageRoles(pages[..p], ops, minRatio);
      var last := ItemRoles(pages[p].boxes, pages[p].items, ops, minRatio);
      PageRoles(pages[..p + 1], ops, minRatio) ==
        if before.Err? then before
        else if last.Err? then last
        else Ok(before.value + last.value)
  {
    var f := (page: PageContent) => ItemRoles(page.boxes, page.items, ops, minRatio);
    var prefix := pages[..p + 1];
    assert prefix[..|prefix| - 1] == pages[..p];
    assert prefix[|prefix| - 1] == pages[p];
    assert PageRoles(prefix, ops, minRatio) == CollectPages(prefix, f);
    assert PageRoles(pages[..p], ops, minRatio) == CollectPages(pages[..p], f);
  }

  /** The rendering state: finished sections, the role being collected and its texts. */
  datatype Accumulator = Accumulator(merged: seq<string>, currentType: Option<string>, currentTexts: seq<string>)

  const Start: Accumulator := Accumulator([], None, [])

  /** The finished sections, with the section being collected closed. */
  function Flush(acc: Accumulator): seq<string>
  {
    if |acc.currentTexts| > 0 then acc.merged + [RoleToString(acc.currentType.GetOr(""), acc.currentTexts)]
    else acc.merged
  }

  /** The type comparison of `_prepare_text`: a new type closes the section being
      collected and starts an empty one. */
  function SwitchRole(acc: Accumulator, boxType: string): (r: Accumulator)
    ensures r.currentType == Some(boxType)
    ensures acc.currentType == Some(boxType) ==> r == acc
    ensures acc.currentType != Some(boxType) ==> r.merged == Flush(acc) && r.currentTexts == []
  {
    if acc.currentType != Some(boxType) then Accumulator(Flush(acc), Some(boxType), []) else acc
  }

  /** One item with its role: the type comparison, then the item's text joins the
      current section. */
  function Step(acc: Accumulator, role: Role): (r: Accumulator)
    ensures r.currentType == Some(role.boxType)
    ensures r.currentTexts != []
  {
    var switched := SwitchRole(acc, role.boxType);
    switched.(currentTexts := AppendText(switched.currentTexts, role.text))
  }

  /** The rendering state after the given items, in order. */
  function Fold(acc: Accumulator, roles: seq<Role>): Accumulator
  {
    Seqs.FoldLeft(Step, acc, roles)
  }

  /** One more item is one more step. */
  lemma FoldSnoc(acc: Accumulator, roles: seq<Role>, role: Role)
    ensures Fold(acc, roles + [role]) == Step(Fold(acc, roles), role)
  {
    var all := roles + [role];
    assert all[..|all| - 1] == roles;
    assert all[|all| - 1] == role;
    assert Seqs.FoldLeft(Step, acc, all) == Step(Seqs.FoldLeft(Step, acc, all[..|all| - 1]), all[|all| - 1]);
  }

  /** The text the extractor evidently means to produce from the items' roles. */
  function Render(roles: seq<Role>): string
  {
    Join("", Flush(Fold(Start, roles)))
  }

  function PreparedText(pages: seq<PageContent>, ops: LayoutOps, minRatio: real): Result<string>
  {
    var roles := PageRoles(pages, ops, minRatio);
    if roles.Err? then Err(roles.error) else Ok(Render(roles.value))
  }

  lemma {:induction false} JoinKeepsParts(parts: seq<string>, k: nat)
    requires k < |parts|
    ensures |Join("", parts)| >= |parts[k]|
  {
    if k > 0 {
      JoinKeepsParts(parts[1..], k - 1);
    }
  }

  /** As soon as one item has a role, the rendered text is not empty. */
  lemma RenderNonEmpty(roles: seq<Role>)
    requires roles != []
    ensures Render(roles) != ""
  {
    var flushed := Flush(Fold(Start, roles));
    JoinKeepsParts(flushed, |flushed| - 1);
  }

  /** A single plain-text item renders as its text followed by a space. */
  lemma RenderSingleText(t: string)
    ensures Render([Role("Text", t)]) == t + " "
  {
    var role := Role("Text", t);
    FoldSnoc(Start, [], role);
    assert [] + [role] == [role];
    assert Step(Start, role) == Accumulator([], Some("Text"), [t]);
    assert Flush(Accumulator([], Some("Text"), [t])) == [t + " "];
  }

  /** The whole pipeline after the two extractors have run, ending in the corrected text
      preparation `PreparedText`, which appends each item's text. As written, the source's
      preparation appends nothing and renders "" (`PdfTextFileExtractor.PrepareTextAsWritten`). */
  function ReadFile(pageSizes: seq<Size>, imageSizes: seq<Size>, pageLayouts: seq<seq<LayoutBox>>,
                    textItems: map<int, seq<TextItem>>, ops: LayoutOps, minRatio: real): (r: Result<string>)
    ensures r.Err? ==> r.error in {KeyError, ZeroDivisionError, ValueError}
    ensures |pageSizes| > |imageSizes| ==> r.Err?
  {
    assert |pageSizes| > |imageSizes| ==> !Scalable(imageSizes, |imageSizes|);
    var scale :- TextToLayoutScale(pageSizes, imageSizes);
    var pages :- BoxesByPage(scale, pageLayouts, textItems, ops);
    PreparedText(pages, ops, minRatio)
  }

  /** `PdfTextFileExtractor` with its overlap threshold. */
  class PdfTextFileExtractor {
    const ops: LayoutOps
    const minOverlapRatio: real

    constructor (ops: LayoutOps, minOverlapRatio: real)
      ensures this.ops == ops && this.minOverlapRatio == minOverlapRatio
    {
      this.ops := ops;
      this.minOverlapRatio := minOverlapRatio;
    }

    /** The items of one page under `_prepare_text` as written: the type comparison
        is made, but no text is ever added to the section being collected. */
    method CollectPageAsWritten(page: PageContent, acc: Accumulator) returns (r: Result<Accumulator>)
      requires acc.merged == [] && acc.currentTexts == []
      ensures r.Ok? <==> ItemRoles(page.boxes, page.items, ops, minOverlapRatio).Ok?
      ensures r.Err? ==> r.error == ValueError
      ensures r.Ok? ==> r.value.merged == [] && r.value.currentTexts == []
    {
      var cur := acc;
      var k := 0;
      while k < |page.items|
        invariant 0 <= k <= |page.items|
        invariant ItemRoles(page.boxes, page.items[..k], ops, minOverlapRatio).Ok?
        invariant cur.merged == [] && cur.currentTexts == []
      {
        var role := ItemRole(page.boxes, page.items[k], ops, minOverlapRatio);
        ItemRolesStep(page.boxes, page.items, k, ops, minOverlapRatio);
        if role.Err? {
          ItemRolesFail(page.boxes, page.items, k, ops, minOverlapRatio);
          return Err(ValueError);
        }
        if role.value.Some? {
          SwitchKeepsEmpty(cur, role.value.value.boxType);
          cur := SwitchRole(cur, role.value.value.boxType);
        }
        k := k + 1;
      }
      assert page.items[..k] == page.items;
      return Ok(cur);
    }

    /** `_prepare_text` as written: since no section ever receives a text, nothing is
        flushed and the result is empty whenever no ValueError is raised. */
    method PrepareTextAsWritten(pages: seq<PageContent>) returns (r: Result<string>)
      ensures r.Ok? <==> PageRoles(pages, ops, minOverlapRatio).Ok?
      ensures r.Err? ==> r.error == ValueError
      ensures r.Ok? ==> r.value == ""
    {
      var acc := Start;
      var p := 0;
      while p < |pages|
        invariant 0 <= p <= |pages|
        invariant PageRoles(pages[..p], ops, minOverlapRatio).Ok?
        invariant acc.merged == [] && acc.currentTexts == []
      {
        PageRolesStep(pages, p, ops, minOverlapRatio);
        var next := CollectPageAsWritten(pages[p], acc);
        if next.Err? {
          assert !PageRoles(pages, ops, minOverlapRatio).Ok?;
          return Err(ValueError);
        }
        acc := next.value;
        p := p + 1;
      }
      assert pages[..p] == pages;
      return Ok(Join("", Flush(acc)));
    }

    /** The items of one page under `_prepare_text` with each text appended. */
    method CollectPage(page: PageContent, acc: Accumulator) returns (r: Result<Accumulator>)
      ensures r.Ok? <==> ItemRoles(page.boxes, page.items, ops, minOverlapRatio).Ok?
      ensures r.Err? ==> r.error == ValueError
      ensures r.Ok? ==> r.value == Fold(acc, ItemRoles(page.boxes, page.items, ops, minOverlapRatio).value)
    {
      var cur := acc;
      var k := 0;
      while k < |page.items|
        invariant 0 <= k <= |page.items|
        invariant ItemRoles(page.boxes, page.items[..k], ops, minOverlapRatio).Ok?
        invariant cur == Fold(acc, ItemRoles(page.boxes, page.items[..k], ops, minOverlapRatio).value)
      {
        var role := ItemRole(page.boxes, page.items[k], ops, minOverlapRatio);
        ghost var before := ItemRoles(page.boxes, page.items[..k], ops, minOverlapRatio).value;
        ItemRolesStep(page.boxes, page.items, k, ops, minOverlapRatio);
        if role.Err? {
          assert !ItemRoles(page.boxes, page.items, ops, minOverlapRatio).Ok?;
          return Err(ValueError);
        }
        if role.value.Some? {
          FoldSnoc(acc, before, role.value.value);
          cur := Step(cur, role.value.value);
        }
        k := k + 1;
      }
      assert page.items[..k] == page.items;
      return Ok(cur);
    }

    /** `_prepare_text` with each item's text appended to the section being collected. */
    method PrepareText(pages: seq<PageContent>) returns (r: Result<string>)
      ensures r == PreparedText(pages, ops, minOverlapRatio)
    {
      var acc := Start;
      var p := 0;
      while p < |pages|
        invariant 0 <= p <= |pages|
        invariant PageRoles(pages[..p], ops, minOverlapRatio).Ok?
        invariant acc == Fold(Start, PageRoles(pages[..p], ops, minOverlapRatio).value)
      {
        PageRolesStep(pages, p, ops, minOverlapRatio);
        var next := CollectPage(pages[p], acc);
        if next.Err? {
          assert !PageRoles(pages, ops, minOverlapRatio).Ok?;
          return Err(ValueError);
        }
        Seqs.FoldLeftAppend(Step, Start, PageRoles(pages[..p], ops, minOverlapRatio).value,
                   ItemRoles(pages[p].boxes, pages[p].items, ops, minOverlapRatio).value);
        acc := next.value;
        p := p + 1;
      }
      assert pages[..p] == pages;
      return Ok(Join("", Flush(acc)));
    }
  }
}
