/** `FlatOutputAdapter` and its Scopus and IEEE Xplore subclasses: adapters that write
    each closed group as text, into the parent group's buffer or, at depth zero, into
    the output. A buffer therefore holds both visited terms and nested groups' texts. */
module FlatOutputAdapters {
  import opened Wrappers
  import opened Strings
  import opened SearchExpr
  import opened AdapterStack
  import Seqs
  import TreeEmitters

  /** An entry of a group buffer: a visited term, or the text of a closed nested group. */
  datatype Item = Term(term: Expr) | Text(text: string)

  datatype FlatKind = Scopus | Xplore

  /** Xplore's side state: the document types seen and the last year range seen. */
  datatype Ctx = Ctx(docTypes: set<string>, yearRange: Option<(int, int)>)

  datatype FlatState = FlatState(stack: seq<seq<Item>>, output: string, ctx: Ctx)

  /** `_write`: empty values are ignored; inside a group the value joins the top buffer,
      at depth zero it is appended to the output. */
  function Write(s: FlatState, value: string): (r: FlatState)
    ensures r.ctx == s.ctx
    ensures |value| < 1 ==> r == s
    ensures |value| >= 1 && s.stack != [] ==> r.output == s.output && r.stack == AppendTop(s.stack, Text(value))
    ensures |value| >= 1 && s.stack == [] ==> r.stack == [] && r.output == s.output + value
  {
    if |value| < 1 then s
    else if s.stack != [] then FlatState(AppendTop(s.stack, Text(value)), s.output, s.ctx)
    else FlatState(s.stack, s.output + value, s.ctx)
  }

  const ScopusDocTypes: map<string, string> := map["journal" := "ar", "proceedings" := "cp", "report" := "rp"]
  const ScopusSubjectAreas: map<string, string> := map["compsci" := "COMP"]

  /** `_extract_mapped_value`: PREFIX("value"), the value mapped when the table has it. */
  function MappedValue(m: map<string, string>, prefix: string, value: string): (r: string)
    ensures StartsWith(r, prefix + "(\"") && EndsWith(r, "\")") && |r| >= |prefix| + 4
    ensures value in m ==> r[|prefix| + 2..|r| - 2] == m[value]
    ensures value !in m ==> r[|prefix| + 2..|r| - 2] == value
  {
    Framed(prefix + "(\"", if value in m then m[value] else value, "\")")
  }

  /** Scopus `_stringify`: a year range with both bounds made exclusive, document types
      and subject areas through their tables, languages and author keywords with their
      field codes, anything else (including a nested group's text) through `str`. */
  function ScopusStringify(item: Item): string
  {
    match item
    case Text(t) => t
    case Term(e) =>
      if e.YearRangeExpr? then
        "(PUBYEAR AFT " + IntToString(e.start - 1) + " AND PUBYEAR BEF " + IntToString(e.end + 1) + ")"
      else if e.AttrExpr? && e.kind == EvidenceType then MappedValue(ScopusDocTypes, "DOCTYPE", e.value)
      else if e.AttrExpr? && e.kind == SubjectArea then MappedValue(ScopusSubjectAreas, "SUBJAREA", e.value)
      else if e.AttrExpr? && e.kind == Language then "LANGUAGE(\"" + e.value + "\")"
      else if e.AttrExpr? && e.kind == AuthorKeys then "AUTHKEY(\"" + e.value + "\")"
      else ToStr(e)
  }

  /** A year passes "PUBYEAR AFT lo AND PUBYEAR BEF hi". */
  predicate PassesAftBef(lo: int, hi: int, year: int)
  {
    lo < year < hi
  }

  /** A Scopus year range reads back as "after start - 1 and before end + 1": a year
      passes both tests exactly when it lies between start and end, both included. */
  lemma ScopusYearRangeInclusive(y: Expr)
    requires y.YearRangeExpr? && 1 <= y.start && 0 <= y.end
    ensures var r := ScopusStringify(Term(y));
      var a, b := NatToString(y.start - 1), NatToString(y.end + 1);
      var i := 13 + |a|;
      |r| == i + 18 + |b| && r[..13] == "(PUBYEAR AFT " && r[13..i] == a &&
      r[i..i + 17] == " AND PUBYEAR BEF " && r[i + 17..|r| - 1] == b && r[|r| - 1] == ')' &&
      IsDigits(a) && IsDigits(b) &&
      DigitsValue(a) == y.start - 1 && DigitsValue(b) == y.end + 1 &&
      forall year :: PassesAftBef(DigitsValue(a), DigitsValue(b), year) <==> y.start <= year <= y.end
  {
    var a, b := NatToString(y.start - 1), NatToString(y.end + 1);
    DigitsValueOfNatToString(y.start - 1);
    DigitsValueOfNatToString(y.end + 1);
    var r := "(PUBYEAR AFT " + a + " AND PUBYEAR BEF " + b + ")";
    assert ScopusStringify(Term(y)) == r;
    TreeEmitters.FramedSlices("(PUBYEAR AFT ", a, " AND PUBYEAR BEF ", b, ")");
  }

  /** Document types, subject areas, languages and author keywords are written as
      CODE("v") under their Scopus field codes; document types and subject areas go
      through their tables, and a value outside the table is written as it is. */
  lemma ScopusFieldCodes(e: Expr)
    requires e.AttrExpr? && e.kind in {EvidenceType, SubjectArea, Language, AuthorKeys}
    ensures var r := ScopusStringify(Term(e));
      EndsWith(r, "\")") &&
      (e.kind == EvidenceType ==> (StartsWith(r, "DOCTYPE(\"") &&
        r[9..|r| - 2] == (if e.value in ScopusDocTypes then ScopusDocTypes[e.value] else e.value))) &&
      (e.kind == SubjectArea ==> (StartsWith(r, "SUBJAREA(\"") &&
        r[10..|r| - 2] == (if e.value in ScopusSubjectAreas then ScopusSubjectAreas[e.value] else e.value))) &&
      (e.kind == Language ==> StartsWith(r, "LANGUAGE(\"") && r[10..|r| - 2] == e.value) &&
      (e.kind == AuthorKeys ==> StartsWith(r, "AUTHKEY(\"") && r[9..|r| - 2] == e.value)
  {
    if e.kind == Language {
      assert ScopusStringify(Term(e)) == Framed("LANGUAGE(\"", e.value, "\")");
    } else if e.kind == AuthorKeys {
      assert ScopusStringify(Term(e)) == Framed("AUTHKEY(\"", e.value, "\")");
    }
  }

  /** The stringified entries of a buffer, in order. */
  function ScopusStrings(buf: seq<Item>): (r: seq<string>)
    ensures |r| == |buf| && forall k :: 0 <= k < |buf| ==> r[k] == ScopusStringify(buf[k])
  {
    seq(|buf|, k requires 0 <= k < |buf| => ScopusStringify(buf[k]))
  }

  predicate IsAttrTerm(item: Item)
  {
    item.Term? && item.term.AttrExpr?
  }

  /** The buffer's attribute values and attribute names, as sets. */
  function Values(buf: seq<Item>): set<string>
  {
    set k | 0 <= k < |buf| && IsAttrTerm(buf[k]) :: buf[k].term.value
  }

  function Fields(buf: seq<Item>): set<string>
  {
    set k | 0 <= k < |buf| && IsAttrTerm(buf[k]) :: buf[k].term.name
  }

  /** The buffer is all attribute terms, naming both title and abstract, with one
      value between them. */
  predicate TitleAbsForm(buf: seq<Item>)
  {
    (forall k :: 0 <= k < |buf| ==> IsAttrTerm(buf[k])) &&
    TitleAttr in Fields(buf) && AbstractAttr in Fields(buf) && |Values(buf)| == 1
  }

  /** Scopus's title-or-abstract field over one value: TITLE-ABS("v"). */
  function TitleAbsField(v: string): (r: string)
    ensures StartsWith(r, "TITLE-ABS(\"") && EndsWith(r, "\")")
    ensures |r| == |v| + 13 && r[11..|r| - 2] == v
  {
    var r := "TITLE-ABS(\"" + v + "\")";
    assert r[..11] == "TITLE-ABS(\"" && r[|r| - 2..] == "\")";
    r
  }

  /** Scopus `_extract_group_str`: TITLE-ABS("v") for a title-and-abstract group over one
      value, otherwise the stringified entries joined with the operator in parentheses. */
  function ScopusGroupStr(buf: seq<Item>, op: Op): (r: string)
    ensures TitleAbsForm(buf) ==>
      (buf != [] && r == TitleAbsField(buf[0].term.value))
    ensures !TitleAbsForm(buf) ==> StartsWith(r, "(") && EndsWith(r, ")")
    ensures !TitleAbsForm(buf) ==> r == "(" + Join(" " + OpUpper(op) + " ", ScopusStrings(buf)) + ")"
  {
    if TitleAbsForm(buf) then
      assert buf[0].term.name in Fields(buf);
      var v := buf[0].term.value;
      TitleAbsField(v)
    else
      var r := "(" + Join(" " + OpUpper(op) + " ", ScopusStrings(buf)) + ")";
      assert r[..1] == "(" && r[|r| - 1..] == ")";
      r
  }

  /** A group holding only one nested group's text is that text in parentheses. */
  lemma ScopusGroupOfOneText(t: string, op: Op)
    ensures ScopusGroupStr([Text(t)], op) == "(" + t + ")"
  {
    var buf := [Text(t)];
    assert !TitleAbsForm(buf) by {
      assert !IsAttrTerm(buf[0]);
    }
    assert ScopusStrings(buf) == [t];
  }

  /** The single value of a title-and-abstract group is the value every entry has. */
  lemma TitleAbsValue(buf: seq<Item>)
    requires TitleAbsForm(buf)
    ensures forall k :: 0 <= k < |buf| ==> buf[k].term.value == buf[0].term.value
  {
    assert buf[0].term.name in Fields(buf);
    var v := buf[0].term.value;
    assert v in Values(buf);
    assert |Values(buf) - {v}| == 0;
    forall k | 0 <= k < |buf|
      ensures buf[k].term.value == v
    {
      assert buf[k].term.value in Values(buf);
    }
  }

  const XploreNames: map<string, string> := map[TitleAttr := "Document Title", AbstractAttr := "Abstract",
    KeysAttr := "Author Keywords"]
  const XploreDocTypes: map<string, string> := map["journal" := "Journals", "proceedings" := "Conferences"]

  /** The entries that become Xplore query clauses: nested groups' texts and attribute
      terms whose name has an Xplore field, document types excepted. */
  predicate IsXploreClause(item: Item)
  {
    item.Text? ||
    (item.term.AttrExpr? && item.term.kind != EvidenceType && item.term.name in XploreNames)
  }

  /** Xplore `_stringify`: texts pass through; a term is its quoted field name, a colon
      and its value, quoted unless it has a wildcard. */
  function XploreStringify(item: Item): (r: string)
    requires IsXploreClause(item)
    ensures item.Text? ==> r == item.text
    ensures item.Term? ==> StartsWith(r, "\"" + XploreNames[item.term.name] + "\":")
    ensures item.Term? && TreeEmitters.HasWildcard(item.term.value) ==>
      r == "\"" + XploreNames[item.term.name] + "\":" + item.term.value
    ensures item.Term? && !TreeEmitters.HasWildcard(item.term.value) ==>
      r == "\"" + XploreNames[item.term.name] + "\":" + "\"" + item.term.value + "\""
  {
    match item
    case Text(t) => t
    case Term(e) =>
      var prefix := "\"" + XploreNames[e.name] + "\":";
      var value := if '*' in e.value || '?' in e.value then e.value else "\"" + e.value + "\"";
      assert (prefix + value)[..|prefix|] == prefix;
      prefix + value
  }

  /** The loop of Xplore's `_extract_group_str`: the clause entries in order, the
      document types added to the set, and the last year range kept. */
  function XploreScan(buf: seq<Item>, ctx: Ctx): (r: (seq<Item>, Ctx))
    ensures forall k :: 0 <= k < |r.0| ==> IsXploreClause(r.0[k])
  {
    if buf == [] then ([], ctx)
    else
      var (clauses, c) := XploreScan(buf[..|buf| - 1], ctx);
      var item := buf[|buf| - 1];
      if IsDocTypeTerm(item) then
        (clauses, Ctx(c.docTypes + {item.term.value}, c.yearRange))
      else if IsXploreClause(item) then (clauses + [item], c)
      else if item.Term? && item.term.YearRangeExpr? then (clauses, Ctx(c.docTypes, Some((item.term.start, item.term.end))))
      else (clauses, c)
  }

  /** The document-type values of a buffer. */
  function DocTypeValues(buf: seq<Item>): set<string>
  {
    set k | 0 <= k < |buf| && IsDocTypeTerm(buf[k]) :: buf[k].term.value
  }

  /** The last year range of a buffer, if any. */
  function LastYearRange(buf: seq<Item>): Option<(int, int)>
  {
    if buf == [] then None
    else
      var item := buf[|buf| - 1];
      if item.Term? && item.term.YearRangeExpr? then Some((item.term.start, item.term.end))
      else LastYearRange(buf[..|buf| - 1])
  }

  predicate IsDocTypeTerm(item: Item)
  {
    item.Term? && item.term.AttrExpr? && item.term.kind == EvidenceType
  }

  lemma DocTypeValuesSnoc(init: seq<Item>, item: Item)
    ensures DocTypeValues(init + [item]) ==
      DocTypeValues(init) + (if IsDocTypeTerm(item) then {item.term.value} else {})
  {
    var buf := init + [item];
    forall x | x in DocTypeValues(buf)
      ensures x in DocTypeValues(init) || (IsDocTypeTerm(item) && x == item.term.value)
    {
      var k :| 0 <= k < |buf| && IsDocTypeTerm(buf[k]) && buf[k].term.value == x;
      if k < |init| {
        assert init[k] == buf[k];
      }
    }
    forall x | x in DocTypeValues(init)
      ensures x in DocTypeValues(buf)
    {
      var k :| 0 <= k < |init| && IsDocTypeTerm(init[k]) && init[k].term.value == x;
      assert buf[k] == init[k];
    }
    if IsDocTypeTerm(item) {
      assert buf[|init|] == item;
    }
  }

  /** The scan keeps exactly the clause entries, in order. */
  lemma {:induction false} XploreScanClauses(buf: seq<Item>, ctx: Ctx)
    ensures XploreScan(buf, ctx).0 == Seqs.Filter(buf, IsXploreClause)
  {
    if buf != [] {
      var init, item := buf[..|buf| - 1], buf[|buf| - 1];
      XploreScanClauses(init, ctx);
      assert buf == init + [item];
      Seqs.FilterAppend(init, item, IsXploreClause);
    }
  }

  /** The scan adds exactly the buffer's document types to the set. */
  lemma {:induction false} XploreScanDocTypes(buf: seq<Item>, ctx: Ctx)
    ensures XploreScan(buf, ctx).1.docTypes == ctx.docTypes + DocTypeValues(buf)
  {
    if buf != [] {
      var init, item := buf[..|buf| - 1], buf[|buf| - 1];
      XploreScanDocTypes(init, ctx);
      assert buf == init + [item];
      DocTypeValuesSnoc(init, item);
    }
  }

  /** The year range the scan keeps is the buffer's last, or the earlier one when the
      buffer has none. */
  lemma {:induction false} XploreScanYearRange(buf: seq<Item>, ctx: Ctx)
    ensures XploreScan(buf, ctx).1.yearRange ==
      if LastYearRange(buf).Some? then LastYearRange(buf) else ctx.yearRange
  {
    if buf != [] {
      XploreScanYearRange(buf[..|buf| - 1], ctx);
    }
  }

  /** The stringified clauses, in order. */
  function XploreStrings(clauses: seq<Item>): (r: seq<string>)
    requires forall k :: 0 <= k < |clauses| ==> IsXploreClause(clauses[k])
    ensures |r| == |clauses| && forall k :: 0 <= k < |clauses| ==> r[k] == XploreStringify(clauses[k])
  {
    seq(|clauses|, k requires 0 <= k < |clauses| => XploreStringify(clauses[k]))
  }

  /** Xplore `_extract_group_str`: the clauses joined with the operator in parentheses,
      or "" when there are none; the side state as the scan leaves it. */
  function XploreGroupStr(buf: seq<Item>, op: Op, ctx: Ctx): (r: (string, Ctx))
    ensures r.1 == XploreScan(buf, ctx).1
    ensures XploreScan(buf, ctx).0 == [] ==> r.0 == ""
    ensures r.0 != "" ==> StartsWith(r.0, "(") && EndsWith(r.0, ")")
    ensures var text := Join(" " + OpUpper(op) + " ", XploreStrings(XploreScan(buf, ctx).0));
      r.0 == if |text| > 0 then "(" + text + ")" else ""
  {
    var (clauses, c) := XploreScan(buf, ctx);
    var text := Join(" " + OpUpper(op) + " ", XploreStrings(clauses));
    if |text| > 0 then
      var r := "(" + text + ")";
      assert r[..1] == "(" && r[|r| - 1..] == ")";
      (r, c)
    else ("", c)
  }

  /** `_extract_group_str` of either subclass. */
  function GroupStr(kind: FlatKind, buf: seq<Item>, op: Op, ctx: Ctx): (string, Ctx)
  {
    match kind
    case Scopus => (ScopusGroupStr(buf, op), ctx)
    case Xplore => XploreGroupStr(buf, op, ctx)
  }

  /** One visitor call; None when the call finds the stack empty. */
  function FlatStep(kind: FlatKind, s: FlatState, ev: Event): Option<FlatState>
  {
    match ev
    case StartGroup(_) => Some(FlatState(PushBuffer(s.stack), s.output, s.ctx))
    case VisitTerm(t) => if s.stack == [] then None else Some(FlatState(AppendTop(s.stack, Term(t)), s.output, s.ctx))
    case EndGroup(op) =>
      if s.stack == [] then None
      else
        var (rest, buf) := PopBuffer(s.stack);
        var (text, c) := GroupStr(kind, buf, op, s.ctx);
        Some(Write(FlatState(rest, s.output, c), text))
  }

  function FlatRun(kind: FlatKind, s: FlatState, evs: seq<Event>): Option<FlatState>
  {
    if evs == [] then Some(s)
    else
      var r := FlatRun(kind, s, evs[..|evs| - 1]);
      if r.None? then None else FlatStep(kind, r.value, evs[|evs| - 1])
  }

  lemma {:induction false} FlatRunAppend(kind: FlatKind, s: FlatState, a: seq<Event>, b: seq<Event>)
    ensures FlatRun(kind, s, a + b) ==
      (if FlatRun(kind, s, a).None? then None else FlatRun(kind, FlatRun(kind, s, a).value, b))
  {
    if b == [] {
      assert a + b == a;
    } else {
      FlatRunAppend(kind, s, a, b[..|b| - 1]);
      assert (a + b)[..|a + b| - 1] == a + b[..|b| - 1];
    }
  }

  lemma FlatRunThen(kind: FlatKind, s: FlatState, a: seq<Event>, b: seq<Event>, mid: FlatState, fin: FlatState)
    requires FlatRun(kind, s, a) == Some(mid) && FlatRun(kind, mid, b) == Some(fin)
    ensures FlatRun(kind, s, a + b) == Some(fin)
  {
    FlatRunAppend(kind, s, a, b);
  }

  lemma FlatRunOne(kind: FlatKind, s: FlatState, ev: Event)
    ensures FlatRun(kind, s, [ev]) == FlatStep(kind, s, ev)
  {
    assert [ev][..0] == [];
  }

  /** What visiting a subtree adds to the enclosing buffer, and the side state after:
      a term itself, or a closed group's text (nothing when that text is empty). */
  function Contribution(kind: FlatKind, ctx: Ctx, e: Expr): (seq<Item>, Ctx)
    decreases e, 1
  {
    if e.NaryExpr? then
      var (items, c) := ChildContributions(kind, ctx, e.children);
      var (text, c2) := GroupStr(kind, items, e.op, c);
      (if |text| > 0 then [Text(text)] else [], c2)
    else ([Term(e)], ctx)
  }

  function ChildContributions(kind: FlatKind, ctx: Ctx, es: seq<Expr>): (seq<Item>, Ctx)
    decreases es, 0
  {
    if es == [] then ([], ctx)
    else
      var (items, c) := ChildContributions(kind, ctx, es[..|es| - 1]);
      var (more, c2) := Contribution(kind, c, es[|es| - 1]);
      (items + more, c2)
  }

  lemma OneChildContribution(kind: FlatKind, ctx: Ctx, e: Expr)
    ensures ChildContributions(kind, ctx, [e]) == Contribution(kind, ctx, e)
  {
    assert [e][..0] == [];
    var (more, c) := Contribution(kind, ctx, e);
    assert [] + more == more;
  }

  /** Visiting a subtree inside an open group adds its contribution to the top buffer
      and leaves the output alone. */
  lemma {:induction false} VisitInsideGroup(kind: FlatKind, s: FlatState, e: Expr)
    requires s.stack != []
    ensures var (items, c) := Contribution(kind, s.ctx, e);
      FlatRun(kind, s, Events(e)) == Some(FlatState(AppendTopAll(s.stack, items), s.output, c))
    decreases e, 1
  {
    if e.NaryExpr? {
      var pushed := FlatState(PushBuffer(s.stack), s.output, s.ctx);
      FlatRunOne(kind, s, StartGroup(e.op));
      VisitChildren(kind, pushed, e.children);
      var inner := ChildContributions(kind, s.ctx, e.children);
      var filled := FlatState(AppendTopAll(pushed.stack, inner.0), s.output, inner.1);
      CloseGroup(kind, s, e.op, inner.0, inner.1);
      GroupRun(kind, s, e, filled);
      var g := GroupStr(kind, inner.0, e.op, inner.1);
      WriteInside(FlatState(s.stack, s.output, g.1), g.0);
    } else {
      FlatRunOne(kind, s, AdapterStack.VisitTerm(e));
    }
  }

  /** Inside an open group, a write adds the value's text to the top buffer, or nothing
      for an empty value. */
  lemma WriteInside(s: FlatState, value: string)
    requires s.stack != []
    ensures Write(s, value) == FlatState(AppendTopAll(s.stack, if |value| > 0 then [Text(value)] else []), s.output, s.ctx)
  {
    if |value| == 0 {
      assert s.stack[|s.stack| - 1] + [] == s.stack[|s.stack| - 1];
      assert AppendTopAll(s.stack, []) == s.stack;
    }
  }

  /** The run of a group's calls, in its three parts. */
  lemma GroupRun(kind: FlatKind, s: FlatState, e: Expr, mid: FlatState)
    requires e.NaryExpr?
    requires FlatRun(kind, s, [StartGroup(e.op)]) == Some(FlatState(PushBuffer(s.stack), s.output, s.ctx))
    requires FlatRun(kind, FlatState(PushBuffer(s.stack), s.output, s.ctx), EventsOf(e.children)) == Some(mid)
    ensures FlatRun(kind, s, Events(e)) == FlatStep(kind, mid, EndGroup(e.op))
  {
    FlatRunAppend(kind, s, [StartGroup(e.op)], EventsOf(e.children));
    FlatRunAppend(kind, s, [StartGroup(e.op)] + EventsOf(e.children), [EndGroup(e.op)]);
    FlatRunOne(kind, mid, EndGroup(e.op));
  }

  /** Closing a group whose buffer was pushed onto `s` and then filled with `items`. */
  lemma CloseGroup(kind: FlatKind, s: FlatState, op: Op, items: seq<Item>, c: Ctx)
    ensures var (text, c2) := GroupStr(kind, items, op, c);
      FlatStep(kind, FlatState(AppendTopAll(PushBuffer(s.stack), items), s.output, c), EndGroup(op)) ==
        Some(Write(FlatState(s.stack, s.output, c2), text))
  {
    var filled := AppendTopAll(PushBuffer(s.stack), items);
    assert filled[..|s.stack|] == s.stack && filled[|s.stack|] == [] + items == items;
    assert filled == s.stack + [items];
    assert PopBuffer(filled) == (s.stack, items);
  }

  lemma {:induction false} VisitChildren(kind: FlatKind, s: FlatState, es: seq<Expr>)
    requires s.stack != []
    ensures var (items, c) := ChildContributions(kind, s.ctx, es);
      FlatRun(kind, s, EventsOf(es)) == Some(FlatState(AppendTopAll(s.stack, items), s.output, c))
    decreases es, 0
  {
    var n := |s.stack| - 1;
    if es == [] {
      assert s.stack[n] + [] == s.stack[n];
      assert AppendTopAll(s.stack, []) == s.stack;
    } else {
      var init, last := es[..|es| - 1], es[|es| - 1];
      VisitChildren(kind, s, init);
      var (items, c) := ChildContributions(kind, s.ctx, init);
      var mid := FlatState(AppendTopAll(s.stack, items), s.output, c);
      VisitInsideGroup(kind, mid, last);
      FlatRunAppend(kind, s, EventsOf(init), Events(last));
      var (more, c2) := Contribution(kind, c, last);
      AppendTopAllTwice(s.stack, items, more);
    }
  }

  /** Visiting a whole query from depth zero appends the root group's text to the
      output and leaves the stack empty. */
  lemma VisitFromDepthZero(kind: FlatKind, s: FlatState, e: Expr)
    requires s.stack == [] && e.NaryExpr?
    ensures var (items, c) := ChildContributions(kind, s.ctx, e.children);
      var (text, c2) := GroupStr(kind, items, e.op, c);
      FlatRun(kind, s, Events(e)) == Some(FlatState([], s.output + text, c2))
  {
    var pushed := FlatState(PushBuffer(s.stack), s.output, s.ctx);
    FlatRunOne(kind, s, StartGroup(e.op));
    VisitChildren(kind, pushed, e.children);
    var (items, c) := ChildContributions(kind, s.ctx, e.children);
    CloseGroup(kind, s, e.op, items, c);
    GroupRun(kind, s, e, FlatState(AppendTopAll(pushed.stack, items), s.output, c));
    var (text, c2) := GroupStr(kind, items, e.op, c);
    if |text| == 0 {
      assert s.output + text == s.output;
    }
  }

  /** Scopus writes a title-or-abstract group over one value as TITLE-ABS; so does a
      title-abstract-keywords group, whose author-keywords term is then not searched. */
  lemma ScopusTitleAbs(ctx: Ctx, v: string, withKeys: bool)
    ensures var e := if withKeys then TitleAbsKeys(v) else TitleAbs(v);
      Contribution(Scopus, ctx, e) == ([Text(TitleAbsField(v))], ctx)
  {
    var e := if withKeys then TitleAbsKeys(v) else TitleAbs(v);
    ChildTerms(ctx, e.children);
    var items := ChildContributions(Scopus, ctx, e.children).0;
    assert items[0].term.name in Fields(items) && items[1].term.name in Fields(items);
    assert Values(items) == {v} by {
      assert items[0].term.value in Values(items);
    }
    assert TitleAbsForm(items);
  }

  /** A buffer of leaves contributes each leaf as a term, in order. */
  lemma {:induction false} ChildTerms(ctx: Ctx, es: seq<Expr>)
    requires forall k :: 0 <= k < |es| ==> !es[k].NaryExpr?
    ensures var r := ChildContributions(Scopus, ctx, es);
      r.1 == ctx && |r.0| == |es| && forall k :: 0 <= k < |es| ==> r.0[k] == Term(es[k])
  {
    if es != [] {
      ChildTerms(ctx, es[..|es| - 1]);
    }
  }

  /** `result()`: Scopus returns the output text; Xplore returns the output as
      query_text, the mapped document types when there are any, and the last year
      range's bounds when there was one. */
  datatype FlatResult =
    | ScopusText(text: string)
    | XploreParams(queryText: string, contentType: Option<set<string>>, years: Option<(int, int)>)

  function MappedDocTypes(docTypes: set<string>): set<string>
  {
    set d | d in docTypes && d in XploreDocTypes :: XploreDocTypes[d]
  }

  function FlatResultOf(kind: FlatKind, s: FlatState): (r: FlatResult)
    ensures kind.Scopus? ==> r == ScopusText(s.output)
    ensures kind.Xplore? ==> r.XploreParams? && r.queryText == s.output && r.years == s.ctx.yearRange
    ensures kind.Xplore? ==> (r.contentType.Some? <==> exists d :: d in s.ctx.docTypes && d in XploreDocTypes)
  {
    match kind
    case Scopus => ScopusText(s.output)
    case Xplore =>
      var mapped := MappedDocTypes(s.ctx.docTypes);
      assert (exists d :: d in s.ctx.docTypes && d in XploreDocTypes) ==> mapped != {} by {
        if exists d :: d in s.ctx.docTypes && d in XploreDocTypes {
          var d :| d in s.ctx.docTypes && d in XploreDocTypes;
          assert XploreDocTypes[d] in mapped;
        }
      }
      XploreParams(s.output, if |mapped| > 0 then Some(mapped) else None, s.ctx.yearRange)
  }

  class FlatOutputAdapter {
    const kind: FlatKind
    var stack: seq<seq<Item>>
    var output: string
    var docTypes: set<string>
    var yearRange: Option<(int, int)>

    constructor (kind: FlatKind)
      ensures this.kind == kind && State() == FlatState([], "", Ctx({}, None))
    {
      this.kind := kind;
      stack := [];
      output := "";
      docTypes := {};
      yearRange := None;
    }

    function State(): FlatState
      reads this
    {
      FlatState(stack, output, Ctx(docTypes, yearRange))
    }

    method VisitStartGroup(op: Op)
      modifies this
      ensures Some(State()) == FlatStep(kind, old(State()), StartGroup(op))
    {
      stack := stack + [[]];
    }

    /** Requires an open group: on an empty stack the source raises IndexError. */
    method VisitTerm(term: Expr)
      requires stack != []
      modifies this
      ensures Some(State()) == FlatStep(kind, old(State()), AdapterStack.VisitTerm(term))
    {
      stack := stack[..|stack| - 1] + [stack[|stack| - 1] + [Term(term)]];
    }

    /** Requires an open group: on an empty stack the source raises IndexError. */
    method VisitEndGroup(op: Op)
      requires stack != []
      modifies this
      ensures Some(State()) == FlatStep(kind, old(State()), EndGroup(op))
    {
      var buf := stack[|stack| - 1];
      stack := stack[..|stack| - 1];
      ProcessCurrentBuffer(buf, op);
    }

    /** `_process_current_buffer`: writes exactly the group's text. */
    method ProcessCurrentBuffer(buf: seq<Item>, op: Op)
      modifies this
      ensures var (text, c) := GroupStr(kind, buf, op, old(State()).ctx);
        State() == Write(FlatState(old(stack), old(output), c), text)
    {
      var text: string;
      if kind == Scopus {
        text := ScopusGroupStr(buf, op);
      } else {
        text := ExtractXploreGroup(buf, op);
      }
      WriteValue(text);
    }

    /** Xplore's `_extract_group_str`, updating the document-type set and the year range
      as it scans the buffer. */
    method ExtractXploreGroup(buf: seq<Item>, op: Op) returns (text: string)
      modifies this
      ensures (text, Ctx(docTypes, yearRange)) == XploreGroupStr(buf, op, old(Ctx(docTypes, yearRange)))
      ensures stack == old(stack) && output == old(output)
    {
      ghost var ctx0 := Ctx(docTypes, yearRange);
      var clauses: seq<Item> := [];
      var i := 0;
      while i < |buf|
        invariant 0 <= i <= |buf|
        invariant stack == old(stack) && output == old(output)
        invariant (clauses, Ctx(docTypes, yearRange)) == XploreScan(buf[..i], ctx0)
      {
        var item := buf[i];
        assert buf[..i + 1][..i] == buf[..i];
        if IsDocTypeTerm(item) {
          docTypes := docTypes + {item.term.value};
        } else if IsXploreClause(item) {
          clauses := clauses + [item];
        } else if item.Term? && item.term.YearRangeExpr? {
          yearRange := Some((item.term.start, item.term.end));
        }
        i := i + 1;
      }
      assert buf[..i] == buf;
      var queryText := Join(" " + OpUpper(op) + " ", seq(|clauses|, k requires 0 <= k < |clauses| => XploreStringify(clauses[k])));
      text := if |queryText| > 0 then "(" + queryText + ")" else "";
    }

    /** `_write`. */
    method WriteValue(value: string)
      modifies this
      ensures State() == Write(old(State()), value)
    {
      if |value| < 1 {
        return;
      }
      if |stack| > 0 {
        stack := stack[..|stack| - 1] + [stack[|stack| - 1] + [Text(value)]];
      } else {
        output := output + value;
      }
    }

    method Result() returns (r: FlatResult)
      ensures r == FlatResultOf(kind, State())
    {
      if kind == Scopus {
        return ScopusText(output);
      }
      var mapped := MappedDocTypes(docTypes);
      r := XploreParams(output, if |mapped| > 0 then Some(mapped) else None, yearRange);
    }
  }
}
