/** `QueryBuilder`: a fluent builder that grows an AND group of search terms and hands
    the tree to an adapter, which it walks with `_visit`. */
module QueryBuilding {
  import opened Wrappers
  import opened Strings
  import opened SearchExpr
  import opened AdapterStack
  import opened TreeEmitters
  import ET = ExprTreeAdapters
  import FO = FlatOutputAdapters

  /** `and_group`: an AND group over the given children, in order. */
  function AndGroup(children: seq<Expr>): (r: Expr)
    ensures r.NaryExpr? && r.op == And && r.attr == None && r.children == children
    ensures Leaves(r) == LeavesOf(children)
  {
    NaryExpr(And, children, None)
  }

  /** `or_group`: an OR group over the given children, in order. */
  function OrGroup(children: seq<Expr>): (r: Expr)
    ensures r.NaryExpr? && r.op == Or && r.attr == None && r.children == children
    ensures Leaves(r) == LeavesOf(children)
  {
    NaryExpr(Or, children, None)
  }

  /** The term `_add_one_or_more` adds: nothing for no values, the single attribute term
      for one value, an OR group over all of them otherwise. Either way the leaves are
      one attribute term per value, in the order given. */
  function OneOrMore(kind: AttrKind, values: seq<string>): (r: Option<Expr>)
    requires kind != Plain
    ensures r.None? <==> values == []
    ensures |values| == 1 ==> r == Some(Attr(kind, values[0]))
    ensures r.Some? ==> Leaves(r.value) == seq(|values|, k requires 0 <= k < |values| => Attr(kind, values[k]))
  {
    if |values| < 1 then None
    else if |values| == 1 then
      assert [Attr(kind, values[0])] == seq(|values|, k requires 0 <= k < |values| => Attr(kind, values[k]));
      Some(Attr(kind, values[0]))
    else
      var e := AnyOf(kind, values);
      LeavesOfTerms(e.children);
      Some(e)
  }

  /** A sequence of terms is its own list of leaves. */
  lemma {:induction false} LeavesOfTerms(es: seq<Expr>)
    requires forall k :: 0 <= k < |es| ==> !es[k].NaryExpr?
    ensures LeavesOf(es) == es
  {
    if es != [] {
      LeavesOfTerms(es[..|es| - 1]);
      assert es[..|es| - 1] + [es[|es| - 1]] == es;
    }
  }

  /** The query `build` returns for a flat adapter, from the builder's tree. */
  function FlatQuery(kind: FO.FlatKind, e: Expr): FO.FlatResult
    requires e.NaryExpr?
  {
    var (items, c) := FO.ChildContributions(kind, FO.Ctx({}, None), e.children);
    var (text, c2) := FO.GroupStr(kind, items, e.op, c);
    FO.FlatResultOf(kind, FO.FlatState([], text, c2))
  }

  /** A Scopus query over one title-or-abstract term is that term's TITLE-ABS field in
      parentheses; a title-abstract-keywords term gives the same query. */
  lemma ScopusTitleAbsQuery(v: string, withKeys: bool)
    ensures var term := if withKeys then TitleAbsKeys(v) else TitleAbs(v);
      FlatQuery(FO.Scopus, AndGroup([term])) == FO.ScopusText("(" + FO.TitleAbsField(v) + ")")
  {
    var term := if withKeys then TitleAbsKeys(v) else TitleAbs(v);
    var t := FO.TitleAbsField(v);
    FO.ScopusTitleAbs(FO.Ctx({}, None), v, withKeys);
    ScopusQueryOfOneGroup(term, t);
  }

  /** A Scopus query over one term that contributes a text is that text in parentheses. */
  lemma ScopusQueryOfOneGroup(term: Expr, t: string)
    requires FO.Contribution(FO.Scopus, FO.Ctx({}, None), term) == ([FO.Text(t)], FO.Ctx({}, None))
    ensures FlatQuery(FO.Scopus, AndGroup([term])) == FO.ScopusText("(" + t + ")")
  {
    FO.OneChildContribution(FO.Scopus, FO.Ctx({}, None), term);
    FO.ScopusGroupOfOneText(t, And);
  }

  class QueryBuilder {
    /** The children of the builder's root AND group. */
    var children: seq<Expr>

    constructor ()
      ensures children == []
    {
      children := [];
    }

    /** The builder's tree: one AND group over everything added so far. */
    function Tree(): (r: Expr)
      reads this
      ensures r.NaryExpr? && r.op == And && r.attr == None && r.children == children
    {
      AndGroup(children)
    }

    /** `__str__`: the tree's rendering. */
    function ToString(): (r: string)
      reads this
      ensures StartsWith(r, "(") && EndsWith(r, ")")
    {
      var r := ToStr(Tree());
      assert r == "(" + Join(" " + OpText(And) + " ", ChildStrings(children)) + ")";
      assert r[..1] == "(" && r[|r| - 1..] == ")";
      r
    }

    /** `groups`: adds each group, in order. */
    method Groups(groups: seq<Expr>)
      modifies this
      ensures children == old(children) + groups
    {
      var i := 0;
      while i < |groups|
        invariant 0 <= i <= |groups|
        invariant children == old(children) + groups[..i]
      {
        children := Add(Tree(), groups[i]).children;
        assert groups[..i + 1] == groups[..i] + [groups[i]];
        i := i + 1;
      }
      assert groups[..i] == groups;
    }

    /** `year_range`. */
    method YearRange(start: int, end: int)
      modifies this
      ensures children == old(children) + [YearRangeExpr(start, end)]
    {
      children := Add(Tree(), YearRangeExpr(start, end)).children;
    }

    /** `_add_one_or_more`: adds nothing for no values. */
    method AddOneOrMore(kind: AttrKind, values: seq<string>)
      requires kind != Plain
      modifies this
      ensures children == old(children) + (if values == [] then [] else [OneOrMore(kind, values).value])
    {
      if |values| < 1 {
        return;
      }
      var e := if |values| == 1 then Attr(kind, values[0]) else AnyOf(kind, values);
      children := Add(Tree(), e).children;
    }

    method SubjectAreas(values: seq<string>)
      modifies this
      ensures children == old(children) + (if values == [] then [] else [OneOrMore(SubjectArea, values).value])
    {
      AddOneOrMore(SubjectArea, values);
    }

    method DocTypes(values: seq<string>)
      modifies this
      ensures children == old(children) + (if values == [] then [] else [OneOrMore(EvidenceType, values).value])
    {
      AddOneOrMore(EvidenceType, values);
    }

    method Languages(values: seq<string>)
      modifies this
      ensures children == old(children) + (if values == [] then [] else [OneOrMore(Language, values).value])
    {
      AddOneOrMore(Language, values);
    }

    method Keywords(values: seq<string>)
      modifies this
      ensures children == old(children) + (if values == [] then [] else [OneOrMore(AuthorKeys, values).value])
    {
      AddOneOrMore(AuthorKeys, values);
    }

    /** `build` with a tree-output adapter (plain tree, Web of Science, ACM, ScienceDirect):
        the adapter rebuilds the tree and writes it in its flavour, which succeeds for the
        plain tree always and for the others exactly when the tree has a title term and
        an abstract term. */
    method BuildTree(flavor: Flavor) returns (r: Result<QueryOutput>)
      requires !flavor.Springer?
      ensures r == ET.TreeResult(flavor, Some(ET.Rebuild(Tree())))
      ensures r.Ok? <==>
        (flavor.PlainTree? || (ET.HasLeafFor(Tree(), TitleAttr) && ET.HasLeafFor(Tree(), AbstractAttr)))
    {
      var v := new ET.ExprTreeAdapter(flavor);
      var tree := Tree();
      VisitTree(v, tree);
      ET.VisitFromEmptyStack(ET.TreeState([], None), tree);
      r := v.Result();
      ET.RebuildKeepsLeaves(tree);
      ET.TreeResultSucceeds(flavor, ET.Rebuild(tree));
    }

    /** `build` with a flat-output adapter (Scopus, IEEE Xplore). */
    method BuildFlat(kind: FO.FlatKind) returns (r: FO.FlatResult)
      ensures r == FlatQuery(kind, Tree())
    {
      var v := new FO.FlatOutputAdapter(kind);
      var tree := Tree();
      VisitFlat(v, tree);
      FO.VisitFromDepthZero(kind, FO.FlatState([], "", FO.Ctx({}, None)), tree);
      r := v.Result();
    }
  }

  /** One more child visited inside a group: the run so far extends by that child's calls. */
  lemma TreeLoopStep(s0: ET.TreeState, op: Op, cs: seq<Expr>, i: nat, before: ET.TreeState, after: ET.TreeState)
    requires i < |cs|
    requires ET.TreeRun(s0, [StartGroup(op)] + EventsOf(cs[..i])) == Some(before)
    requires ET.TreeRun(before, Events(cs[i])) == Some(after)
    ensures ET.TreeRun(s0, [StartGroup(op)] + EventsOf(cs[..i + 1])) == Some(after)
  {
    ET.TreeRunAppend(s0, [StartGroup(op)] + EventsOf(cs[..i]), Events(cs[i]));
    EventsOfStep(op, cs, i);
  }

  /** The group's closing call completes the run of a group's calls. */
  lemma TreeGroupEnd(s0: ET.TreeState, e: Expr, mid: ET.TreeState)
    requires e.NaryExpr?
    requires ET.TreeRun(s0, [StartGroup(e.op)] + EventsOf(e.children)) == Some(mid)
    ensures ET.TreeRun(s0, Events(e)) == ET.TreeStep(mid, EndGroup(e.op))
  {
    ET.TreeRunAppend(s0, [StartGroup(e.op)] + EventsOf(e.children), [EndGroup(e.op)]);
    ET.TreeRunOne(mid, EndGroup(e.op));
  }

  lemma FlatLoopStep(kind: FO.FlatKind, s0: FO.FlatState, op: Op, cs: seq<Expr>, i: nat, before: FO.FlatState, after: FO.FlatState)
    requires i < |cs|
    requires FO.FlatRun(kind, s0, [StartGroup(op)] + EventsOf(cs[..i])) == Some(before)
    requires FO.FlatRun(kind, before, Events(cs[i])) == Some(after)
    ensures FO.FlatRun(kind, s0, [StartGroup(op)] + EventsOf(cs[..i + 1])) == Some(after)
  {
    FO.FlatRunThen(kind, s0, [StartGroup(op)] + EventsOf(cs[..i]), Events(cs[i]), before, after);
    EventsOfStep(op, cs, i);
  }

  lemma EventsOfStep(op: Op, cs: seq<Expr>, i: nat)
    requires i < |cs|
    ensures [StartGroup(op)] + EventsOf(cs[..i + 1]) == [StartGroup(op)] + EventsOf(cs[..i]) + Events(cs[i])
  {
    assert cs[..i + 1][..i] == cs[..i];
  }

  lemma FlatGroupEnd(kind: FO.FlatKind, s0: FO.FlatState, e: Expr, mid: FO.FlatState)
    requires e.NaryExpr?
    requires FO.FlatRun(kind, s0, [StartGroup(e.op)] + EventsOf(e.children)) == Some(mid)
    ensures FO.FlatRun(kind, s0, Events(e)) == FO.FlatStep(kind, mid, EndGroup(e.op))
  {
    FO.FlatRunAppend(kind, s0, [StartGroup(e.op)] + EventsOf(e.children), [EndGroup(e.op)]);
    FO.FlatRunOne(kind, mid, EndGroup(e.op));
  }

  /** `_visit` with a tree-output adapter: exactly the calls `Events` lists, in order. */
  method VisitTree(v: ET.ExprTreeAdapter, item: Expr)
    requires v.stack != [] || item.NaryExpr?
    modifies v
    ensures Some(v.State()) == ET.TreeRun(old(v.State()), Events(item))
    decreases item
  {
    ghost var s0 := v.State();
    if item.NaryExpr? {
      v.VisitStartGroup(item.op);
      ET.TreeRunOne(s0, StartGroup(item.op));
      assert item.children[..0] == [];
      var i := 0;
      while i < |item.children|
        invariant 0 <= i <= |item.children|
        invariant |v.stack| == |s0.stack| + 1
        invariant Some(v.State()) == ET.TreeRun(s0, [StartGroup(item.op)] + EventsOf(item.children[..i]))
      {
        ghost var before := v.State();
        VisitTree(v, item.children[i]);
        ET.VisitInsideGroup(before, item.children[i]);
        TreeLoopStep(s0, item.op, item.children, i, before, v.State());
        i := i + 1;
      }
      assert item.children[..i] == item.children;
      TreeGroupEnd(s0, item, v.State());
      v.VisitEndGroup(item.op);
    } else {
      v.VisitTerm(item);
      ET.TreeRunOne(s0, AdapterStack.VisitTerm(item));
    }
  }

  /** `_visit` with a flat-output adapter: exactly the calls `Events` lists, in order. */
  method VisitFlat(v: FO.FlatOutputAdapter, item: Expr)
    requires v.stack != [] || item.NaryExpr?
    modifies v
    ensures Some(v.State()) == FO.FlatRun(v.kind, old(v.State()), Events(item))
    decreases item
  {
    ghost var s0 := v.State();
    if item.NaryExpr? {
      v.VisitStartGroup(item.op);
      FO.FlatRunOne(v.kind, s0, StartGroup(item.op));
      assert item.children[..0] == [];
      var i := 0;
      while i < |item.children|
        invariant 0 <= i <= |item.children|
        invariant |v.stack| == |s0.stack| + 1
        invariant Some(v.State()) == FO.FlatRun(v.kind, s0, [StartGroup(item.op)] + EventsOf(item.children[..i]))
      {
        ghost var before := v.State();
        VisitFlat(v, item.children[i]);
        FO.VisitInsideGroup(v.kind, before, item.children[i]);
        FlatLoopStep(v.kind, s0, item.op, item.children, i, before, v.State());
        i := i + 1;
      }
      assert item.children[..i] == item.children;
      FlatGroupEnd(v.kind, s0, item, v.State());
      v.VisitEndGroup(item.op);
    } else {
      v.VisitTerm(item);
      FO.FlatRunOne(v.kind, s0, AdapterStack.VisitTerm(item));
    }
  }
}
