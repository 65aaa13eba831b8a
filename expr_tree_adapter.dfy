/** `ExprTreeAdapter`: the visitor that rebuilds the query as an expression tree, and
    the key factoring its subclasses serialise: for each attribute name in the tree,
    the part of the tree that concerns that attribute. */
module ExprTreeAdapters {
  import opened Wrappers
  import opened SearchExpr
  import opened AdapterStack
  import opened TreeEmitters
  import Seqs

  /** The adapter's state: its stack of child buffers and the rebuilt root, if any. */
  datatype TreeState = TreeState(stack: seq<seq<Expr>>, root: Option<Expr>)

  /** `_process_current_buffer`: the closed buffer becomes a group with the closed
      group's operator; it joins the parent buffer, or becomes the root at depth zero. */
  function CloseGroup(s: TreeState, op: Op): (r: TreeState)
    requires s.stack != []
  {
    var (rest, children) := PopBuffer(s.stack);
    var node := NaryExpr(op, children, None);
    if rest != [] then TreeState(AppendTop(rest, node), s.root)
    else TreeState([], Some(node))
  }

  /** One visitor call; None when the call finds the stack empty. */
  function TreeStep(s: TreeState, ev: Event): Option<TreeState>
  {
    match ev
    case StartGroup(_) => Some(TreeState(PushBuffer(s.stack), s.root))
    case VisitTerm(t) => if s.stack == [] then None else Some(TreeState(AppendTop(s.stack, t), s.root))
    case EndGroup(op) => if s.stack == [] then None else Some(CloseGroup(s, op))
  }

  function TreeRun(s: TreeState, evs: seq<Event>): Option<TreeState>
  {
    if evs == [] then Some(s)
    else
      var r := TreeRun(s, evs[..|evs| - 1]);
      if r.None? then None else TreeStep(r.value, evs[|evs| - 1])
  }

  lemma {:induction false} TreeRunAppend(s: TreeState, a: seq<Event>, b: seq<Event>)
    ensures TreeRun(s, a + b) == (if TreeRun(s, a).None? then None else TreeRun(TreeRun(s, a).value, b))
  {
    if b == [] {
      assert a + b == a;
    } else {
      TreeRunAppend(s, a, b[..|b| - 1]);
      assert (a + b)[..|a + b| - 1] == a + b[..|b| - 1];
    }
  }

  lemma TreeRunOne(s: TreeState, ev: Event)
    ensures TreeRun(s, [ev]) == TreeStep(s, ev)
  {
    assert [ev][..0] == [];
  }

  /** The tree the adapter rebuilds: the same shape, operators and leaves, with every
      group's `attr` left unset. */
  function Rebuild(e: Expr): (r: Expr)
    ensures r.NaryExpr? <==> e.NaryExpr?
    ensures e.NaryExpr? ==> r.op == e.op && |r.children| == |e.children|
  {
    if e.NaryExpr? then NaryExpr(e.op, RebuildAll(e.children), None) else e
  }

  function RebuildAll(es: seq<Expr>): (r: seq<Expr>)
    ensures |r| == |es|
  {
    if es == [] then [] else RebuildAll(es[..|es| - 1]) + [Rebuild(es[|es| - 1])]
  }

  /** No group of the tree has its `attr` set, as is the case for every tree a
      `QueryBuilder` builds. */
  predicate AttrFree(e: Expr)
  {
    e.NaryExpr? ==> e.attr == None && AllAttrFree(e.children)
  }

  predicate AllAttrFree(es: seq<Expr>)
  {
    es != [] ==> AllAttrFree(es[..|es| - 1]) && AttrFree(es[|es| - 1])
  }

  /** Rebuilding a tree without `attr` marks gives back the same tree. */
  lemma {:induction false} RebuildIdentity(e: Expr)
    requires AttrFree(e)
    ensures Rebuild(e) == e
  {
    if e.NaryExpr? {
      RebuildAllIdentity(e.children);
    }
  }

  lemma {:induction false} RebuildAllIdentity(es: seq<Expr>)
    requires AllAttrFree(es)
    ensures RebuildAll(es) == es
  {
    if es != [] {
      RebuildAllIdentity(es[..|es| - 1]);
      RebuildIdentity(es[|es| - 1]);
    }
  }

  /** Rebuilding keeps every leaf, in order. */
  lemma {:induction false} RebuildKeepsLeaves(e: Expr)
    ensures Leaves(Rebuild(e)) == Leaves(e)
    decreases e, 1
  {
    if e.NaryExpr? {
      RebuildAllKeepsLeaves(e.children);
    }
  }

  lemma {:induction false} RebuildAllKeepsLeaves(es: seq<Expr>)
    ensures LeavesOf(RebuildAll(es)) == LeavesOf(es)
    decreases es, 0
  {
    if es != [] {
      var init := es[..|es| - 1];
      RebuildAllKeepsLeaves(init);
      RebuildKeepsLeaves(es[|es| - 1]);
      assert RebuildAll(es)[..|es| - 1] == RebuildAll(init);
    }
  }

  /** The run of a group's calls, in its three parts. */
  lemma GroupRun(s: TreeState, e: Expr, mid: TreeState, last: TreeState)
    requires e.NaryExpr?
    requires TreeRun(s, [StartGroup(e.op)]) == Some(TreeState(PushBuffer(s.stack), s.root))
    requires TreeRun(TreeState(PushBuffer(s.stack), s.root), EventsOf(e.children)) == Some(mid)
    requires TreeStep(mid, EndGroup(e.op)) == Some(last)
    ensures TreeRun(s, Events(e)) == Some(last)
  {
    TreeRunAppend(s, [StartGroup(e.op)], EventsOf(e.children));
    TreeRunAppend(s, [StartGroup(e.op)] + EventsOf(e.children), [EndGroup(e.op)]);
    TreeRunOne(mid, EndGroup(e.op));
  }

  /** Closing the group whose children were all added to a freshly pushed buffer. */
  lemma CloseFilledGroup(s: TreeState, op: Op, children: seq<Expr>)
    ensures var pushed := PushBuffer(s.stack);
      TreeStep(TreeState(AppendTopAll(pushed, children), s.root), EndGroup(op)) ==
        Some(if s.stack != [] then TreeState(AppendTop(s.stack, NaryExpr(op, children, None)), s.root)
             else TreeState([], Some(NaryExpr(op, children, None))))
  {
    var filled := AppendTopAll(PushBuffer(s.stack), children);
    assert filled[..|s.stack|] == s.stack && filled[|s.stack|] == [] + children == children;
    assert filled == s.stack + [children];
    assert PopBuffer(filled) == (s.stack, children);
  }

  /** Visiting a tree inside an open group adds its rebuilt form to the top buffer and
      changes nothing else. */
  lemma {:induction false} VisitInsideGroup(s: TreeState, e: Expr)
    requires s.stack != []
    ensures TreeRun(s, Events(e)) == Some(TreeState(AppendTop(s.stack, Rebuild(e)), s.root))
    decreases e, 1
  {
    if e.NaryExpr? {
      var pushed := TreeState(PushBuffer(s.stack), s.root);
      TreeRunOne(s, StartGroup(e.op));
      VisitChildren(pushed, e.children);
      CloseFilledGroup(s, e.op, RebuildAll(e.children));
      GroupRun(s, e, TreeState(AppendTopAll(pushed.stack, RebuildAll(e.children)), s.root),
               TreeState(AppendTop(s.stack, Rebuild(e)), s.root));
    } else {
      TreeRunOne(s, AdapterStack.VisitTerm(e));
    }
  }

  lemma {:induction false} VisitChildren(s: TreeState, es: seq<Expr>)
    requires s.stack != []
    ensures TreeRun(s, EventsOf(es)) == Some(TreeState(AppendTopAll(s.stack, RebuildAll(es)), s.root))
    decreases es, 0
  {
    var n := |s.stack| - 1;
    if es == [] {
      assert s.stack[n] + [] == s.stack[n];
      assert AppendTopAll(s.stack, []) == s.stack;
    } else {
      var init, last := es[..|es| - 1], es[|es| - 1];
      VisitChildren(s, init);
      var mid := TreeState(AppendTopAll(s.stack, RebuildAll(init)), s.root);
      VisitInsideGroup(mid, last);
      TreeRunAppend(s, EventsOf(init), Events(last));
      assert RebuildAll(es) == RebuildAll(init) + [Rebuild(last)];
      assert s.stack[n] + RebuildAll(init) + [Rebuild(last)] == s.stack[n] + RebuildAll(es);
      assert AppendTop(mid.stack, Rebuild(last)) == AppendTopAll(s.stack, RebuildAll(es));
    }
  }

  /** Visiting a whole query from an empty stack leaves the stack empty and the rebuilt
      tree as the root. */
  lemma VisitFromEmptyStack(s: TreeState, e: Expr)
    requires s.stack == [] && e.NaryExpr?
    ensures TreeRun(s, Events(e)) == Some(TreeState([], Some(Rebuild(e))))
  {
    var pushed := TreeState(PushBuffer(s.stack), s.root);
    TreeRunOne(s, StartGroup(e.op));
    VisitChildren(pushed, e.children);
    CloseFilledGroup(s, e.op, RebuildAll(e.children));
    GroupRun(s, e, TreeState(AppendTopAll(pushed.stack, RebuildAll(e.children)), s.root),
             TreeState([], Some(Rebuild(e))));
  }

  /** The part of `e` that concerns the attribute `key`: a matching attribute term (or a
      year range, for the year-range key), or a group of the surviving parts; a group
      with one survivor is replaced by it, one with none disappears. */
  function Filtered(e: Expr, key: string): Option<Expr>
    decreases e, 1
  {
    match e
    case AttrExpr(_, name, _) => if name == key then Some(e) else None
    case YearRangeExpr(_, _) => if key == YearRangeKey then Some(e) else None
    case NaryExpr(op, children, _) =>
      var cs := Survivors(children, key);
      if |cs| == 0 then None
      else if |cs| == 1 then Some(cs[0])
      else Some(NaryExpr(op, cs, Some(key)))
    case StrExpr(_) => None
  }

  function Survivors(es: seq<Expr>, key: string): seq<Expr>
    decreases es, 0
  {
    if es == [] then []
    else
      var f := Filtered(es[|es| - 1], key);
      Survivors(es[..|es| - 1], key) + (if f.Some? then [f.value] else [])
  }

  /** The leaves `_filter_by_key` keeps for `key`. */
  predicate MatchesKey(x: Expr, key: string)
  {
    (x.AttrExpr? && x.name == key) || (x.YearRangeExpr? && key == YearRangeKey)
  }

  function KeyMatcher(key: string): Expr -> bool
  {
    (x: Expr) => MatchesKey(x, key)
  }

  /** Filtering by a key keeps exactly the tree's leaves that match the key, in order,
      and gives None exactly when there are none. */
  lemma {:induction false} FilteredKeepsMatchingLeaves(e: Expr, key: string)
    ensures Filtered(e, key).None? <==> Seqs.Filter(Leaves(e), KeyMatcher(key)) == []
    ensures Filtered(e, key).Some? ==> Leaves(Filtered(e, key).value) == Seqs.Filter(Leaves(e), KeyMatcher(key))
    decreases e, 1
  {
    if e.NaryExpr? {
      var cs := Survivors(e.children, key);
      SurvivorsKeepMatchingLeaves(e.children, key);
      if |cs| == 1 {
        assert cs[..0] == [];
        assert LeavesOf(cs) == Leaves(cs[0]);
      }
    } else {
      assert [e][1..] == [];
    }
  }

  lemma {:induction false} SurvivorsKeepMatchingLeaves(es: seq<Expr>, key: string)
    ensures LeavesOf(Survivors(es, key)) == Seqs.Filter(LeavesOf(es), KeyMatcher(key))
    ensures Survivors(es, key) == [] <==> Seqs.Filter(LeavesOf(es), KeyMatcher(key)) == []
    decreases es, 0
  {
    if es != [] {
      var init, last := es[..|es| - 1], es[|es| - 1];
      SurvivorsKeepMatchingLeaves(init, key);
      FilteredKeepsMatchingLeaves(last, key);
      Seqs.FilterConcat(LeavesOf(init), Leaves(last), KeyMatcher(key));
      assert LeavesOf(es) == LeavesOf(init) + Leaves(last);
      var f := Filtered(last, key);
      if f.Some? {
        var cs := Survivors(init, key) + [f.value];
        assert cs[..|cs| - 1] == Survivors(init, key);
        assert LeavesOf(cs) == LeavesOf(Survivors(init, key)) + Leaves(f.value);
      } else {
        assert Survivors(es, key) == Survivors(init, key);
      }
    }
  }

  /** The keys one leaf contributes. */
  function LeafKeys(x: Expr): seq<string>
  {
    if x.AttrExpr? then [x.name] else if x.YearRangeExpr? then [YearRangeKey] else []
  }

  function LeafKeysOf(xs: seq<Expr>): seq<string>
  {
    if xs == [] then [] else LeafKeysOf(xs[..|xs| - 1]) + LeafKeys(xs[|xs| - 1])
  }

  /** `__extract_keys`: the attribute names (and the year-range key) of a subtree, each
      once, in the order the children first produce them. */
  function KeysOf(e: Expr): (r: seq<string>)
    ensures Seqs.Distinct(r)
  {
    match e
    case AttrExpr(_, name, _) => [name]
    case YearRangeExpr(_, _) => [YearRangeKey]
    case NaryExpr(_, children, _) => Seqs.Dedup(ChildKeys(children))
    case StrExpr(_) => []
  }

  function ChildKeys(es: seq<Expr>): seq<string>
  {
    if es == [] then [] else ChildKeys(es[..|es| - 1]) + KeysOf(es[|es| - 1])
  }

  lemma {:induction false} LeafKeysConcat(a: seq<Expr>, b: seq<Expr>)
    ensures LeafKeysOf(a + b) == LeafKeysOf(a) + LeafKeysOf(b)
  {
    if b == [] {
      assert a + b == a;
    } else {
      var n := |b| - 1;
      LeafKeysConcat(a, b[..n]);
      assert (a + b)[..|a + b| - 1] == a + b[..n];
      assert (a + b)[|a + b| - 1] == b[n];
      Seqs.Assoc(LeafKeysOf(a), LeafKeysOf(b[..n]), LeafKeys(b[n]));
    }
  }

  /** The extracted keys are the distinct keys of the tree's leaves, in the order the
      leaves first produce them. */
  lemma {:induction false} KeysAreLeafKeys(e: Expr)
    ensures KeysOf(e) == Seqs.Dedup(LeafKeysOf(Leaves(e)))
  {
    if e.NaryExpr? {
      ChildKeysAreLeafKeys(e.children);
    } else {
      assert [e][..0] == [];
      assert LeafKeysOf([e]) == LeafKeys(e);
      assert Seqs.Dedup(LeafKeys(e)) == LeafKeys(e) by {
        if LeafKeys(e) != [] {
          assert LeafKeys(e)[..0] == [];
        }
      }
    }
  }

  lemma {:induction false} ChildKeysAreLeafKeys(es: seq<Expr>)
    ensures Seqs.Dedup(ChildKeys(es)) == Seqs.Dedup(LeafKeysOf(LeavesOf(es)))
  {
    if es != [] {
      var init, last := es[..|es| - 1], es[|es| - 1];
      ChildKeysAreLeafKeys(init);
      KeysAreLeafKeys(last);
      LeafKeysConcat(LeavesOf(init), Leaves(last));
      // Dedup(ChildKeys(init) + Dedup(L(last))) == Dedup(ChildKeys(init) + L(last))
      Seqs.DedupRight(ChildKeys(init), LeafKeysOf(Leaves(last)));
      Seqs.DedupLeft(ChildKeys(init), LeafKeysOf(LeavesOf(init)), LeafKeysOf(Leaves(last)));
    }
  }

  /** A key occurs among the leaf keys exactly when some leaf matches it. */
  lemma {:induction false} LeafKeysMembers(xs: seq<Expr>, key: string)
    ensures key in LeafKeysOf(xs) <==> Seqs.Filter(xs, KeyMatcher(key)) != []
  {
    if xs != [] {
      var init, last := xs[..|xs| - 1], xs[|xs| - 1];
      LeafKeysMembers(init, key);
      assert xs == init + [last];
      Seqs.FilterAppend(init, last, KeyMatcher(key));
    }
  }

  /** `__factor_by_key`: each extracted key with the part of the tree for that key,
      in key order; keys whose part is empty are skipped. */
  function Factored(e: Expr): seq<(string, Expr)>
  {
    FactoredFrom(e, KeysOf(e))
  }

  function FactoredFrom(e: Expr, keys: seq<string>): seq<(string, Expr)>
  {
    if keys == [] then []
    else
      var key := keys[|keys| - 1];
      var f := Filtered(e, key);
      FactoredFrom(e, keys[..|keys| - 1]) + (if f.Some? then [(key, f.value)] else [])
  }

  /** No key is skipped: every key of the tree gets an entry, in key order, and the
      entry holds the tree's part for that key. */
  lemma FactoredCoversEveryKey(e: Expr)
    ensures |Factored(e)| == |KeysOf(e)|
    ensures forall i :: 0 <= i < |KeysOf(e)| ==>
      Factored(e)[i].0 == KeysOf(e)[i] && Some(Factored(e)[i].1) == Filtered(e, KeysOf(e)[i])
  {
    var keys := KeysOf(e);
    forall key | key in keys
      ensures Filtered(e, key).Some?
    {
      KeyIsLeafKey(e, key);
    }
    FactoredFromCovers(e, keys);
  }

  /** A key of the tree is a key of some leaf, so the tree's part for it is not empty. */
  lemma KeyIsLeafKey(e: Expr, key: string)
    ensures key in KeysOf(e) <==> key in LeafKeysOf(Leaves(e))
    ensures key in KeysOf(e) <==> Filtered(e, key).Some?
    ensures key in KeysOf(e) <==> Seqs.Filter(Leaves(e), KeyMatcher(key)) != []
  {
    KeysAreLeafKeys(e);
    LeafKeysMembers(Leaves(e), key);
    FilteredKeepsMatchingLeaves(e, key);
  }

  lemma {:induction false} FactoredFromCovers(e: Expr, keys: seq<string>)
    requires forall key :: key in keys ==> Filtered(e, key).Some?
    ensures |FactoredFrom(e, keys)| == |keys|
    ensures forall i :: 0 <= i < |keys| ==>
      FactoredFrom(e, keys)[i].0 == keys[i] && Some(FactoredFrom(e, keys)[i].1) == Filtered(e, keys[i])
  {
    if keys != [] {
      FactoredFromCovers(e, keys[..|keys| - 1]);
    }
  }

  /** `result()`: the factored tree written by the adapter's flavour; with no root,
      reading `self._root.op` raises AttributeError. */
  function TreeResult(f: Flavor, root: Option<Expr>): Result<QueryOutput>
    requires !f.Springer?
  {
    if root.None? || !root.value.NaryExpr? then Err(AttributeError)
    else EmitFactored(f, root.value.op, Factored(root.value))
  }

  /** Some leaf of the tree is a term for `key`. */
  predicate HasLeafFor(e: Expr, key: string)
  {
    exists k :: 0 <= k < |Leaves(e)| && MatchesKey(Leaves(e)[k], key)
  }

  /** The factored tree has an entry for a key exactly when some leaf is a term for it. */
  lemma FactoredHasKeyIffLeaf(e: Expr, key: string)
    ensures HasKey(Factored(e), key) <==> HasLeafFor(e, key)
  {
    FactoredKeys(e, key);
    KeyIsLeafKey(e, key);
    LeafFilterNonEmpty(Leaves(e), key);
  }

  /** The factored tree's entries are exactly the tree's keys. */
  lemma FactoredKeys(e: Expr, key: string)
    ensures HasKey(Factored(e), key) <==> key in KeysOf(e)
  {
    FactoredCoversEveryKey(e);
    var d, keys := Factored(e), KeysOf(e);
    if HasKey(d, key) {
      var i :| 0 <= i < |d| && d[i].0 == key;
      assert keys[i] == key;
    }
    if key in keys {
      var i :| 0 <= i < |keys| && keys[i] == key;
      assert d[i].0 == key;
    }
  }

  /** Filtering the leaves by a key leaves something exactly when some leaf matches it. */
  lemma LeafFilterNonEmpty(xs: seq<Expr>, key: string)
    ensures Seqs.Filter(xs, KeyMatcher(key)) != [] <==>
      exists k :: 0 <= k < |xs| && MatchesKey(xs[k], key)
  {
    var kept := Seqs.Filter(xs, KeyMatcher(key));
    if kept != [] {
      assert KeyMatcher(key)(kept[0]);
      assert kept[0] in xs;
      var k :| 0 <= k < |xs| && xs[k] == kept[0];
      assert MatchesKey(xs[k], key);
    }
    if exists k :: 0 <= k < |xs| && MatchesKey(xs[k], key) {
      var k :| 0 <= k < |xs| && MatchesKey(xs[k], key);
      assert KeyMatcher(key)(xs[k]);
      assert xs[k] in kept;
    }
  }

  /** For a rebuilt tree, the Web of Science, ACM and ScienceDirect writers succeed
      exactly when the query has both a title term and an abstract term; the plain
      writer always succeeds. */
  lemma TreeResultSucceeds(f: Flavor, e: Expr)
    requires !f.Springer? && e.NaryExpr?
    ensures TreeResult(f, Some(e)).Ok? <==>
      f.PlainTree? || (HasLeafFor(e, TitleAttr) && HasLeafFor(e, AbstractAttr))
  {
    FactoredHasKeyIffLeaf(e, TitleAttr);
    FactoredHasKeyIffLeaf(e, AbstractAttr);
  }

  /** The number of nodes of a tree, and of a list of trees. */
  function Size(e: Expr): nat
  {
    if e.NaryExpr? then 1 + SizeOf(e.children) else 1
  }

  function SizeOf(es: seq<Expr>): nat
  {
    if es == [] then 0 else SizeOf(es[..|es| - 1]) + Size(es[|es| - 1])
  }

  lemma {:induction false} SizeOfConcat(a: seq<Expr>, b: seq<Expr>)
    ensures SizeOf(a + b) == SizeOf(a) + SizeOf(b)
  {
    if b == [] {
      assert a + b == a;
    } else {
      SizeOfConcat(a, b[..|b| - 1]);
      assert (a + b)[..|a + b| - 1] == a + b[..|b| - 1];
    }
  }

  lemma {:induction false} LeavesOfConcat(a: seq<Expr>, b: seq<Expr>)
    ensures LeavesOf(a + b) == LeavesOf(a) + LeavesOf(b)
  {
    if b == [] {
      assert a + b == a;
    } else {
      LeavesOfConcat(a, b[..|b| - 1]);
      assert (a + b)[..|a + b| - 1] == a + b[..|b| - 1];
    }
  }

  /** An author-keywords term. */
  predicate IsKeywordTerm(x: Expr)
  {
    x.AttrExpr? && x.name == KeysAttr
  }

  /** `_get_all_keyword_exprs`: the author-keywords terms met by a breadth-first walk
      that starts from `queue`, in the order they are met. */
  function BfsKeywords(queue: seq<Expr>): seq<Expr>
    decreases SizeOf(queue)
  {
    if queue == [] then []
    else
      var node := queue[0];
      var next := queue[1..] + (if node.NaryExpr? then node.children else []);
      SizeOfConcat([node], queue[1..]);
      SizeOfConcat(queue[1..], if node.NaryExpr? then node.children else []);
      assert [node] + queue[1..] == queue;
      assert SizeOf([node]) == Size(node) by { assert [node][..0] == []; }
      (if IsKeywordTerm(node) then [node] else []) + BfsKeywords(next)
  }

  /** One step of the walk: the front node is taken off and its children queued. */
  lemma BfsStep(queue: seq<Expr>)
    requires queue != []
    ensures var next := queue[1..] + (if queue[0].NaryExpr? then queue[0].children else []);
      SizeOf(next) < SizeOf(queue) &&
      BfsKeywords(queue) == (if IsKeywordTerm(queue[0]) then [queue[0]] else []) + BfsKeywords(next)
  {
    var node := queue[0];
    SizeOfConcat([node], queue[1..]);
    SizeOfConcat(queue[1..], if node.NaryExpr? then node.children else []);
    assert [node] + queue[1..] == queue;
    assert SizeOf([node]) == Size(node) by { assert [node][..0] == []; }
  }

  /** The breadth-first walk finds every author-keywords term of the trees in the queue
      once: the same terms, with the same multiplicities, as the left-to-right leaves. */
  lemma {:induction false} BfsFindsEveryKeyword(queue: seq<Expr>)
    ensures multiset(BfsKeywords(queue)) == multiset(Seqs.Filter(LeavesOf(queue), KeyMatcher(KeysAttr)))
    decreases SizeOf(queue)
  {
    if queue != [] {
      var next := queue[1..] + (if queue[0].NaryExpr? then queue[0].children else []);
      BfsStep(queue);
      BfsFindsEveryKeyword(next);
      QueueLeavesStep(queue);
    }
  }

  /** Replacing the head of the queue by its children keeps the keyword leaves, up to
      order, except the head itself when it is one. */
  lemma QueueLeavesStep(queue: seq<Expr>)
    requires queue != []
    ensures var node := queue[0];
      var next := queue[1..] + (if node.NaryExpr? then node.children else []);
      multiset(Seqs.Filter(LeavesOf(queue), KeyMatcher(KeysAttr))) ==
      multiset(if IsKeywordTerm(node) then [node] else []) +
      multiset(Seqs.Filter(LeavesOf(next), KeyMatcher(KeysAttr)))
  {
    var node, rest := queue[0], queue[1..];
    var children := if node.NaryExpr? then node.children else [];
    var p := KeyMatcher(KeysAttr);
    var a, b := Seqs.Filter(Leaves(node), p), Seqs.Filter(LeavesOf(rest), p);
    var c := Seqs.Filter(LeavesOf(children), p);
    assert [node] + rest == queue;
    LeavesOfConcat([node], rest);
    assert LeavesOf([node]) == Leaves(node) by { assert [node][..0] == []; }
    Seqs.FilterConcat(Leaves(node), LeavesOf(rest), p);
    assert Seqs.Filter(LeavesOf(queue), p) == a + b;
    LeavesOfConcat(rest, children);
    Seqs.FilterConcat(LeavesOf(rest), LeavesOf(children), p);
    assert Seqs.Filter(LeavesOf(rest + children), p) == b + c;
    var head := if IsKeywordTerm(node) then [node] else [];
    if node.NaryExpr? {
      assert a == c;
      assert head == [];
    } else {
      assert a == head by {
        assert Leaves(node) == [node];
        assert [node][1..] == [];
      }
      assert c == [] by { assert LeavesOf(children) == []; }
    }
    MoveToBack(a, b, c, head);
  }

  /** Moving a head part to the back, or dropping it in favour of an explicit head,
      keeps the multiset. */
  lemma MoveToBack<T>(a: seq<T>, b: seq<T>, c: seq<T>, head: seq<T>)
    requires (a == c && head == []) || (c == [] && a == head)
    ensures multiset(a + b) == multiset(head) + multiset(b + c)
  {
  }



  class ExprTreeAdapter {
    const flavor: Flavor
    var stack: seq<seq<Expr>>
    var root: Option<Expr>

    constructor (flavor: Flavor)
      ensures this.flavor == flavor && stack == [] && root == None
    {
      this.flavor := flavor;
      stack := [];
      root := None;
    }

    function State(): TreeState
      reads this
    {
      TreeState(stack, root)
    }

    method VisitStartGroup(op: Op)
      modifies this
      ensures Some(State()) == TreeStep(old(State()), StartGroup(op))
    {
      stack := stack + [[]];
    }

    /** Requires an open group: on an empty stack the source raises IndexError. */
    method VisitTerm(term: Expr)
      requires stack != []
      modifies this
      ensures Some(State()) == TreeStep(old(State()), AdapterStack.VisitTerm(term))
    {
      stack := stack[..|stack| - 1] + [stack[|stack| - 1] + [term]];
    }

    /** Requires an open group: on an empty stack the source raises IndexError. */
    method VisitEndGroup(op: Op)
      requires stack != []
      modifies this
      ensures Some(State()) == TreeStep(old(State()), EndGroup(op))
    {
      var buf := stack[|stack| - 1];
      stack := stack[..|stack| - 1];
      ProcessCurrentBuffer(buf, op);
    }

    method ProcessCurrentBuffer(children: seq<Expr>, op: Op)
      modifies this
      ensures var node := NaryExpr(op, children, None);
        if old(stack) != [] then stack == AppendTop(old(stack), node) && root == old(root)
        else stack == [] && root == Some(node)
    {
      var node := NaryExpr(op, children, None);
      if stack != [] {
        stack := stack[..|stack| - 1] + [stack[|stack| - 1] + [node]];
      } else {
        root := Some(node);
      }
    }

    /** `result()` of the plain, Web of Science, ACM and ScienceDirect adapters. */
    method Result() returns (r: Result<QueryOutput>)
      requires !flavor.Springer?
      ensures r == TreeResult(flavor, root)
    {
      if root.None? || !root.value.NaryExpr? {
        return Err(AttributeError);
      }
      var factored := FactorByKey(root.value);
      r := EmitFactored(flavor, root.value.op, factored);
    }

    /** Springer's `_get_all_keyword_exprs`, walking the rebuilt tree with a queue. */
    method KeywordExprs() returns (r: seq<Expr>)
      ensures r == BfsKeywords(if root.Some? then [root.value] else [])
    {
      var queue := if root.Some? then [root.value] else [];
      r := [];
      while queue != []
        invariant r + BfsKeywords(queue) == BfsKeywords(if root.Some? then [root.value] else [])
        decreases SizeOf(queue)
      {
        var node := queue[0];
        BfsStep(queue);
        ghost var before := r;
        ghost var next := queue[1..] + (if node.NaryExpr? then node.children else []);
        assert queue[1..] + [] == queue[1..];
        ghost var found := if IsKeywordTerm(node) then [node] else [];
        queue := queue[1..];
        if node.AttrExpr? && node.name == KeysAttr {
          r := r + [node];
        }
        if node.NaryExpr? {
          queue := queue + node.children;
        }
        assert queue == next;
        assert r == before + found;
        assert before + (found + BfsKeywords(queue)) == r + BfsKeywords(queue);
      }
    }
  }

  /** `_filter_by_key`, recursive, with a loop collecting the surviving children. */
  method FilterByKey(e: Expr, key: string) returns (r: Option<Expr>)
    ensures r == Filtered(e, key)
    decreases e
  {
    match e
    case AttrExpr(_, name, _) =>
      r := if name == key then Some(e) else None;
    case YearRangeExpr(_, _) =>
      r := if key == YearRangeKey then Some(e) else None;
    case NaryExpr(op, children, _) =>
      var newChildren: seq<Expr> := [];
      var i := 0;
      while i < |children|
        invariant 0 <= i <= |children|
        invariant newChildren == Survivors(children[..i], key)
      {
        var filtered := FilterByKey(children[i], key);
        assert children[..i + 1][..i] == children[..i];
        if filtered.Some? {
          newChildren := newChildren + [filtered.value];
        }
        i := i + 1;
      }
      assert children[..i] == children;
      if |newChildren| == 0 {
        r := None;
      } else if |newChildren| == 1 {
        r := Some(newChildren[0]);
      } else {
        r := Some(NaryExpr(op, newChildren, Some(key)));
      }
    case StrExpr(_) =>
      r := None;
  }

  /** `__extract_keys`, recursive, collecting keys in a dict in first-insertion order
      (the dict's counts are never read and are not modelled). */
  method ExtractKeys(e: Expr) returns (keys: seq<string>)
    ensures keys == KeysOf(e)
    decreases e
  {
    keys := [];
    match e
    case AttrExpr(_, name, _) =>
      keys := [name];
    case YearRangeExpr(_, _) =>
      keys := [YearRangeKey];
    case NaryExpr(_, children, _) =>
      var i := 0;
      while i < |children|
        invariant 0 <= i <= |children|
        invariant keys == Seqs.Dedup(ChildKeys(children[..i]))
      {
        var childKeys := ExtractKeys(children[i]);
        assert children[..i + 1][..i] == children[..i];
        keys := InsertKeys(keys, ChildKeys(children[..i]), childKeys);
        i := i + 1;
      }
      assert children[..i] == children;
    case StrExpr(_) =>
  }

  /** Inserts each of `more` into the insertion-ordered key collection `keys`, which
      holds the distinct keys of `seen`. */
  method InsertKeys(keys: seq<string>, ghost seen: seq<string>, more: seq<string>) returns (r: seq<string>)
    requires keys == Seqs.Dedup(seen)
    ensures r == Seqs.Dedup(seen + more)
  {
    r := keys;
    var j := 0;
    assert seen + more[..0] == seen;
    while j < |more|
      invariant 0 <= j <= |more|
      invariant r == Seqs.Dedup(seen + more[..j])
    {
      assert more[..j + 1] == more[..j] + [more[j]];
      Seqs.Assoc(seen, more[..j], [more[j]]);
      Seqs.DedupSnoc(seen + more[..j], more[j]);
      if more[j] !in r {
        r := r + [more[j]];
      }
      j := j + 1;
    }
    assert more[..j] == more;
  }

  /** `__factor_by_key`: filters the tree once per extracted key. */
  method FactorByKey(e: Expr) returns (result: seq<(string, Expr)>)
    ensures result == Factored(e)
  {
    var keys := ExtractKeys(e);
    result := [];
    var i := 0;
    while i < |keys|
      invariant 0 <= i <= |keys|
      invariant result == FactoredFrom(e, keys[..i])
    {
      var filtered := FilterByKey(e, keys[i]);
      assert keys[..i + 1][..i] == keys[..i];
      if filtered.Some? {
        result := result + [(keys[i], filtered.value)];
      }
      i := i + 1;
    }
    assert keys[..i] == keys;
  }
}
