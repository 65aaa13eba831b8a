/** The query-builder adapters' visitor protocol: the events `_visit` sends while it
    walks an expression tree, and the stack of child buffers every adapter keeps
    (one buffer per open group). */
module AdapterStack {
  import opened Wrappers
  import opened SearchExpr
  import Seqs

  /** One visitor call. The group calls carry the group's operator, the only part of the
      group the adapters read. */
  datatype Event = StartGroup(op: Op) | VisitTerm(term: Expr) | EndGroup(endOp: Op)

  /** The calls `_visit` makes for a tree: a group is opened, its children are visited
      in order, and it is closed; any other node is one term. */
  function Events(e: Expr): seq<Event>
  {
    if e.NaryExpr? then [StartGroup(e.op)] + EventsOf(e.children) + [EndGroup(e.op)]
    else [VisitTerm(e)]
  }

  function EventsOf(es: seq<Expr>): seq<Event>
  {
    if es == [] then [] else EventsOf(es[..|es| - 1]) + Events(es[|es| - 1])
  }

  /** `visit_start_group`: pushes one empty buffer. */
  function PushBuffer<T>(stack: seq<seq<T>>): (r: seq<seq<T>>)
    ensures |r| == |stack| + 1 && r[..|stack|] == stack && r[|stack|] == []
  {
    stack + [[]]
  }

  /** `visit_term`: appends to the top buffer only. */
  function AppendTop<T>(stack: seq<seq<T>>, x: T): (r: seq<seq<T>>)
    requires stack != []
    ensures |r| == |stack| && r[..|stack| - 1] == stack[..|stack| - 1]
    ensures r[|stack| - 1] == stack[|stack| - 1] + [x]
  {
    stack[..|stack| - 1] + [stack[|stack| - 1] + [x]]
  }

  /** The top buffer with all of `xs` appended: what visiting several terms in a row
      does. */
  function AppendTopAll<T>(stack: seq<seq<T>>, xs: seq<T>): (r: seq<seq<T>>)
    requires stack != []
    ensures |r| == |stack| && r[..|stack| - 1] == stack[..|stack| - 1]
    ensures r[|stack| - 1] == stack[|stack| - 1] + xs
  {
    stack[..|stack| - 1] + [stack[|stack| - 1] + xs]
  }

  /** Appending twice to the top buffer appends both in turn. */
  lemma AppendTopAllTwice<T>(stack: seq<seq<T>>, xs: seq<T>, ys: seq<T>)
    requires stack != []
    ensures AppendTopAll(AppendTopAll(stack, xs), ys) == AppendTopAll(stack, xs + ys)
  {
    var n := |stack| - 1;
    assert AppendTopAll(stack, xs)[..n] == stack[..n];
    Seqs.Assoc(stack[n], xs, ys);
  }

  /** `visit_end_group`'s pop: the top buffer, and the stack below it. */
  function PopBuffer<T>(stack: seq<seq<T>>): (r: (seq<seq<T>>, seq<T>))
    requires stack != []
    ensures r.0 + [r.1] == stack
  {
    (stack[..|stack| - 1], stack[|stack| - 1])
  }

  /** The stack depth after one call, or None when the call finds the stack empty
      (indexing or popping an empty list raises IndexError). */
  function DepthStep(d: nat, ev: Event): Option<nat>
  {
    match ev
    case StartGroup(_) => Some(d + 1)
    case VisitTerm(_) => if d > 0 then Some(d) else None
    case EndGroup(_) => if d > 0 then Some(d - 1) else None
  }

  function DepthRun(d: nat, evs: seq<Event>): Option<nat>
  {
    if evs == [] then Some(d)
    else
      var r := DepthRun(d, evs[..|evs| - 1]);
      if r.None? then None else DepthStep(r.value, evs[|evs| - 1])
  }

  lemma {:induction false} DepthRunAppend(d: nat, a: seq<Event>, b: seq<Event>)
    ensures DepthRun(d, a + b) == (if DepthRun(d, a).None? then None else DepthRun(DepthRun(d, a).value, b))
  {
    if b == [] {
      assert a + b == a;
    } else {
      DepthRunAppend(d, a, b[..|b| - 1]);
      assert (a + b)[..|a + b| - 1] == a + b[..|b| - 1];
    }
  }

  /** The calls for a tree are balanced: visiting a group from any depth, or a term from
      inside a group, never finds the stack empty and returns it to the depth it began at. */
  lemma {:induction false} EventsKeepDepth(e: Expr, d: nat)
    requires d > 0 || e.NaryExpr?
    ensures DepthRun(d, Events(e)) == Some(d)
  {
    if e.NaryExpr? {
      EventsOfKeepDepth(e.children, d + 1);
      DepthRunAppend(d, [StartGroup(e.op)], EventsOf(e.children));
      DepthRunAppend(d, [StartGroup(e.op)] + EventsOf(e.children), [EndGroup(e.op)]);
      assert DepthRun(d, [StartGroup(e.op)]) == Some(d + 1) by {
        assert [StartGroup(e.op)][..0] == [];
      }
      assert DepthRun(d + 1, [EndGroup(e.op)]) == Some(d) by {
        assert [EndGroup(e.op)][..0] == [];
      }
    } else {
      assert [VisitTerm(e)][..0] == [];
    }
  }

  lemma {:induction false} EventsOfKeepDepth(es: seq<Expr>, d: nat)
    requires d > 0
    ensures DepthRun(d, EventsOf(es)) == Some(d)
  {
    if es != [] {
      EventsOfKeepDepth(es[..|es| - 1], d);
      EventsKeepDepth(es[|es| - 1], d);
      DepthRunAppend(d, EventsOf(es[..|es| - 1]), Events(es[|es| - 1]));
    }
  }

  /** The terms visited, in order. */
  function Terms(evs: seq<Event>): seq<Expr>
  {
    if evs == [] then []
    else Terms(evs[..|evs| - 1]) + (if evs[|evs| - 1].VisitTerm? then [evs[|evs| - 1].term] else [])
  }

  /** The number of groups opened, and closed. */
  function Opened(evs: seq<Event>): nat
  {
    if evs == [] then 0 else Opened(evs[..|evs| - 1]) + (if evs[|evs| - 1].StartGroup? then 1 else 0)
  }

  function Closed(evs: seq<Event>): nat
  {
    if evs == [] then 0 else Closed(evs[..|evs| - 1]) + (if evs[|evs| - 1].EndGroup? then 1 else 0)
  }

  lemma {:induction false} CountsAppend(a: seq<Event>, b: seq<Event>)
    ensures Terms(a + b) == Terms(a) + Terms(b)
    ensures Opened(a + b) == Opened(a) + Opened(b)
    ensures Closed(a + b) == Closed(a) + Closed(b)
  {
    if b == [] {
      assert a + b == a;
    } else {
      CountsAppend(a, b[..|b| - 1]);
      assert (a + b)[..|a + b| - 1] == a + b[..|b| - 1];
    }
  }

  /** `_visit` reports every leaf once, left to right, and opens and closes each group once. */
  lemma {:induction false} EventsFollowTree(e: Expr)
    ensures Terms(Events(e)) == Leaves(e)
    ensures Opened(Events(e)) == GroupCount(e) == Closed(Events(e))
  {
    if e.NaryExpr? {
      EventsOfFollowTrees(e.children);
      CountsAppend([StartGroup(e.op)], EventsOf(e.children));
      CountsAppend([StartGroup(e.op)] + EventsOf(e.children), [EndGroup(e.op)]);
      assert [StartGroup(e.op)][..0] == [] && [EndGroup(e.op)][..0] == [];
    } else {
      assert [VisitTerm(e)][..0] == [];
    }
  }

  lemma {:induction false} EventsOfFollowTrees(es: seq<Expr>)
    ensures Terms(EventsOf(es)) == LeavesOf(es)
    ensures Opened(EventsOf(es)) == GroupCountOf(es) == Closed(EventsOf(es))
  {
    if es != [] {
      EventsOfFollowTrees(es[..|es| - 1]);
      EventsFollowTree(es[|es| - 1]);
      CountsAppend(EventsOf(es[..|es| - 1]), Events(es[|es| - 1]));
    }
  }
}
