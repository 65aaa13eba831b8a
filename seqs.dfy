/** Sequence helpers shared by the model: filtering, subsequences, first-occurrence
    de-duplication (Python's `dict.fromkeys` / insertion-ordered sets) and sorting. */
module Seqs {

  /** A non-empty sequence is its front followed by its last element. */
  lemma SnocSplit<T>(xs: seq<T>)
    requires xs != []
    ensures xs[..|xs| - 1] + [xs[|xs| - 1]] == xs
  {
  }

  lemma Assoc<T>(a: seq<T>, b: seq<T>, c: seq<T>)
    ensures a + (b + c) == (a + b) + c
  {
  }

  /** Dropping the last element of `xs + [x]` gives back `xs`. */
  lemma DropLast<T>(xs: seq<T>, x: T)
    ensures (xs + [x])[..|xs|] == xs
  {
  }

  /** `a` is obtained from `b` by deleting elements, keeping the order of the rest. */
  predicate IsSubseq<T(==)>(a: seq<T>, b: seq<T>)
  {
    if a == [] then true
    else if b == [] then false
    else if a[0] == b[0] then IsSubseq(a[1..], b[1..])
    else IsSubseq(a, b[1..])
  }

  lemma {:induction false} SubseqMembers<T>(a: seq<T>, b: seq<T>)
    requires IsSubseq(a, b)
    ensures |a| <= |b|
    ensures forall x :: x in a ==> x in b
  {
    if a != [] && b != [] {
      assert a == [a[0]] + a[1..];
      if a[0] == b[0] {
        SubseqMembers(a[1..], b[1..]);
      } else {
        SubseqMembers(a, b[1..]);
      }
    }
  }

  lemma {:induction false} SubseqRefl<T>(a: seq<T>)
    ensures IsSubseq(a, a)
  {
    if a != [] {
      SubseqRefl(a[1..]);
    }
  }

  /** A sequence is a subsequence of itself extended at the end. */
  lemma {:induction false} SubseqOfExtension<T>(a: seq<T>, b: seq<T>)
    ensures IsSubseq(a, a + b)
  {
    if a != [] {
      SubseqOfExtension(a[1..], b);
      assert (a + b)[1..] == a[1..] + b;
    }
  }

  /** Prepending the same element to both sides keeps the relation. */
  lemma SubseqCons<T>(x: T, a: seq<T>, b: seq<T>)
    requires IsSubseq(a, b)
    ensures IsSubseq([x] + a, [x] + b)
  {
    assert ([x] + a)[1..] == a;
    assert ([x] + b)[1..] == b;
  }

  /** Dropping the head of the larger side keeps the relation. */
  lemma SubseqSkip<T>(x: T, a: seq<T>, b: seq<T>)
    requires IsSubseq(a, b)
    ensures IsSubseq(a, [x] + b)
    decreases |b| + 1, 0
  {
    assert ([x] + b)[1..] == b;
    if a != [] && a[0] == x {
      SubseqDropHead(a, b);
      SubseqCons(x, a[1..], b);
      assert [x] + a[1..] == a;
    }
  }

  lemma {:induction false} SubseqDropHead<T>(a: seq<T>, b: seq<T>)
    requires a != [] && IsSubseq(a, b)
    ensures IsSubseq(a[1..], b)
    decreases |b|, 1
  {
    if b != [] {
      if a[0] == b[0] {
        SubseqSkip(b[0], a[1..], b[1..]);
        assert [b[0]] + b[1..] == b;
      } else {
        SubseqDropHead(a, b[1..]);
        SubseqSkip(b[0], a[1..], b[1..]);
        assert [b[0]] + b[1..] == b;
      }
    }
  }

  lemma {:induction false} SubseqTrans<T>(a: seq<T>, b: seq<T>, c: seq<T>)
    requires IsSubseq(a, b) && IsSubseq(b, c)
    ensures IsSubseq(a, c)
    decreases |c|
  {
    if a != [] {
      SubseqMembers(b, c);
      if b[0] == c[0] {
        if a[0] == b[0] {
          SubseqTrans(a[1..], b[1..], c[1..]);
        } else {
          SubseqTrans(a, b[1..], c[1..]);
        }
      } else {
        SubseqTrans(a, b, c[1..]);
        if a[0] == c[0] {
          SubseqDropHead(a, c[1..]);
        }
      }
    }
  }

  /** A left fold: `a` updated by `f` with each element of `xs` in order. */
  function FoldLeft<A, B>(f: (A, B) -> A, a: A, xs: seq<B>): A
  {
    if xs == [] then a else f(FoldLeft(f, a, xs[..|xs| - 1]), xs[|xs| - 1])
  }

  /** Folding over two runs one after the other is folding over their concatenation. */
  lemma {:induction false} FoldLeftAppend<A, B>(f: (A, B) -> A, a: A, xs: seq<B>, ys: seq<B>)
    ensures FoldLeft(f, a, xs + ys) == FoldLeft(f, FoldLeft(f, a, xs), ys)
  {
    if ys == [] {
      assert xs + ys == xs;
    } else {
      FoldLeftAppend(f, a, xs, ys[..|ys| - 1]);
      assert (xs + ys)[..|xs + ys| - 1] == xs + ys[..|ys| - 1];
    }
  }

  /** Python's `[x for x in s if p(x)]`. */
  function Filter<T>(s: seq<T>, p: T -> bool): (r: seq<T>)
    ensures |r| <= |s|
    ensures forall k :: 0 <= k < |r| ==> p(r[k])
    ensures forall k :: 0 <= k < |s| && p(s[k]) ==> s[k] in r
    ensures forall x :: x in r ==> x in s
  {
    if s == [] then []
    else if p(s[0]) then [s[0]] + Filter(s[1..], p)
    else Filter(s[1..], p)
  }

  lemma {:induction false} FilterIsSubseq<T>(s: seq<T>, p: T -> bool)
    ensures IsSubseq(Filter(s, p), s)
  {
    if s != [] {
      FilterIsSubseq(s[1..], p);
      if p(s[0]) {
        SubseqCons(s[0], Filter(s[1..], p), s[1..]);
      } else {
        SubseqSkip(s[0], Filter(s[1..], p), s[1..]);
      }
      assert [s[0]] + s[1..] == s;
    }
  }

  lemma {:induction false} FilterAppend<T>(s: seq<T>, x: T, p: T -> bool)
    ensures Filter(s + [x], p) == Filter(s, p) + (if p(x) then [x] else [])
  {
    if s == [] {
      assert [x][1..] == [];
    } else {
      assert (s + [x])[1..] == s[1..] + [x];
      FilterAppend(s[1..], x, p);
    }
  }

  /** Filtering a concatenation filters each part. */
  lemma {:induction false} FilterConcat<T>(a: seq<T>, b: seq<T>, p: T -> bool)
    ensures Filter(a + b, p) == Filter(a, p) + Filter(b, p)
  {
    if a == [] {
      assert a + b == b;
    } else {
      assert (a + b)[0] == a[0];
      assert (a + b)[1..] == a[1..] + b;
      FilterConcat(a[1..], b, p);
    }
  }

  /** No element occurs twice. */
  predicate Distinct<T(==)>(s: seq<T>)
  {
    forall i, j :: 0 <= i < j < |s| ==> s[i] != s[j]
  }

  /** The distinct elements of `s` in the order of their first occurrence. */
  function Dedup<T(==,!new)>(s: seq<T>): (r: seq<T>)
    ensures Distinct(r)
    ensures forall x :: x in r <==> x in s
    ensures |r| <= |s|
  {
    if s == [] then []
    else
      var d := Dedup(s[..|s| - 1]);
      if s[|s| - 1] in d then d else d + [s[|s| - 1]]
  }

  /** Filtering keeps every element exactly when it drops none. */
  lemma {:induction false} FilterKeepsAll<T>(s: seq<T>, p: T -> bool)
    ensures |Filter(s, p)| == |s| <==> forall k :: 0 <= k < |s| ==> p(s[k])
    ensures (forall k :: 0 <= k < |s| ==> p(s[k])) ==> Filter(s, p) == s
  {
    if s != [] {
      FilterKeepsAll(s[1..], p);
      assert forall k :: 1 <= k < |s| ==> s[k] == s[1..][k - 1];
      if forall k :: 0 <= k < |s| ==> p(s[k]) {
        assert [s[0]] + s[1..] == s;
      }
    }
  }

  /** Filtering a sequence without repetitions leaves none. */
  lemma {:induction false} FilterKeepsDistinct<T>(s: seq<T>, p: T -> bool)
    requires Distinct(s)
    ensures Distinct(Filter(s, p))
  {
    if s != [] {
      assert Distinct(s[1..]) by {
        assert forall k :: 0 <= k < |s| - 1 ==> s[1..][k] == s[k + 1];
      }
      FilterKeepsDistinct(s[1..], p);
      if p(s[0]) {
        var f := Filter(s[1..], p);
        assert s[0] !in s[1..];
        assert s[0] !in f;
        assert forall k :: 1 <= k < |[s[0]] + f| ==> ([s[0]] + f)[k] == f[k - 1];
      }
    }
  }

  /** De-duplication keeps a sequence exactly when it has no repetitions. */
  lemma {:induction false} DedupKeepsDistinct<T(!new)>(s: seq<T>)
    ensures |Dedup(s)| == |s| <==> Distinct(s)
    ensures Distinct(s) ==> Dedup(s) == s
  {
    if s != [] {
      var init, x := s[..|s| - 1], s[|s| - 1];
      DedupKeepsDistinct(init);
      SnocSplit(s);
      if Distinct(s) {
        assert Distinct(init);
        assert x !in init by {
          forall k | 0 <= k < |init|
            ensures init[k] != x
          {
            assert s[k] != s[|s| - 1];
          }
        }
      }
      if x !in init && Distinct(init) {
        assert Distinct(s) by {
          forall i, j | 0 <= i < j < |s|
            ensures s[i] != s[j]
          {
            if j < |s| - 1 {
              assert s[i] == init[i] && s[j] == init[j];
            } else {
              assert s[i] == init[i];
            }
          }
        }
      }
    }
  }

  /** One more element is added at the end exactly when it is new. */
  lemma DedupSnoc<T(!new)>(s: seq<T>, x: T)
    ensures Dedup(s + [x]) == if x in Dedup(s) then Dedup(s) else Dedup(s) + [x]
  {
    assert (s + [x])[..|s + [x]| - 1] == s;
  }

  /** De-duplicating a suffix first changes nothing. */
  lemma {:induction false} DedupRight<T(!new)>(a: seq<T>, b: seq<T>)
    ensures Dedup(a + Dedup(b)) == Dedup(a + b)
  {
    if b == [] {
      assert a + b == a && a + Dedup(b) == a;
    } else {
      var init, x := b[..|b| - 1], b[|b| - 1];
      assert b == init + [x];
      DedupRight(a, init);
      Assoc(a, init, [x]);
      DedupSnoc(a + init, x);
      DedupSnoc(init, x);
      if x !in Dedup(init) {
        Assoc(a, Dedup(init), [x]);
        DedupSnoc(a + Dedup(init), x);
      }
    }
  }

  /** Inputs with the same de-duplication still agree after the same suffix. */
  lemma {:induction false} DedupLeft<T(!new)>(a: seq<T>, a': seq<T>, b: seq<T>)
    requires Dedup(a) == Dedup(a')
    ensures Dedup(a + b) == Dedup(a' + b)
  {
    if b == [] {
      assert a + b == a && a' + b == a';
    } else {
      var init := b[..|b| - 1];
      DedupLeft(a, a', init);
      assert (a + b)[..|a + b| - 1] == a + init;
      assert (a' + b)[..|a' + b| - 1] == a' + init;
      assert (a + b)[|a + b| - 1] == b[|b| - 1] == (a' + b)[|a' + b| - 1];
    }
  }

  /** De-duplication keeps the order of the input. */
  lemma {:induction false} DedupIsSubseq<T(!new)>(s: seq<T>)
    ensures IsSubseq(Dedup(s), s)
  {
    if s != [] {
      var init := s[..|s| - 1];
      DedupIsSubseq(init);
      assert init + [s[|s| - 1]] == s;
      if s[|s| - 1] in Dedup(init) {
        SubseqAppendRight(Dedup(init), init, s[|s| - 1]);
      } else {
        SubseqAppendBoth(Dedup(init), init, s[|s| - 1]);
      }
    }
  }

  lemma {:induction false} SubseqAppendRight<T>(a: seq<T>, b: seq<T>, x: T)
    requires IsSubseq(a, b)
    ensures IsSubseq(a, b + [x])
  {
    if a != [] && b != [] {
      assert (b + [x])[1..] == b[1..] + [x];
      if a[0] == b[0] {
        SubseqAppendRight(a[1..], b[1..], x);
      } else {
        SubseqAppendRight(a, b[1..], x);
      }
    }
  }

  lemma {:induction false} SubseqAppendBoth<T>(a: seq<T>, b: seq<T>, x: T)
    requires IsSubseq(a, b)
    ensures IsSubseq(a + [x], b + [x])
  {
    if a == [] {
      SubseqSuffix(b, x);
      assert a + [x] == [x];
    } else {
      SubseqMembers(a, b);
      assert (a + [x])[1..] == a[1..] + [x];
      assert (b + [x])[1..] == b[1..] + [x];
      if a[0] == b[0] {
        SubseqAppendBoth(a[1..], b[1..], x);
      } else {
        SubseqAppendBoth(a, b[1..], x);
      }
    }
  }

  lemma {:induction false} SubseqSuffix<T>(b: seq<T>, x: T)
    ensures IsSubseq([x], b + [x])
  {
    if b != [] {
      assert (b + [x])[1..] == b[1..] + [x];
      if b[0] != x {
        SubseqSuffix(b[1..], x);
      }
    }
  }

  predicate SortedReals(s: seq<real>)
  {
    forall i, j :: 0 <= i <= j < |s| ==> s[i] <= s[j]
  }

  function InsertReal(s: seq<real>, x: real): (r: seq<real>)
    requires SortedReals(s)
    ensures SortedReals(r)
    ensures multiset(r) == multiset(s) + multiset{x}
  {
    if s == [] then [x]
    else if x <= s[0] then
      ConsSorted(x, s);
      [x] + s
    else
      var t := InsertReal(s[1..], x);
      assert s == [s[0]] + s[1..];
      AboveFirst(s, x, t);
      ConsSorted(s[0], t);
      [s[0]] + t
  }

  lemma ConsSorted(a: real, t: seq<real>)
    requires SortedReals(t) && forall k :: 0 <= k < |t| ==> a <= t[k]
    ensures SortedReals([a] + t)
  {
  }

  /** Everything inserted after the first element of a sorted sequence stays above it. */
  lemma AboveFirst(s: seq<real>, x: real, t: seq<real>)
    requires s != [] && SortedReals(s) && s[0] < x
    requires multiset(t) == multiset(s[1..]) + multiset{x}
    ensures forall k :: 0 <= k < |t| ==> s[0] <= t[k]
  {
    forall k | 0 <= k < |t|
      ensures s[0] <= t[k]
    {
      assert t[k] in multiset(t);
      if t[k] != x {
        assert t[k] in multiset(s[1..]);
        var i :| 0 <= i < |s[1..]| && s[1..][i] == t[k];
        assert s[i + 1] == t[k];
      }
    }
  }

  /** Python's `sorted` on numbers: ascending and a permutation of the input. */
  function SortReals(s: seq<real>): (r: seq<real>)
    ensures SortedReals(r)
    ensures multiset(r) == multiset(s)
    ensures |r| == |s|
  {
    if s == [] then []
    else
      assert s == s[..|s| - 1] + [s[|s| - 1]];
      var r := InsertReal(SortReals(s[..|s| - 1]), s[|s| - 1]);
      assert |multiset(r)| == |multiset(s)|;
      r
  }

  /** The number of elements of `s` strictly below `v`. */
  function CountBelow(s: seq<real>, v: real): (r: nat)
    ensures r <= |s|
  {
    if s == [] then 0 else CountBelow(s[..|s| - 1], v) + (if s[|s| - 1] < v then 1 else 0)
  }

  /** The number of elements of `s` at or below `v`. */
  function CountAtMost(s: seq<real>, v: real): (r: nat)
    ensures r <= |s|
  {
    if s == [] then 0 else CountAtMost(s[..|s| - 1], v) + (if s[|s| - 1] <= v then 1 else 0)
  }

  /** `v` is the `k`-th smallest element of `s`, counting from 0: at most `k` elements
      lie below it and more than `k` lie at or below it. */
  predicate IsOrderStatistic(s: seq<real>, k: nat, v: real)
  {
    CountBelow(s, v) <= k < CountAtMost(s, v)
  }

  lemma {:induction false} CountsAppend(a: seq<real>, b: seq<real>, v: real)
    ensures CountBelow(a + b, v) == CountBelow(a, v) + CountBelow(b, v)
    ensures CountAtMost(a + b, v) == CountAtMost(a, v) + CountAtMost(b, v)
  {
    if b != [] {
      assert (a + b)[..|a + b| - 1] == a + b[..|b| - 1];
      CountsAppend(a, b[..|b| - 1], v);
    } else {
      assert a + b == a;
    }
  }

  /** The counts depend only on the multiset of elements. */
  lemma {:induction false} CountsOfPermutation(s: seq<real>, t: seq<real>, v: real)
    requires multiset(s) == multiset(t)
    ensures CountBelow(s, v) == CountBelow(t, v) && CountAtMost(s, v) == CountAtMost(t, v)
  {
    if s != [] {
      var x := s[|s| - 1];
      assert x in multiset(t);
      var i :| 0 <= i < |t| && t[i] == x;
      assert t == t[..i] + [x] + t[i + 1..];
      var rest := t[..i] + t[i + 1..];
      assert s == s[..|s| - 1] + [x];
      assert multiset(t) == multiset(t[..i]) + multiset{x} + multiset(t[i + 1..]);
      assert multiset(s) == multiset(s[..|s| - 1]) + multiset{x};
      assert multiset(rest) == multiset(t[..i]) + multiset(t[i + 1..]);
      assert multiset(rest) + multiset{x} == multiset(s[..|s| - 1]) + multiset{x};
      forall y ensures multiset(rest)[y] == multiset(s[..|s| - 1])[y] {
        assert (multiset(rest) + multiset{x})[y] == (multiset(s[..|s| - 1]) + multiset{x})[y];
      }
      assert multiset(rest) == multiset(s[..|s| - 1]);
      CountsOfPermutation(s[..|s| - 1], rest, v);
      CountsAppend(t[..i] + [x], t[i + 1..], v);
      CountsAppend(t[..i], [x], v);
      CountsAppend(t[..i], t[i + 1..], v);
      assert [x][..0] == [];
    }
  }

  /** In a sorted sequence, the element at index `k` is its `k`-th smallest. */
  lemma {:induction false} SortedIndexIsOrderStatistic(t: seq<real>, k: nat)
    requires SortedReals(t) && k < |t|
    ensures IsOrderStatistic(t, k, t[k])
  {
    var v := t[k];
    var lo, hi := t[..k + 1], t[k + 1..];
    assert t == lo + hi;
    forall i | 0 <= i < |lo| ensures lo[i] <= v { assert lo[i] == t[i]; }
    forall i | 0 <= i < |hi| ensures v <= hi[i] { assert hi[i] == t[k + 1 + i]; }
    CountsAppend(lo, hi, v);
    CountAtMostAll(lo, v);
    CountBelowNone(hi, v);
    assert CountBelow(lo, v) <= k by {
      assert lo[..|lo| - 1] == t[..k];
    }
  }

  lemma {:induction false} CountBelowNone(s: seq<real>, v: real)
    requires forall i :: 0 <= i < |s| ==> v <= s[i]
    ensures CountBelow(s, v) == 0
  {
    if s != [] {
      CountBelowNone(s[..|s| - 1], v);
    }
  }

  lemma {:induction false} CountAtMostAll(s: seq<real>, v: real)
    requires forall i :: 0 <= i < |s| ==> s[i] <= v
    ensures CountAtMost(s, v) == |s|
  {
    if s != [] {
      CountAtMostAll(s[..|s| - 1], v);
    }
  }

  /** The `k`-th smallest element of `s` is the element at index `k` of `sorted(s)`. */
  lemma SortRealsOrderStatistic(s: seq<real>, k: nat)
    requires k < |s|
    ensures IsOrderStatistic(s, k, SortReals(s)[k])
  {
    SortedIndexIsOrderStatistic(SortReals(s), k);
    CountsOfPermutation(s, SortReals(s), SortReals(s)[k]);
  }

  lemma {:induction false} CountsMonotone(s: seq<real>, v: real, w: real)
    requires v < w
    ensures CountAtMost(s, v) <= CountBelow(s, w)
  {
    if s != [] {
      CountsMonotone(s[..|s| - 1], v, w);
    }
  }

  /** The `k`-th smallest element is unique. */
  lemma OrderStatisticUnique(s: seq<real>, k: nat, v: real, w: real)
    requires IsOrderStatistic(s, k, v) && IsOrderStatistic(s, k, w)
    ensures v == w
  {
    if v < w {
      CountsMonotone(s, v, w);
    } else if w < v {
      CountsMonotone(s, w, v);
    }
  }
}
