/** The quality-assessment split: `paper_count` papers are each handed to `eval_count`
    of `evaluators` people by cutting the sequence 0, 1, ..., evaluators - 1, repeated,
    into consecutive blocks; two assertions check that every block names distinct
    people and that everybody carries the same load. */
module QaAssignment {
  import opened Wrappers
  import opened Seqs

  /** The blocks, one per paper, and the number of papers each evaluator got. */
  datatype Assignment = Assignment(evaluations: seq<seq<int>>, loads: seq<int>)

  /** Python's `a // b`: the quotient rounded down. */
  function FloorDiv(a: int, b: int): (r: int)
    requires b != 0
    ensures b * r <= a < b * r + b || b * r + b < a <= b * r
  {
    if b > 0 then a / b else (-a) / (-b)
  }

  /** `list(range(n))`. */
  function Range(n: int): (r: seq<int>)
    ensures |r| == if n > 0 then n else 0
    ensures forall i :: 0 <= i < |r| ==> r[i] == i
  {
    if n <= 0 then [] else seq(n, i => i)
  }

  /** Python's `s * c`: `s` repeated `c` times, nothing for `c` <= 0. */
  function Repeat(s: seq<int>, c: int): (r: seq<int>)
    ensures |r| == if c > 0 then |s| * c else 0
  {
    if c <= 0 then [] else Repeat(s, c - 1) + s
  }

  /** Python's clamping of a slice bound `i` on a list of length `len`. */
  function Bound(i: int, len: nat): (r: nat)
    ensures r <= len
  {
    if i < 0 then (if i + len < 0 then 0 else i + len) else if i > len then len else i
  }

  /** Python's `s[lo:hi]`. */
  function PySlice(s: seq<int>, lo: int, hi: int): (r: seq<int>)
    ensures 0 <= lo <= hi <= |s| ==> r == s[lo..hi]
    ensures |r| <= |s|
  {
    var a, b := Bound(lo, |s|), Bound(hi, |s|);
    if a < b then s[a..b] else []
  }

  /** The comprehension cutting `people` into `paperCount` blocks of `k`. */
  function Blocks(people: seq<int>, paperCount: nat, k: int): (r: seq<seq<int>>)
    ensures |r| == paperCount
  {
    seq(paperCount, j requires 0 <= j < paperCount => PySlice(people, j * k, (j + 1) * k))
  }

  /** All blocks one after the other: the people the `Counter` counts. */
  function Flatten(blocks: seq<seq<int>>): seq<int>
  {
    if blocks == [] then [] else Flatten(blocks[..|blocks| - 1]) + blocks[|blocks| - 1]
  }

  /** `[c[p] for p in range(n)]`. */
  function Loads(blocks: seq<seq<int>>, n: int): (r: seq<int>)
    ensures |r| == if n > 0 then n else 0
  {
    var tally := multiset(Flatten(blocks));
    var people := Range(n);
    seq(|people|, p requires 0 <= p < |people| => tally[people[p]])
  }

  /** `len(set(block))`. */
  function DistinctCount(block: seq<int>): nat
  {
    |set x | x in block|
  }

  /** The roster `list(range(evaluators)) * complete_cycles`, where the number of
      complete cycles is the total number of evaluations divided by `evaluators`. */
  function People(paperCount: nat, evaluators: int, evalCount: int): (r: seq<int>)
    requires evaluators != 0
  {
    Repeat(Range(evaluators), FloorDiv(paperCount * evalCount, evaluators))
  }

  /** `_assign_papers`: an AssertionError when more evaluations than evaluators are asked
      for, a ZeroDivisionError without evaluators, an AssertionError when a block falls
      short of distinct people or a load differs from the number of whole cycles, and
      otherwise the blocks and the loads. */
  function AssignPapers(paperCount: nat, evaluators: int, evalCount: int): (r: Result<Assignment>)
    ensures evalCount > evaluators ==> r == Err(AssertionError)
    ensures evalCount <= evaluators && evaluators == 0 ==> r == Err(ZeroDivisionError)
    ensures r.Err? ==> r.error == AssertionError || r.error == ZeroDivisionError
  {
    if evalCount > evaluators then Err(AssertionError)
    else if evaluators == 0 then Err(ZeroDivisionError)
    else
      var cycles := FloorDiv(paperCount * evalCount, evaluators);
      var evaluations := Blocks(People(paperCount, evaluators, evalCount), paperCount, evalCount);
      if !(forall j | 0 <= j < |evaluations| :: DistinctCount(evaluations[j]) == evalCount) then
        Err(AssertionError)
      else
        var loads := Loads(evaluations, evaluators);
        if !(forall p | 0 <= p < |loads| :: loads[p] == cycles) then Err(AssertionError)
        else Ok(Assignment(evaluations, loads))
  }

  /** A positive multiple of `m` is at least `m`. */
  lemma {:induction false} MulAtLeast(m: int, d: int)
    requires m > 0 && d >= 1
    ensures m * d >= m
  {
    if d > 1 {
      MulAtLeast(m, d - 1);
      assert m * d == m * (d - 1) + m;
    }
  }

  /** Adding whole multiples of `m` leaves the remainder. */
  lemma ModShift(m: int, q: int, j: int)
    requires m > 0 && 0 <= j < m
    ensures (m * q + j) % m == j
    ensures (m * q + j) / m == q
  {
    var x := m * q + j;
    var d := q - x / m;
    assert x == m * (x / m) + x % m;
    assert m * d == x % m - j;
    if d >= 1 {
      MulAtLeast(m, d);
    } else if d <= -1 {
      MulAtLeast(m, -d);
    }
  }

  /** Two positions less than `m` apart have different remainders modulo `m`. */
  lemma ModApart(m: int, a: int, d: int)
    requires m > 0 && a >= 0 && 0 < d < m
    ensures (a + d) % m != a % m
  {
    var q, r := a / m, a % m;
    assert a == m * q + r;
    if r + d < m {
      ModShift(m, q, r + d);
      assert a + d == m * q + (r + d);
    } else {
      ModShift(m, q + 1, r + d - m);
      assert a + d == m * (q + 1) + (r + d - m);
    }
  }

  /** The `i`-th of `s` repeated is the `i mod |s|`-th of `s`. */
  lemma {:induction false} RepeatAt(s: seq<int>, c: int, i: int)
    requires s != [] && 0 <= i < |Repeat(s, c)|
    ensures Repeat(s, c)[i] == s[i % |s|]
  {
    var prev := Repeat(s, c - 1);
    if i < |prev| {
      RepeatAt(s, c - 1, i);
    } else {
      assert |prev| == |s| * (c - 1);
      ModShift(|s|, c - 1, i - |prev|);
    }
  }

  /** Multiplying by a non-negative factor keeps the order. */
  lemma MulLe(a: int, b: int, k: int)
    requires a <= b && k >= 0
    ensures a * k <= b * k
  {
    if a < b && k > 0 {
      MulAtLeast(k, b - a);
      assert b * k - a * k == k * (b - a);
    }
  }

  /** A block has at most as many distinct people as places, and exactly as many when
      nobody appears twice. */
  lemma {:induction false} DistinctCountBound(b: seq<int>)
    ensures DistinctCount(b) <= |b|
    ensures Distinct(b) ==> DistinctCount(b) == |b|
  {
    if b != [] {
      var init, last := b[..|b| - 1], b[|b| - 1];
      DistinctCountBound(init);
      assert (set x | x in b) == (set x | x in init) + {last};
      if Distinct(b) {
        assert Distinct(init);
        assert last !in init;
      }
    }
  }

  /** A sequence without repeats holds each of its elements once. */
  lemma {:induction false} DistinctOnce(s: seq<int>, x: int)
    requires Distinct(s) && x in s
    ensures multiset(s)[x] == 1
  {
    assert s == [s[0]] + s[1..];
    if s[0] == x {
      assert x !in s[1..];
    } else {
      DistinctOnce(s[1..], x);
    }
  }

  /** In `range(n)` repeated `c` times everybody appears `c` times. */
  lemma {:induction false} RepeatCount(n: int, c: int, p: int)
    requires n > 0 && c >= 0 && 0 <= p < n
    ensures multiset(Repeat(Range(n), c))[p] == c
  {
    if c > 0 {
      RepeatCount(n, c - 1, p);
      RangeOnce(n, p);
      var prev, people := Repeat(Range(n), c - 1), Range(n);
      assert multiset(prev + people) == multiset(prev) + multiset(people);
    }
  }

  /** `range(n)` holds each of 0..n-1 once. */
  lemma RangeOnce(n: int, p: int)
    requires 0 <= p < n
    ensures multiset(Range(n))[p] == 1
  {
    assert Range(n)[p] == p;
    DistinctOnce(Range(n), p);
  }

  /** Consecutive blocks of `k` taken from the front, one after the other, are the front
      of `people`. */
  lemma {:induction false} FlattenBlocks(people: seq<int>, paperCount: nat, k: int)
    requires k >= 0 && paperCount * k <= |people|
    ensures Flatten(Blocks(people, paperCount, k)) == people[..paperCount * k]
  {
    if paperCount > 0 {
      var blocks := Blocks(people, paperCount, k);
      var q := paperCount - 1;
      var lo, hi := q * k, paperCount * k;
      BlockIsSlice(people, paperCount, k, q);
      MulLe(q, paperCount, k);
      FlattenBlocks(people, q, k);
      assert blocks[..q] == Blocks(people, q, k);
      assert people[..hi] == people[..lo] + people[lo..hi];
    }
  }

  /** Block `j` is the `k` places of `people` after the first `j * k`. */
  lemma BlockIsSlice(people: seq<int>, paperCount: nat, k: int, j: int)
    requires k >= 0 && paperCount * k <= |people| && 0 <= j < paperCount
    ensures 0 <= j * k && j * k + k <= |people|
    ensures Blocks(people, paperCount, k)[j] == people[j * k..j * k + k]
  {
    var lo, hi := j * k, (j + 1) * k;
    MulSucc(j, k);
    MulLe(0, j, k);
    MulLe(j + 1, paperCount, k);
    assert Blocks(people, paperCount, k)[j] == PySlice(people, lo, hi);
  }

  /** One more factor of `k`. */
  lemma MulSucc(q: int, k: int)
    ensures (q + 1) * k == q * k + k
  {
  }

  /** With a positive number of evaluators the roster holds the whole cycles: exactly the
      evaluations asked for when the evaluators divide them, fewer otherwise. */
  lemma PeopleLength(paperCount: nat, n: int, k: int)
    requires n > 0 && k >= 0
    ensures (paperCount * k) % n == 0 ==> |People(paperCount, n, k)| == paperCount * k
    ensures (paperCount * k) % n != 0 ==> |People(paperCount, n, k)| < paperCount * k
  {
    var total := paperCount * k;
    MulLe(0, paperCount, k);
    WholeCycles(total, n);
    RosterLength(paperCount, n, k);
  }

  /** The roster has `n` places per whole cycle. */
  lemma RosterLength(paperCount: nat, n: int, k: int)
    requires n > 0 && k >= 0
    ensures |People(paperCount, n, k)| == n * ((paperCount * k) / n)
  {
    var total := paperCount * k;
    MulLe(0, paperCount, k);
    WholeCycles(total, n);
    assert FloorDiv(total, n) == total / n;
    assert |Range(n)| == n;
    if total / n == 0 {
      assert n * (total / n) == 0;
    }
  }

  /** The whole cycles of `n` in `total` cover it exactly when `n` divides it, and fall
      short otherwise. */
  lemma WholeCycles(total: int, n: int)
    requires total >= 0 && n > 0
    ensures total / n >= 0
    ensures total % n == 0 ==> n * (total / n) == total
    ensures total % n != 0 ==> n * (total / n) < total
  {
    var c, r := total / n, total % n;
    assert total == n * c + r && 0 <= r < n;
    if c < 0 {
      MulAtLeast(n, -c);
    }
  }

  /** When the evaluators divide the work, block `j` holds the `k` people after the first
      `j * k` places of the roster. */
  lemma BlockOfRoster(paperCount: nat, n: int, k: int, j: int)
    requires n > 0 && 0 <= k <= n && (paperCount * k) % n == 0 && 0 <= j < paperCount
    ensures var b := Blocks(People(paperCount, n, k), paperCount, k)[j];
      |b| == k && forall i :: 0 <= i < k ==> b[i] == (j * k + i) % n
  {
    var people := People(paperCount, n, k);
    PeopleLength(paperCount, n, k);
    BlockIsSlice(people, paperCount, k, j);
    var start := j * k;
    var b := Blocks(people, paperCount, k)[j];
    forall i | 0 <= i < k
      ensures b[i] == (start + i) % n
    {
      assert b[i] == people[start + i];
      RosterAt(paperCount, n, k, start + i);
    }
  }

  /** The roster names the evaluators in turn. */
  lemma RosterAt(paperCount: nat, n: int, k: int, i: int)
    requires n > 0 && 0 <= i < |People(paperCount, n, k)|
    ensures People(paperCount, n, k)[i] == i % n
  {
    RepeatAt(Range(n), FloorDiv(paperCount * k, n), i);
  }

  /** ... and they are all different, since `k` does not exceed `n`. */
  lemma BlockDistinct(paperCount: nat, n: int, k: int, j: int)
    requires n > 0 && 0 <= k <= n && (paperCount * k) % n == 0 && 0 <= j < paperCount
    ensures Distinct(Blocks(People(paperCount, n, k), paperCount, k)[j])
  {
    BlockOfRoster(paperCount, n, k, j);
    MulLe(0, j, k);
    ResiduesDistinct(Blocks(People(paperCount, n, k), paperCount, k)[j], j * k, n);
  }

  /** Fewer than `n` consecutive remainders modulo `n` are all different. */
  lemma ResiduesDistinct(b: seq<int>, start: int, n: int)
    requires n > 0 && start >= 0 && |b| <= n
    requires forall i :: 0 <= i < |b| ==> b[i] == (start + i) % n
    ensures Distinct(b)
  {
    forall i1, i2 | 0 <= i1 < i2 < |b|
      ensures b[i1] != b[i2]
    {
      var d := i2 - i1;
      assert b[i1] == (start + i1) % n && b[i2] == ((start + i1) + d) % n;
      ModApart(n, start + i1, d);
    }
  }

  /** When the evaluators do not divide the work, the roster runs out inside the last
      block, which comes out short. */
  lemma ShortLastBlock(paperCount: nat, n: int, k: int)
    requires n > 0 && 0 < k && paperCount > 0 && (paperCount * k) % n != 0
    ensures |Blocks(People(paperCount, n, k), paperCount, k)[paperCount - 1]| < k
  {
    var people := People(paperCount, n, k);
    PeopleLength(paperCount, n, k);
    var q := paperCount - 1;
    MulLe(0, q, k);
    assert paperCount * k == q * k + k;
  }

  /** When the evaluators divide the work, both assertions pass: every block has `k`
      different people and everybody's load is the number of whole cycles. */
  lemma DividedWorkSucceeds(paperCount: nat, n: int, k: int)
    requires n > 0 && 0 <= k <= n && (paperCount * k) % n == 0
    ensures AssignPapers(paperCount, n, k).Ok?
    ensures AssignPapers(paperCount, n, k).value.evaluations == Blocks(People(paperCount, n, k), paperCount, k)
    ensures forall p :: 0 <= p < n ==> AssignPapers(paperCount, n, k).value.loads[p] == (paperCount * k) / n
  {
    var c := (paperCount * k) / n;
    BlocksAllDistinct(paperCount, n, k);
    LoadsAllCycles(paperCount, n, k);
    assert FloorDiv(paperCount * k, n) == c;
  }

  /** When the evaluators divide the work, every block names `k` different people. */
  lemma BlocksAllDistinct(paperCount: nat, n: int, k: int)
    requires n > 0 && 0 <= k <= n && (paperCount * k) % n == 0
    ensures forall j :: 0 <= j < paperCount ==>
      DistinctCount(Blocks(People(paperCount, n, k), paperCount, k)[j]) == k
  {
    var evaluations := Blocks(People(paperCount, n, k), paperCount, k);
    forall j | 0 <= j < paperCount
      ensures DistinctCount(evaluations[j]) == k
    {
      BlockOfRoster(paperCount, n, k, j);
      BlockDistinct(paperCount, n, k, j);
      DistinctCountBound(evaluations[j]);
    }
  }

  /** When the evaluators divide the work, the blocks together are the whole roster, so
      everybody is counted once per whole cycle. */
  lemma LoadsAllCycles(paperCount: nat, n: int, k: int)
    requires n > 0 && 0 <= k <= n && (paperCount * k) % n == 0
    ensures forall p :: 0 <= p < n ==>
      Loads(Blocks(People(paperCount, n, k), paperCount, k), n)[p] == (paperCount * k) / n
  {
    var people := People(paperCount, n, k);
    var evaluations := Blocks(people, paperCount, k);
    PeopleLength(paperCount, n, k);
    FlattenBlocks(people, paperCount, k);
    assert Flatten(evaluations) == people;
    MulLe(0, paperCount, k);
    var c := (paperCount * k) / n;
    WholeCycles(paperCount * k, n);
    assert FloorDiv(paperCount * k, n) == c;
    var loads := Loads(evaluations, n);
    forall p | 0 <= p < n
      ensures loads[p] == c
    {
      RepeatCount(n, c, p);
      assert Range(n)[p] == p;
    }
  }

  /** When they do not, the last block is short and the first assertion fails. */
  lemma UndividedWorkFails(paperCount: nat, n: int, k: int)
    requires n > 0 && 0 < k <= n && paperCount > 0 && (paperCount * k) % n != 0
    ensures AssignPapers(paperCount, n, k) == Err(AssertionError)
  {
    var evaluations := Blocks(People(paperCount, n, k), paperCount, k);
    ShortLastBlock(paperCount, n, k);
    DistinctCountBound(evaluations[paperCount - 1]);
  }

  /** A negative number of evaluations per paper leaves the roster empty, so the first
      block has no people and the first assertion fails. */
  lemma NegativeCountFails(paperCount: nat, n: int, k: int)
    requires paperCount > 0 && k < 0 && k <= n && n != 0
    ensures AssignPapers(paperCount, n, k) == Err(AssertionError)
  {
    var people := People(paperCount, n, k);
    if n > 0 {
      MulAtLeast(paperCount, -k);
      assert paperCount * k == -(paperCount * -k);
      var c := (paperCount * k) / n;
      assert paperCount * k == n * c + (paperCount * k) % n;
      if c >= 0 {
        MulLe(0, c, n);
      }
      assert FloorDiv(paperCount * k, n) == c;
    }
    assert people == [];
    var evaluations := Blocks(people, paperCount, k);
    assert evaluations[0] == [];
  }

  /** Without papers there are no blocks and every load is 0. */
  lemma NoPapersSucceeds(n: int, k: int)
    requires k <= n && n != 0
    ensures AssignPapers(0, n, k).Ok?
    ensures AssignPapers(0, n, k).value.evaluations == []
    ensures forall p :: 0 <= p < |AssignPapers(0, n, k).value.loads| ==> AssignPapers(0, n, k).value.loads[p] == 0
  {
    assert FloorDiv(0, n) == 0;
    var evaluations := Blocks(People(0, n, k), 0, k);
    assert Flatten(evaluations) == [];
  }

  /** `_assign_papers` returns exactly when there are evaluators, no more evaluations per
      paper than evaluators, and either no papers or a non-negative number of evaluations
      per paper whose total the evaluators divide. */
  lemma AssignPapersSucceedsIff(paperCount: nat, evaluators: int, evalCount: int)
    ensures AssignPapers(paperCount, evaluators, evalCount).Ok? <==>
      evalCount <= evaluators && evaluators != 0 &&
      (paperCount == 0 || (evalCount >= 0 && (paperCount * evalCount) % evaluators == 0))
  {
    if evalCount <= evaluators && evaluators != 0 {
      if paperCount == 0 {
        NoPapersSucceeds(evaluators, evalCount);
      } else if evalCount < 0 {
        NegativeCountFails(paperCount, evaluators, evalCount);
      } else if (paperCount * evalCount) % evaluators == 0 {
        DividedWorkSucceeds(paperCount, evaluators, evalCount);
      } else {
        UndividedWorkFails(paperCount, evaluators, evalCount);
      }
    }
  }

  /** A returned assignment has one block per paper; every block names `evalCount`
      different evaluators, the ones that follow the first `j * evalCount` places of the
      roster in turn. */
  lemma AssignedBlocks(paperCount: nat, evaluators: int, evalCount: int)
    requires AssignPapers(paperCount, evaluators, evalCount).Ok?
    ensures evaluators != 0
    ensures |AssignPapers(paperCount, evaluators, evalCount).value.evaluations| == paperCount
    ensures forall j :: 0 <= j < paperCount ==>
      var b := AssignPapers(paperCount, evaluators, evalCount).value.evaluations[j];
      |b| == evalCount && Distinct(b) && forall i :: 0 <= i < evalCount ==> b[i] == (j * evalCount + i) % evaluators
  {
    AssignPapersSucceedsIff(paperCount, evaluators, evalCount);
    if paperCount > 0 {
      DividedWorkSucceeds(paperCount, evaluators, evalCount);
      forall j | 0 <= j < paperCount
        ensures var b := AssignPapers(paperCount, evaluators, evalCount).value.evaluations[j];
          |b| == evalCount && Distinct(b) && forall i :: 0 <= i < evalCount ==> b[i] == (j * evalCount + i) % evaluators
      {
        BlockOfRoster(paperCount, evaluators, evalCount, j);
        BlockDistinct(paperCount, evaluators, evalCount, j);
      }
    }
  }

  /** A returned assignment has one load per evaluator, and every evaluator carries an
      equal share of all the evaluations. */
  lemma AssignedLoads(paperCount: nat, evaluators: int, evalCount: int)
    requires AssignPapers(paperCount, evaluators, evalCount).Ok?
    ensures |AssignPapers(paperCount, evaluators, evalCount).value.loads| == if evaluators > 0 then evaluators else 0
    ensures forall p :: 0 <= p < |AssignPapers(paperCount, evaluators, evalCount).value.loads| ==>
      AssignPapers(paperCount, evaluators, evalCount).value.loads[p] * evaluators == paperCount * evalCount
  {
    AssignPapersSucceedsIff(paperCount, evaluators, evalCount);
    if paperCount == 0 {
      NoPapersSucceeds(evaluators, evalCount);
    } else {
      DividedWorkSucceeds(paperCount, evaluators, evalCount);
      var total := paperCount * evalCount;
      var c := total / evaluators;
      MulLe(0, paperCount, evalCount);
      WholeCycles(total, evaluators);
      assert c * evaluators == total;
      var loads := AssignPapers(paperCount, evaluators, evalCount).value.loads;
      assert forall p :: 0 <= p < |loads| ==> loads[p] == c;
    }
  }

  /** `_validate_evaluation_count`: other options and a missing evaluator count pass the
      value through; otherwise the value must lie in 1..evaluator count, or the option is
      rejected with a BadParameter. Click calls the check with None when `-k` is not
      given, and comparing None with a number raises a TypeError. */
  function ValidateEvaluationCount(paramName: string, evaluatorCount: Option<int>, value: Option<int>): (r: Result<Option<int>>)
    ensures r.Ok? ==> r.value == value
    ensures r.Err? <==> (paramName == "evaluation_count" && evaluatorCount.Some? &&
      (value.None? || !(0 < value.value <= evaluatorCount.value)))
    ensures r.Err? && value.None? ==> r.error == TypeError
    ensures r.Err? && value.Some? ==> r.error == BadParameter
  {
    if paramName != "evaluation_count" then Ok(value)
    else if evaluatorCount.None? then Ok(value)
    else if value.None? then Err(TypeError)
    else if !(0 < value.value <= evaluatorCount.value) then Err(BadParameter)
    else Ok(value)
  }

  /** A count the option check accepts for a known number of evaluators clears the guard
      of `_assign_papers`, which then succeeds exactly when the evaluators divide the
      total work. */
  lemma ValidatedCountAssigns(paperCount: nat, evaluators: int, evalCount: int)
    requires ValidateEvaluationCount("evaluation_count", Some(evaluators), Some(evalCount)).Ok?
    ensures AssignPapers(paperCount, evaluators, evalCount).Ok? <==> (paperCount * evalCount) % evaluators == 0
  {
    AssignPapersSucceedsIff(paperCount, evaluators, evalCount);
    if paperCount == 0 {
      assert paperCount * evalCount == 0;
    }
  }
}
