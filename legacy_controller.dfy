/** The older web app's `EvidenceController`: the selection over the sheet's cluster ids,
    the neighbour ids it navigates to, the decision of the navigation form, and the
    toggling of one exclude reason. The ids are the index of the sheet; of the row
    contents only the include cell is read, and the repository's reads and writes are
    not part of this model. */
module LegacyController {
  import opened Wrappers
  import opened Strings
  import opened Seqs
  import opened PyValues
  import opened EvidenceRepo

  const UnspecifiedReason: string := "<unspecified reason>"

  /** `next_id` as written: the smallest id above `current`, where `or -1` also turns a
      successor id of 0 into -1. */
  function LegacyNextId(rows: seq<Row>, current: int): (r: int)
    ensures NextId(rows, current) != 0 ==> r == NextId(rows, current)
    ensures NextId(rows, current) == 0 ==> r == -1
  {
    var n := NextId(rows, current);
    if n == 0 then -1 else n
  }

  /** `prev_id` as written: the largest id below `current`, where `or -1` also turns a
      predecessor id of 0 into -1. */
  function LegacyPrevId(rows: seq<Row>, current: int): (r: int)
    ensures PrevId(rows, current) != 0 ==> r == PrevId(rows, current)
    ensures PrevId(rows, current) == 0 ==> r == -1
  {
    var p := PrevId(rows, current);
    if p == 0 then -1 else p
  }

  /** With ids 0 and 1 and the selection on 1, the record before is 0, but `prev_id`
      reports that there is none. */
  lemma LegacyPrevIdMissesZero()
    ensures PrevId([Row(0, map[]), Row(1, map[])], 1) == 0
    ensures LegacyPrevId([Row(0, map[]), Row(1, map[])], 1) == -1
  {
    var rows := [Row(0, map[]), Row(1, map[])];
    PrevIsPredecessor(rows, 1);
    assert rows[0].id < 1;
  }

  /** With ids 0 and 1 and no selection yet, the record after is 0, but `next_id`
      reports that there is none. */
  lemma LegacyNextIdMissesZero()
    ensures NextId([Row(0, map[]), Row(1, map[])], -1) == 0
    ensures LegacyNextId([Row(0, map[]), Row(1, map[])], -1) == -1
  {
    var rows := [Row(0, map[]), Row(1, map[])];
    NextIsSuccessor(rows, -1);
    assert rows[0].id > -1;
  }

  /** The sheet has an include column: some row carries the cell. A row without it reads
      as NaN, as pandas fills a missing cell. */
  predicate HasIncludeColumn(rows: seq<Row>)
  {
    exists i :: 0 <= i < |rows| && "include" in rows[i].record
  }

  /** The position of the first row whose include cell is empty, None or NaN. */
  function FirstUnfilledPosition(rows: seq<Row>): (r: int)
    ensures -1 <= r < |rows|
    ensures r == -1 <==> forall i :: 0 <= i < |rows| ==> !IsUnfilled(rows[i].record)
    ensures r >= 0 ==> IsUnfilled(rows[r].record) && forall i :: 0 <= i < r ==> !IsUnfilled(rows[i].record)
  {
    if rows == [] then -1
    else if IsUnfilled(rows[0].record) then 0
    else
      var r := FirstUnfilledPosition(rows[1..]);
      assert forall i :: 1 <= i < |rows| ==> rows[1..][i - 1] == rows[i];
      if r == -1 then -1 else r + 1
  }

  /** `next_non_specified` as written: -1 without an include column, otherwise
      `argmax` over the unfilled mask, which is the POSITION of the first unfilled row
      (and -1 when there is none). The page uses it as the id to select. */
  function NextNonSpecified(rows: seq<Row>): (r: int)
    ensures -1 <= r < |rows|
    ensures r == -1 <==> !HasIncludeColumn(rows) || forall i :: 0 <= i < |rows| ==> !IsUnfilled(rows[i].record)
    ensures r >= 0 ==> IsUnfilled(rows[r].record) && forall i :: 0 <= i < r ==> !IsUnfilled(rows[i].record)
  {
    if !HasIncludeColumn(rows) then -1 else FirstUnfilledPosition(rows)
  }

  /** The id of the first unfilled row, -1 when there is none or no include column: what
      the page selects from `next_non_specified`. */
  function NextNonSpecifiedId(rows: seq<Row>): (r: int)
    ensures NextNonSpecified(rows) == -1 ==> r == -1
    ensures NextNonSpecified(rows) >= 0 ==> r == rows[NextNonSpecified(rows)].id
    ensures NextNonSpecified(rows) >= 0 ==> exists i :: 0 <= i < |rows| && rows[i].id == r && IsUnfilled(rows[i].record)
  {
    var p := NextNonSpecified(rows);
    if p == -1 then -1 else rows[p].id
  }

  /** With ids 1 and 2, where only the row with id 2 awaits a decision, the position the
      page receives is 1, which is the id of the decided row. */
  lemma NextNonSpecifiedIsPosition()
    ensures var rows := [Row(1, map["include" := PyStr("include")]), Row(2, map["include" := PyStr("")])];
      NextNonSpecified(rows) == 1 && !IsUnfilled(rows[0].record) && rows[0].id == 1 &&
      NextNonSpecifiedId(rows) == 2
  {
    var rows := [Row(1, map["include" := PyStr("include")]), Row(2, map["include" := PyStr("")])];
    assert "include" in rows[0].record;
    assert !IsUnfilled(rows[0].record) && IsUnfilled(rows[1].record);
  }

  /** An id of the sheet lies between the first and the last id, and the first id is
      itself an id of the sheet. */
  lemma IdInRange(rows: seq<Row>, x: int)
    requires HasId(rows, x)
    ensures FirstId(rows) <= x <= LastId(rows)
    ensures HasId(rows, FirstId(rows))
  {
    var i :| 0 <= i < |rows| && rows[i].id == x;
  }

  /** With an id below `current`, the predecessor is an id of the sheet. */
  lemma PrevExists(rows: seq<Row>, current: int)
    requires exists i :: 0 <= i < |rows| && rows[i].id < current
    ensures HasId(rows, PrevId(rows, current))
  {
  }

  /** With an id above `current`, the successor is an id of the sheet. */
  lemma NextExists(rows: seq<Row>, current: int)
    requires exists i :: 0 <= i < |rows| && rows[i].id > current
    ensures HasId(rows, NextId(rows, current))
  {
  }

  /** When no id is negative, the page the navigation redirects to clamps an index of
      -1 onto the first id, which is 0 exactly when 0 was the predecessor: after the
      clamp, the as-written `prev_id` lands where the corrected one does. */
  lemma ClampedPrevIsPredecessor(rows: seq<Row>, current: int)
    requires forall i :: 0 <= i < |rows| ==> rows[i].id >= 0
    requires exists i :: 0 <= i < |rows| && rows[i].id < current
    ensures Clip(LegacyPrevId(rows, current), FirstId(rows), LastId(rows)) == PrevId(rows, current)
  {
    PrevExists(rows, current);
    IdInRange(rows, PrevId(rows, current));
    var f :| 0 <= f < |rows| && rows[f].id == FirstId(rows);
  }

  /** The same for `next_id`, whose successor can be 0 only before anything is
      selected. */
  lemma ClampedNextIsSuccessor(rows: seq<Row>, current: int)
    requires forall i :: 0 <= i < |rows| ==> rows[i].id >= 0
    requires exists i :: 0 <= i < |rows| && rows[i].id > current
    ensures Clip(LegacyNextId(rows, current), FirstId(rows), LastId(rows)) == NextId(rows, current)
  {
    NextExists(rows, current);
    IdInRange(rows, NextId(rows, current));
    var f :| 0 <= f < |rows| && rows[f].id == FirstId(rows);
  }

  /** Assigning `reasons[key] = None` in a dict whose keys are `keys`, in insertion order:
      a new key goes last, an existing one keeps its place. */
  function Put(keys: seq<string>, key: string): (r: seq<string>)
    ensures forall x :: x in r <==> x in keys || x == key
    ensures key in keys ==> r == keys
    ensures key !in keys ==> |r| == |keys| + 1 && r[..|keys|] == keys
    ensures Distinct(keys) ==> Distinct(r)
  {
    if key in keys then keys else keys + [key]
  }

  /** `del reasons[key]` on the keys in insertion order: the others keep their order. */
  function Remove(keys: seq<string>, key: string): (r: seq<string>)
    ensures forall x :: x in r <==> x in keys && x != key
    ensures key !in keys ==> r == keys
    ensures Distinct(keys) ==> Distinct(r) && |r| == if key in keys then |keys| - 1 else |keys|
    ensures IsSubseq(r, keys)
  {
    if keys == [] then []
    else
      var rest := Remove(keys[1..], key);
      assert keys == [keys[0]] + keys[1..];
      assert Distinct(keys) ==> keys[0] !in keys[1..] && Distinct(keys[1..]);
      if keys[0] == key then
        SubseqSkip(keys[0], rest, keys[1..]);
        rest
      else
        SubseqCons(keys[0], rest, keys[1..]);
        DistinctCons(keys[0], rest);
        [keys[0]] + rest
  }

  /** An element not in a sequence without repeats can go in front of it. */
  lemma DistinctCons(x: string, s: seq<string>)
    ensures x !in s && Distinct(s) ==> Distinct([x] + s)
  {
    if x !in s && Distinct(s) {
      forall i, j | 0 <= i < j < |[x] + s|
        ensures ([x] + s)[i] != ([x] + s)[j]
      {
        if i > 0 {
          assert ([x] + s)[i] == s[i - 1] && ([x] + s)[j] == s[j - 1];
        } else {
          assert ([x] + s)[j] == s[j - 1];
        }
      }
    }
  }

  /** The dict comprehension over the stored reasons: each non-empty reason, stripped,
      becomes a key. The emptiness test comes before the strip, so a reason of blanks
      gives the key "". */
  function ReasonKeys(reasons: seq<string>): (r: seq<string>)
    ensures forall x :: x in r ==> Strip(x) == x
  {
    if reasons == [] then []
    else
      var last := reasons[|reasons| - 1];
      if last == "" then ReasonKeys(reasons[..|reasons| - 1])
      else
        StripIdempotent(last);
        Put(ReasonKeys(reasons[..|reasons| - 1]), Strip(last))
  }

  /** The keys are the stripped non-empty reasons, each once, in the order in which they
      first occur. */
  lemma {:induction false} ReasonKeysAreFirstOccurrences(reasons: seq<string>)
    ensures ReasonKeys(reasons) == Dedup(StripAll(Filter(reasons, NotEmpty)))
  {
    if reasons != [] {
      var init, last := reasons[..|reasons| - 1], reasons[|reasons| - 1];
      ReasonKeysAreFirstOccurrences(init);
      SnocSplit(reasons);
      FilterAppend(init, last, NotEmpty);
      var kept := Filter(init, NotEmpty);
      var keys := ReasonKeys(init);
      assert keys == Dedup(StripAll(kept));
      if last != "" {
        assert Filter(reasons, NotEmpty) == kept + [last];
        StripAllSnoc(kept, last);
        DedupSnoc(StripAll(kept), Strip(last));
        assert ReasonKeys(reasons) == Put(keys, Strip(last));
      } else {
        assert Filter(reasons, NotEmpty) == kept;
        assert ReasonKeys(reasons) == keys;
      }
    }
  }

  /** The reasons the toggle starts from: the keys of the stored reasons without the
      placeholder for an unspecified reason. */
  function ExistingReasons(reasons: seq<string>): (r: seq<string>)
    ensures Distinct(r) && UnspecifiedReason !in r
    ensures forall x :: x in r ==> Strip(x) == x
    ensures forall x :: x in r <==> x != UnspecifiedReason && x in StripAll(Filter(reasons, NotEmpty))
  {
    ReasonKeysAreFirstOccurrences(reasons);
    Remove(ReasonKeys(reasons), UnspecifiedReason)
  }

  /** The controller of one uploaded sheet; `rows` stands for the sheet's index. */
  class LegacyEvidenceController {
    const rows: seq<Row>
    var currentId: int

    /** A controller with no selection. */
    constructor (rows: seq<Row>)
      ensures this.rows == rows && currentId == -1
    {
      this.rows := rows;
      currentId := -1;
    }

    /** The `selected_index` setter: the value clamped into [first id, last id]. */
    method SetSelectedIndex(value: int)
      modifies this
      ensures currentId == Clip(value, FirstId(rows), LastId(rows))
      ensures rows != [] ==> FirstId(rows) <= currentId <= LastId(rows)
    {
      if rows != [] {
        FirstLastBound(rows);
      }
      currentId := Clip(value, FirstId(rows), LastId(rows));
    }

    /** `current_record`: a ValueError while the selection is -1, otherwise the id whose
        record the repository is asked for. */
    function CurrentRecordId(): (r: Result<int>)
      reads this
      ensures r.Err? <==> currentId == -1
      ensures r.Err? ==> r.error == ValueError
      ensures r.Ok? ==> r.value == currentId
    {
      if currentId == -1 then Err(ValueError) else Ok(currentId)
    }

    /** `update_exclude_reason` on the evidence's stored reasons: the stored reasons are
        cleaned, then `reason` is added (exclude) or removed (include) and nothing else
        changes; include is True exactly when no reason is left, and the answer says
        whether the number of reasons changed. */
    method UpdateExcludeReason(reasons: seq<string>, exclude: bool, reason: string)
      returns (newReasons: seq<string>, included: bool, changed: bool)
      ensures Distinct(newReasons)
      ensures exclude ==> forall x :: x in newReasons <==> x in ExistingReasons(reasons) || x == reason
      ensures !exclude ==> forall x :: x in newReasons <==> x in ExistingReasons(reasons) && x != reason
      ensures exclude && reason !in ExistingReasons(reasons) ==> newReasons == ExistingReasons(reasons) + [reason]
      ensures exclude && reason in ExistingReasons(reasons) ==> newReasons == ExistingReasons(reasons)
      ensures IsSubseq(ExistingReasons(reasons), newReasons) || IsSubseq(newReasons, ExistingReasons(reasons))
      ensures included <==> newReasons == []
      ensures changed <==> if exclude then reason !in ExistingReasons(reasons) else reason in ExistingReasons(reasons)
    {
      ReasonKeysAreFirstOccurrences(reasons);
      var keys := ReasonKeys(reasons);
      if UnspecifiedReason in keys {
        keys := Remove(keys, UnspecifiedReason);
      }
      ghost var existing := keys;
      assert existing == ExistingReasons(reasons);
      SubseqRefl(existing);
      var beforeLen := |keys|;
      if exclude {
        keys := Put(keys, reason);
        if reason !in existing {
          SubseqOfExtension(existing, [reason]);
        }
      } else if reason in keys {
        keys := Remove(keys, reason);
      }
      var afterLen := |keys|;
      newReasons := keys;
      included := afterLen <= 0;
      changed := afterLen != beforeLen;
    }

    /** The decision of `handle_navigation`: "next-unfilled" and "goto" redirect at once;
        "next" moves on only below the last id and "prev" moves back only above the first;
        every other case, "next" on the last record included, is an HTTP 400. */
    method HandleNavigation(action: string, index: int) returns (r: Result<Redirect>)
      ensures action == "next-unfilled" ==> r == Ok(ToUnfilled)
      ensures action == "goto" ==> r == Ok(ToIndex(index - 1))
      ensures action == "next" && currentId < LastId(rows) ==> r == Ok(ToIndex(LegacyNextId(rows, currentId)))
      ensures action == "prev" && currentId > FirstId(rows) ==> r == Ok(ToIndex(LegacyPrevId(rows, currentId)))
      ensures r.Err? <==> (action != "next-unfilled" && action != "goto" &&
        !(action == "next" && currentId < LastId(rows)) && !(action == "prev" && currentId > FirstId(rows)))
      ensures r.Err? ==> r.error == HttpError(400)
    {
      if action == "next-unfilled" {
        return Ok(ToUnfilled);
      }
      if action == "goto" {
        return Ok(ToIndex(index - 1));
      }
      var nextIndex := currentId;
      if action == "next" && nextIndex < LastId(rows) {
        nextIndex := LegacyNextId(rows, currentId);
      } else if action == "prev" && nextIndex > FirstId(rows) {
        nextIndex := LegacyPrevId(rows, currentId);
      } else {
        return Err(HttpError(400));
      }
      r := Ok(ToIndex(nextIndex));
    }
  }

  /** Where the navigation form sends the browser: the page's next unfilled record, or
      the page at an index. */
  datatype Redirect = ToUnfilled | ToIndex(index: int)

  /** The navigation moves by one record: when no id is negative and the selection is a
      row of the sheet, "next" below the last id and "prev" above the first land, after
      the page's clamp, on the neighbouring ids. */
  lemma NavigationStepsToNeighbour(rows: seq<Row>, current: int)
    requires forall i :: 0 <= i < |rows| ==> rows[i].id >= 0
    requires HasId(rows, current)
    ensures current < LastId(rows) ==> Clip(LegacyNextId(rows, current), FirstId(rows), LastId(rows)) == NextId(rows, current)
    ensures current > FirstId(rows) ==> Clip(LegacyPrevId(rows, current), FirstId(rows), LastId(rows)) == PrevId(rows, current)
  {
    FirstLastBound(rows);
    if current < LastId(rows) {
      var l :| 0 <= l < |rows| && rows[l].id == LastId(rows);
      ClampedNextIsSuccessor(rows, current);
    }
    if current > FirstId(rows) {
      var f :| 0 <= f < |rows| && rows[f].id == FirstId(rows);
      ClampedPrevIsPredecessor(rows, current);
    }
  }
}
