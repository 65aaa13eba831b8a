/** The web back end's spreadsheet repository: rows of evidence keyed by cluster id,
    navigation over the ordered ids, and the in-place update of one row. */
module EvidenceRepo {
  import opened Wrappers
  import opened PyValues
  import opened EvidenceModel

  /** One spreadsheet row: its cluster id (the frame's index) and its cells. */
  datatype Row = Row(id: int, record: Record)

  /** The navigation requests `navigate` understands. */
  datatype Action = First | Prev | Next | Last | Unfilled | Goto

  /** The index holds `id`. */
  predicate HasId(rows: seq<Row>, id: int)
  {
    exists i :: 0 <= i < |rows| && rows[i].id == id
  }

  /** The index holds no id twice. */
  predicate DistinctIds(rows: seq<Row>)
  {
    forall i, j :: 0 <= i < j < |rows| ==> rows[i].id != rows[j].id
  }

  /** `__min_id` of the rows `p` selects: the smallest of their ids, or -1 when `p`
      selects none (the minimum of an empty index is NaN). */
  function MinIdWhere(rows: seq<Row>, p: Row -> bool): (r: int)
    ensures (exists i :: 0 <= i < |rows| && p(rows[i])) ==>
      (exists i :: 0 <= i < |rows| && p(rows[i]) && rows[i].id == r)
    ensures forall i :: 0 <= i < |rows| && p(rows[i]) ==> r <= rows[i].id
    ensures (forall i :: 0 <= i < |rows| ==> !p(rows[i])) ==> r == -1
  {
    if rows == [] then -1
    else
      var m := MinIdWhere(rows[..|rows| - 1], p);
      var last := rows[|rows| - 1];
      if !p(last) then m
      else if (forall i :: 0 <= i < |rows| - 1 ==> !p(rows[i])) || last.id < m then last.id
      else m
  }

  /** `__max_id` of the rows `p` selects: the largest of their ids, or -1 when none. */
  function MaxIdWhere(rows: seq<Row>, p: Row -> bool): (r: int)
    ensures (exists i :: 0 <= i < |rows| && p(rows[i])) ==>
      (exists i :: 0 <= i < |rows| && p(rows[i]) && rows[i].id == r)
    ensures forall i :: 0 <= i < |rows| && p(rows[i]) ==> rows[i].id <= r
    ensures (forall i :: 0 <= i < |rows| ==> !p(rows[i])) ==> r == -1
  {
    if rows == [] then -1
    else
      var m := MaxIdWhere(rows[..|rows| - 1], p);
      var last := rows[|rows| - 1];
      if !p(last) then m
      else if (forall i :: 0 <= i < |rows| - 1 ==> !p(rows[i])) || last.id > m then last.id
      else m
  }

  /** An include cell nobody has filled in: null, NaN or the empty string. */
  predicate IsUnfilled(record: Record)
  {
    var v := Get(record, "include");
    v.PyNone? || v.PyNaN? || v == PyStr("")
  }

  function FirstId(rows: seq<Row>): int { MinIdWhere(rows, (row: Row) => true) }

  function LastId(rows: seq<Row>): int { MaxIdWhere(rows, (row: Row) => true) }

  function NextId(rows: seq<Row>, current: int): int { MinIdWhere(rows, (row: Row) => row.id > current) }

  function PrevId(rows: seq<Row>, current: int): int { MaxIdWhere(rows, (row: Row) => row.id < current) }

  function NextUnfilled(rows: seq<Row>, current: int): int
  {
    MinIdWhere(rows, (row: Row) => row.id > current && IsUnfilled(row.record))
  }

  /** numpy's `clip(x, lo, hi)`: `min(max(x, lo), hi)`. */
  function Clip(x: int, lo: int, hi: int): int
  {
    var up := if x < lo then lo else x;
    if up > hi then hi else up
  }

  /** `navigate`: the id the request leads to from `clusterId`, -1 when there is none. */
  function Navigate(rows: seq<Row>, clusterId: int, action: Action): int
  {
    match action
    case First => FirstId(rows)
    case Prev => PrevId(rows, clusterId)
    case Next => NextId(rows, clusterId)
    case Last => LastId(rows)
    case Unfilled => NextUnfilled(rows, clusterId)
    case Goto => Clip(clusterId, FirstId(rows), LastId(rows))
  }

  /** First and last are the smallest and largest ids of a non-empty sheet. */
  lemma FirstLastBound(rows: seq<Row>)
    requires rows != []
    ensures HasId(rows, Navigate(rows, 0, First)) && HasId(rows, Navigate(rows, 0, Last))
    ensures forall i :: 0 <= i < |rows| ==>
      Navigate(rows, 0, First) <= rows[i].id <= Navigate(rows, 0, Last)
  {
    assert HasId(rows, rows[0].id);
  }

  /** Next is the smallest id above the current one, -1 when there is none. */
  lemma NextIsSuccessor(rows: seq<Row>, current: int)
    ensures var r := Navigate(rows, current, Next);
      (exists i :: 0 <= i < |rows| && rows[i].id > current) ==>
        (HasId(rows, r) && r > current && forall i :: 0 <= i < |rows| && rows[i].id > current ==> r <= rows[i].id)
    ensures (forall i :: 0 <= i < |rows| ==> rows[i].id <= current) ==> Navigate(rows, current, Next) == -1
  {
  }

  /** Prev is the largest id below the current one, -1 when there is none. */
  lemma PrevIsPredecessor(rows: seq<Row>, current: int)
    ensures var r := Navigate(rows, current, Prev);
      (exists i :: 0 <= i < |rows| && rows[i].id < current) ==>
        (HasId(rows, r) && r < current && forall i :: 0 <= i < |rows| && rows[i].id < current ==> rows[i].id <= r)
    ensures (forall i :: 0 <= i < |rows| ==> rows[i].id >= current) ==> Navigate(rows, current, Prev) == -1
  {
  }

  /** From an id with an earlier neighbour, going back and then forward returns to it. */
  lemma NextOfPrev(rows: seq<Row>, x: int)
    requires HasId(rows, x)
    requires exists i :: 0 <= i < |rows| && rows[i].id < x
    ensures Navigate(rows, Navigate(rows, x, Prev), Next) == x
  {
    var p := PrevId(rows, x);
    var k :| 0 <= k < |rows| && rows[k].id == x;
    var n := NextId(rows, p);
    assert rows[k].id > p;
    var j :| 0 <= j < |rows| && rows[j].id > p && rows[j].id == n;
  }

  /** From an id with a later neighbour, going forward and then back returns to it. */
  lemma PrevOfNext(rows: seq<Row>, x: int)
    requires HasId(rows, x)
    requires exists i :: 0 <= i < |rows| && rows[i].id > x
    ensures Navigate(rows, Navigate(rows, x, Next), Prev) == x
  {
    var n := NextId(rows, x);
    var k :| 0 <= k < |rows| && rows[k].id == x;
    var p := PrevId(rows, n);
    assert rows[k].id < n;
    var j :| 0 <= j < |rows| && rows[j].id < n && rows[j].id == p;
  }

  /** Stepping back from just past the last id reaches the last id, and stepping forward
      from just before the first reaches the first. */
  lemma StepsIntoRange(rows: seq<Row>)
    requires rows != []
    ensures Navigate(rows, Navigate(rows, 0, Last) + 1, Prev) == Navigate(rows, 0, Last)
    ensures Navigate(rows, Navigate(rows, 0, First) - 1, Next) == Navigate(rows, 0, First)
  {
    FirstLastBound(rows);
    var last := LastId(rows);
    var first := FirstId(rows);
    var k :| 0 <= k < |rows| && rows[k].id == last;
    var m :| 0 <= m < |rows| && rows[m].id == first;
    assert rows[k].id < last + 1;
    assert rows[m].id > first - 1;
  }

  /** On an empty sheet every request gives -1. */
  lemma EmptySheet(clusterId: int, action: Action)
    ensures Navigate([], clusterId, action) == -1
  {
  }

  /** `goto` lands on the requested id when it lies between the first and last ids, and
      on the nearer end otherwise. */
  lemma GotoClamps(rows: seq<Row>, clusterId: int)
    requires rows != []
    ensures var r := Navigate(rows, clusterId, Goto);
      Navigate(rows, 0, First) <= r <= Navigate(rows, 0, Last) &&
      (Navigate(rows, 0, First) <= clusterId <= Navigate(rows, 0, Last) ==> r == clusterId) &&
      (clusterId < Navigate(rows, 0, First) ==> r == Navigate(rows, 0, First)) &&
      (clusterId > Navigate(rows, 0, Last) ==> r == Navigate(rows, 0, Last))
  {
    FirstLastBound(rows);
  }

  /** `df.loc[id] = dump`: pandas aligns the dumped mapping to the frame's columns, which
      are the cells every row holds. A column the dump has takes its value, a column it
      lacks becomes NaN, and a key of the dump that is not a column is dropped. Every
      row with that id is written. */
  function ReplaceRow(rows: seq<Row>, id: int, dump: Record): (r: seq<Row>)
    ensures |r| == |rows|
    ensures forall i :: 0 <= i < |rows| ==> r[i].id == rows[i].id && r[i].record.Keys == rows[i].record.Keys
    ensures forall i :: 0 <= i < |rows| && rows[i].id != id ==> r[i] == rows[i]
    ensures forall i, c :: 0 <= i < |rows| && rows[i].id == id && c in rows[i].record ==>
      r[i].record[c] == if c in dump then dump[c] else PyNaN
  {
    seq(|rows|, i requires 0 <= i < |rows| =>
      if rows[i].id == id then Row(id, map c | c in rows[i].record :: if c in dump then dump[c] else PyNaN)
      else rows[i])
  }

  /** The columns `__ensure_mandatory_cols` guarantees. */
  const MandatoryColumns: set<string> := {"include", "exclude_reasons"}

  /** `__ensure_mandatory_cols` on one row's cells: an include or exclude_reasons cell is
      turned into its `str`. A missing column is added from a fresh series of empty texts,
      which pandas aligns to the frame's index: the row gets the empty text when its id is
      one of the series' positions 0 .. n-1 (`aligned`) and NaN otherwise. */
  function WithMandatory(record: Record, aligned: bool): (r: Record)
    ensures r.Keys == record.Keys + MandatoryColumns
    ensures forall c :: c in record && c !in MandatoryColumns ==> r[c] == record[c]
    ensures forall c :: c in MandatoryColumns && c in record ==> r[c] == PyStr(Str(record[c]))
    ensures forall c :: c in MandatoryColumns && c !in record ==>
      r[c] == if aligned then PyStr("") else PyNaN
  {
    record["include" := AddedColumnCell(record, "include", aligned)]
      ["exclude_reasons" := AddedColumnCell(record, "exclude_reasons", aligned)]
  }

  /** The cell a mandatory column has after `__ensure_mandatory_cols`. */
  function AddedColumnCell(record: Record, c: string, aligned: bool): Value
  {
    if c in record then PyStr(Str(record[c]))
    else if aligned then PyStr("")
    else PyNaN
  }

  /** The rows as the repository holds them once loaded: every row with the mandatory
      columns, a missing one filled with the empty text only in the rows whose id is a
      position of the frame. */
  function Loaded(rows: seq<Row>): (r: seq<Row>)
    ensures |r| == |rows|
    ensures forall i :: 0 <= i < |rows| ==> r[i].id == rows[i].id
    ensures forall i :: 0 <= i < |rows| ==> MandatoryColumns <= r[i].record.Keys
    ensures forall i, c :: 0 <= i < |rows| && c in MandatoryColumns && c !in rows[i].record ==>
      (r[i].record[c] == PyStr("") <==> 0 <= rows[i].id < |rows|) &&
      (r[i].record[c] == PyNaN <==> !(0 <= rows[i].id < |rows|))
    ensures forall i, c :: 0 <= i < |rows| && c in MandatoryColumns && c in rows[i].record ==>
      r[i].record[c] == PyStr(Str(rows[i].record[c]))
  {
    seq(|rows|, i requires 0 <= i < |rows| =>
      Row(rows[i].id, WithMandatory(rows[i].record, 0 <= rows[i].id < |rows|)))
  }

  /** Once loaded, a row awaits a decision exactly when its include column was missing
      (whether the added cell is the empty text or NaN) or its cell's text is empty: an
      absent cell (None) or NaN already in the sheet is written out as "None" or "nan" by
      the conversion to text, so it counts as decided. */
  lemma LoadedUnfilled(rows: seq<Row>, i: int)
    requires 0 <= i < |rows|
    ensures IsUnfilled(Loaded(rows)[i].record) <==>
      "include" !in rows[i].record || Str(rows[i].record["include"]) == ""
  {
    assert Loaded(rows)[i].record == WithMandatory(rows[i].record, 0 <= rows[i].id < |rows|);
  }

  /** Writing a dump that holds the serialised flag into rows that have the include
      column leaves every row of that id decided. */
  lemma WrittenFlagFillsRow(rows: seq<Row>, id: int, dump: Record, included: bool)
    requires forall i :: 0 <= i < |rows| ==> "include" in rows[i].record
    requires "include" in dump && dump["include"] == PyStr(SerializeInclude(included))
    ensures forall i :: 0 <= i < |rows| && rows[i].id == id ==> !IsUnfilled(ReplaceRow(rows, id, dump)[i].record)
  {
    forall i | 0 <= i < |rows| && rows[i].id == id
      ensures !IsUnfilled(ReplaceRow(rows, id, dump)[i].record)
    {
      SerializedIncludeIsFilled(ReplaceRow(rows, id, dump)[i].record, included);
    }
  }

  /** `has_unfilled`: some row after id 0 still has an empty include cell; id 0 itself is
      never considered. */
  lemma HasUnfilledMeaning(rows: seq<Row>)
    ensures Navigate(rows, 0, Unfilled) >= 0 <==>
      exists i :: 0 <= i < |rows| && rows[i].id > 0 && IsUnfilled(rows[i].record)
  {
    var p := (row: Row) => row.id > 0 && IsUnfilled(row.record);
    if exists i :: 0 <= i < |rows| && rows[i].id > 0 && IsUnfilled(rows[i].record) {
      var i :| 0 <= i < |rows| && rows[i].id > 0 && IsUnfilled(rows[i].record);
      assert p(rows[i]);
    }
  }

  /** `df.loc[id]` on an id the index holds once: that row's cells. On an id the index
      holds twice pandas returns a frame of all those rows; the model takes the first
      of them, and `LookupDistinct` states the case the sheet is meant to be in. */
  function Lookup(rows: seq<Row>, id: int): (r: Option<Record>)
    ensures r.Some? <==> HasId(rows, id)
    ensures r.Some? ==> exists i :: 0 <= i < |rows| && rows[i].id == id && rows[i].record == r.value
  {
    if rows == [] then None
    else if rows[0].id == id then Some(rows[0].record)
    else
      var r := Lookup(rows[1..], id);
      assert HasId(rows[1..], id) ==> HasId(rows, id);
      assert HasId(rows, id) ==> HasId(rows[1..], id) by {
        if HasId(rows, id) {
          var i :| 0 <= i < |rows| && rows[i].id == id;
          assert rows[1..][i - 1].id == id;
        }
      }
      r
  }

  /** On an index without repeated ids, the lookup of an id gives the one row with it. */
  lemma {:induction false} LookupDistinct(rows: seq<Row>, id: int, i: int)
    requires DistinctIds(rows)
    requires 0 <= i < |rows| && rows[i].id == id
    ensures Lookup(rows, id) == Some(rows[i].record)
  {
    if i > 0 {
      assert rows[0].id != id;
      assert DistinctIds(rows[1..]) by {
        forall a, b | 0 <= a < b < |rows[1..]| ensures rows[1..][a].id != rows[1..][b].id {
          assert rows[1..][a] == rows[a + 1] && rows[1..][b] == rows[b + 1];
        }
      }
      assert rows[1..][i - 1] == rows[i];
      LookupDistinct(rows[1..], id, i - 1);
    }
  }

  /** The spreadsheet behind the screening app. */
  class PandasRepo {
    var rows: seq<Row>

    /** A repository over rows already read from the sheet, with the mandatory columns
        ensured. */
    constructor (rows: seq<Row>)
      ensures this.rows == Loaded(rows)
    {
      this.rows := Loaded(rows);
    }

    /** `has_unfilled`: the unfilled search from id 0 finds a row. */
    function HasUnfilled(): (r: bool)
      reads this
      ensures r <==> exists i :: 0 <= i < |rows| && rows[i].id > 0 && IsUnfilled(rows[i].record)
    {
      HasUnfilledMeaning(rows);
      Navigate(rows, 0, Unfilled) >= 0
    }

    /** `get`: the row's cells with its cluster id added; an id outside the index is a
        KeyError. A repeated id reads its first row, as `Lookup` says. */
    function Get(clusterId: int): (r: Result<Record>)
      reads this
      ensures r.Ok? <==> HasId(rows, clusterId)
      ensures r.Ok? ==> exists i :: 0 <= i < |rows| && rows[i].id == clusterId && r.value == rows[i].record["cluster_id" := PyInt(clusterId)]
    {
      var found := Lookup(rows, clusterId);
      if found.Some? then Ok(found.value["cluster_id" := PyInt(clusterId)]) else Err(KeyError)
    }

    /** `update`: an id outside the index is a KeyError and changes nothing; otherwise that
        id's row takes the dump aligned to its columns and every other row stays. Writing
        the workbook back is not part of the model. */
    method Update(clusterId: int, dump: Record) returns (r: Result<()>)
      modifies this
      ensures r.Err? <==> !HasId(old(rows), clusterId)
      ensures r.Err? ==> r.error == KeyError && rows == old(rows)
      ensures r.Ok? ==> rows == ReplaceRow(old(rows), clusterId, dump)
    {
      if !HasId(rows, clusterId) {
        return Err(KeyError);
      }
      rows := ReplaceRow(rows, clusterId, dump);
      r := Ok(());
    }
  }

  /** After an update the row holds the dump aligned to its columns, the index is the
      same, and every other row is unchanged. */
  lemma UpdateKeepsOthers(rows: seq<Row>, id: int, dump: Record, other: int)
    requires DistinctIds(rows) && HasId(rows, id)
    ensures DistinctIds(ReplaceRow(rows, id, dump))
    ensures forall i :: 0 <= i < |rows| ==> (HasId(rows, rows[i].id) <==> HasId(ReplaceRow(rows, id, dump), rows[i].id))
    ensures forall i, c :: 0 <= i < |rows| && rows[i].id == id && c in rows[i].record && c in dump ==>
      ReplaceRow(rows, id, dump)[i].record[c] == dump[c]
    ensures forall i :: 0 <= i < |rows| && rows[i].id != id ==> ReplaceRow(rows, id, dump)[i] == rows[i]
  {
  }

  /** Navigation reads only the ids, except the unfilled search: an update leaves first,
      last, next, previous and goto unchanged. */
  lemma UpdateKeepsNavigation(rows: seq<Row>, id: int, dump: Record, current: int, action: Action)
    requires action != Unfilled
    ensures Navigate(ReplaceRow(rows, id, dump), current, action) == Navigate(rows, current, action)
  {
    var r := ReplaceRow(rows, id, dump);
    MinMaxByIds(rows, r, (row: Row) => true);
    MinMaxByIds(rows, r, (row: Row) => row.id > current);
    MinMaxByIds(rows, r, (row: Row) => row.id < current);
  }

  /** In particular an update keeps the first and the last id. */
  lemma UpdateKeepsBounds(rows: seq<Row>, id: int, dump: Record)
    ensures FirstId(ReplaceRow(rows, id, dump)) == FirstId(rows)
    ensures LastId(ReplaceRow(rows, id, dump)) == LastId(rows)
  {
    UpdateKeepsNavigation(rows, id, dump, 0, First);
    UpdateKeepsNavigation(rows, id, dump, 0, Last);
  }

  /** Selections that look only at the ids pick the same ids from rows with the same ids. */
  lemma {:induction false} MinMaxByIds(a: seq<Row>, b: seq<Row>, p: Row -> bool)
    requires |a| == |b| && forall i :: 0 <= i < |a| ==> a[i].id == b[i].id
    requires forall i :: 0 <= i < |a| ==> p(a[i]) == p(b[i])
    ensures MinIdWhere(a, p) == MinIdWhere(b, p) && MaxIdWhere(a, p) == MaxIdWhere(b, p)
  {
    MinByIds(a, b, p);
    MaxByIds(a, b, p);
  }

  lemma {:induction false} MinByIds(a: seq<Row>, b: seq<Row>, p: Row -> bool)
    requires |a| == |b| && forall i :: 0 <= i < |a| ==> a[i].id == b[i].id
    requires forall i :: 0 <= i < |a| ==> p(a[i]) == p(b[i])
    ensures MinIdWhere(a, p) == MinIdWhere(b, p)
  {
    if a != [] {
      var n := |a| - 1;
      MinByIds(a[..n], b[..n], p);
      assert (forall i :: 0 <= i < n ==> !p(a[i])) <==> (forall i :: 0 <= i < n ==> !p(b[i]));
    }
  }

  lemma {:induction false} MaxByIds(a: seq<Row>, b: seq<Row>, p: Row -> bool)
    requires |a| == |b| && forall i :: 0 <= i < |a| ==> a[i].id == b[i].id
    requires forall i :: 0 <= i < |a| ==> p(a[i]) == p(b[i])
    ensures MaxIdWhere(a, p) == MaxIdWhere(b, p)
  {
    if a != [] {
      var n := |a| - 1;
      MaxByIds(a[..n], b[..n], p);
      assert (forall i :: 0 <= i < n ==> !p(a[i])) <==> (forall i :: 0 <= i < n ==> !p(b[i]));
    }
  }

  /** A row whose include cell was written as "include" or "exclude" is filled, so the
      unfilled search no longer stops at it. */
  lemma SerializedIncludeIsFilled(record: Record, included: bool)
    requires "include" in record && record["include"] == PyStr(SerializeInclude(included))
    ensures !IsUnfilled(record)
  {
  }
}
