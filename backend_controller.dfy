/** The back end's `EvidenceController`: the selected cluster id, clamped into the
    sheet's id range; reading the selected evidence; navigating; and toggling an
    evidence's status together with its cleaned exclude reasons. */
module BackendController {
  import opened Wrappers
  import opened Strings
  import opened Seqs
  import opened PyValues
  import opened EvidenceModel
  import opened EvidenceValidation
  import opened EvidenceRepo
  import opened TypeConversions

  /** The placeholder reason the front end sends when the user gave none. */
  const Unspecified: string := "<unspecified reason>"

  /** `__sanitize_exclude_reason`: anything but a string becomes "", a string is
      stripped and lower-cased. */
  function Sanitize(v: Value): (r: string)
    ensures !v.PyStr? ==> r == ""
    ensures v.PyStr? ==> |r| <= |v.s|
  {
    if v.PyStr? then Lower(Strip(v.s)) else ""
  }

  /** A sanitised reason is its own strip and holds no capital letter. */
  lemma SanitizeClean(v: Value)
    ensures Strip(Sanitize(v)) == Sanitize(v)
    ensures forall i :: 0 <= i < |Sanitize(v)| ==> !('A' <= Sanitize(v)[i] <= 'Z')
  {
    if v.PyStr? {
      LowerStripClean(v.s);
    } else {
      assert Strip("") == "";
    }
  }

  /** Sanitising a sanitised reason changes nothing. */
  lemma SanitizeIdempotent(v: Value)
    ensures Sanitize(PyStr(Sanitize(v))) == Sanitize(v)
  {
    SanitizeClean(v);
    LowerUncapitalised(Sanitize(v));
  }

  /** Every request reason, sanitised, in request order. */
  function Sanitized(reasons: seq<Value>): (r: seq<string>)
    ensures |r| == |reasons|
    ensures forall k :: 0 <= k < |reasons| ==> r[k] == Sanitize(reasons[k])
  {
    seq(|reasons|, k requires 0 <= k < |reasons| => Sanitize(reasons[k]))
  }

  predicate NotUnspecified(x: string) { x != Unspecified }

  /** The placeholder is among the texts, and every other text is empty. */
  predicate OnlyUnspecified(s: seq<string>)
  {
    Unspecified in s && forall k :: 0 <= k < |s| ==> s[k] == "" || s[k] == Unspecified
  }

  /** The keys of the reason dictionary `toggle_status` builds from sanitised texts: the
      distinct non-empty texts in the order they first occur. */
  function DistinctTexts(s: seq<string>): seq<string>
  {
    Dedup(Filter(s, NotEmpty))
  }

  /** The distinct texts keep the order of the input, hold no repetition, and are
      exactly its non-empty texts. */
  lemma DistinctTextsFacts(s: seq<string>)
    ensures IsSubseq(DistinctTexts(s), s)
    ensures Distinct(DistinctTexts(s))
    ensures forall x :: x in DistinctTexts(s) <==> x in s && x != ""
  {
    var nonEmpty := Filter(s, NotEmpty);
    FilterIsSubseq(s, NotEmpty);
    DedupIsSubseq(nonEmpty);
    SubseqTrans(Dedup(nonEmpty), nonEmpty, s);
    assert forall x :: x in s && NotEmpty(x) ==> x in nonEmpty;
  }

  /** Dropping the placeholder from distinct texts: the rest stays distinct and in
      order; with two or more texts some other text remains, with at most one the
      placeholder is all there is. */
  lemma DropUnspecifiedFacts(kept: seq<string>)
    requires Distinct(kept)
    ensures IsSubseq(Filter(kept, NotUnspecified), kept)
    ensures Distinct(Filter(kept, NotUnspecified))
    ensures forall x :: x in Filter(kept, NotUnspecified) <==> x in kept && x != Unspecified
    ensures |kept| > 1 ==> exists x :: x in kept && x != Unspecified
    ensures |kept| <= 1 ==> forall x :: x in kept ==> x == kept[0]
  {
    FilterIsSubseq(kept, NotUnspecified);
    FilterKeepsDistinct(kept, NotUnspecified);
    if |kept| > 1 {
      assert kept[0] != kept[1];
      if kept[0] == Unspecified {
        assert kept[1] in kept;
      } else {
        assert kept[0] in kept;
      }
    }
  }

  /** The reason list `toggle_status` stores, from the sanitised texts: the distinct
      non-empty texts, without the placeholder once some other reason is given. */
  function CleanTexts(s: seq<string>): (r: seq<string>)
    ensures Distinct(r)
    ensures IsSubseq(r, s)
    ensures forall x :: x in r ==> x in s && x != ""
    ensures forall x :: x != Unspecified ==> (x in r <==> x in s && x != "")
    ensures Unspecified in r <==> OnlyUnspecified(s)
  {
    var kept := DistinctTexts(s);
    DistinctTextsFacts(s);
    DropUnspecifiedFacts(kept);
    SubseqTrans(Filter(kept, NotUnspecified), kept, s);
    var r := if |kept| > 1 && Unspecified in kept then Filter(kept, NotUnspecified) else kept;
    PlaceholderAlone(s, kept, r);
    r
  }

  /** Of distinct non-empty texts, the placeholder is kept exactly when every text is
      empty or the placeholder. */
  lemma PlaceholderAlone(s: seq<string>, kept: seq<string>, r: seq<string>)
    requires forall x :: x in kept <==> x in s && x != ""
    requires forall x :: x in Filter(kept, NotUnspecified) <==> x in kept && x != Unspecified
    requires |kept| > 1 ==> exists x :: x in kept && x != Unspecified
    requires |kept| <= 1 ==> forall x :: x in kept ==> x == kept[0]
    requires r == if |kept| > 1 && Unspecified in kept then Filter(kept, NotUnspecified) else kept
    ensures Unspecified in r <==> OnlyUnspecified(s)
  {
    if Unspecified in r {
      assert r == kept && |kept| <= 1;
      forall k | 0 <= k < |s| && s[k] != ""
        ensures s[k] == Unspecified
      {
        assert s[k] in kept;
      }
    }
    if OnlyUnspecified(s) {
      assert Unspecified in kept;
      assert forall x :: x in kept ==> x == Unspecified by {
        forall x | x in kept
          ensures x == Unspecified
        {
          var k :| 0 <= k < |s| && s[k] == x;
        }
      }
    }
  }

  /** The exclude reasons `toggle_status` stores: the request's reasons sanitised and
      cleaned, each a non-empty stripped text. */
  function CleanReasons(reasons: seq<Value>): (r: seq<string>)
    ensures forall k :: 0 <= k < |r| ==> CleanItem(r[k])
  {
    var r := CleanTexts(Sanitized(reasons));
    CleanReasonsItems(reasons, r);
    r
  }

  /** Every sanitised reason is its own strip, so a kept one is a clean list item. */
  lemma CleanReasonsItems(reasons: seq<Value>, r: seq<string>)
    requires forall x :: x in r ==> x in Sanitized(reasons) && x != ""
    ensures forall k :: 0 <= k < |r| ==> CleanItem(r[k])
  {
    forall k | 0 <= k < |r|
      ensures CleanItem(r[k])
    {
      assert r[k] in r;
      var i :| 0 <= i < |reasons| && Sanitized(reasons)[i] == r[k];
      SanitizeClean(reasons[i]);
    }
  }

  /** The texts keep their number exactly when they are non-empty and distinct, and the
      placeholder does not come with another reason. */
  predicate KeepsAll(s: seq<string>)
  {
    (forall k :: 0 <= k < |s| ==> s[k] != "") && Distinct(s) && (|s| > 1 ==> Unspecified !in s)
  }

  /** `len(evidence.exclude_reasons) == len(exclude_reasons)`, the second half of
      `changed`, holds exactly for requests that lose no reason in the cleaning. */
  lemma CleanKeepsCount(s: seq<string>)
    ensures |CleanTexts(s)| == |s| <==> KeepsAll(s)
  {
    if KeepsAll(s) {
      KeepsAllKeepsCount(s);
    }
    if |CleanTexts(s)| == |s| {
      KeepsCountKeepsAll(s);
    }
  }

  lemma KeepsAllKeepsCount(s: seq<string>)
    requires KeepsAll(s)
    ensures CleanTexts(s) == s
  {
    var nonEmpty := Filter(s, NotEmpty);
    FilterKeepsAll(s, NotEmpty);
    assert forall k :: 0 <= k < |s| ==> NotEmpty(s[k]);
    assert nonEmpty == s;
    DedupKeepsDistinct(s);
    assert DistinctTexts(s) == s;
  }

  lemma KeepsCountKeepsAll(s: seq<string>)
    requires |CleanTexts(s)| == |s|
    ensures KeepsAll(s)
  {
    var nonEmpty := Filter(s, NotEmpty);
    var kept := Dedup(nonEmpty);
    assert |CleanTexts(s)| <= |kept| <= |nonEmpty| <= |s|;
    FilterKeepsAll(s, NotEmpty);
    DedupKeepsDistinct(nonEmpty);
    assert nonEmpty == s;
    if |s| > 1 && Unspecified in s {
      PlaceholderAmongOthers(s);
    }
  }

  /** With two or more texts, a placeholder among them costs the list at least one
      entry: it is either dropped or stands alone. */
  lemma PlaceholderAmongOthers(s: seq<string>)
    requires |s| > 1 && Unspecified in s
    ensures |CleanTexts(s)| < |s|
  {
    var nonEmpty := Filter(s, NotEmpty);
    var kept := Dedup(nonEmpty);
    assert Unspecified in kept;
    assert |kept| <= |nonEmpty| <= |s|;
    if |kept| > 1 {
      FilterKeepsAll(kept, NotUnspecified);
      var i :| 0 <= i < |kept| && kept[i] == Unspecified;
      assert !NotUnspecified(kept[i]);
    }
  }

  /** `repo.get(id)`: the row read for the id, with the id as its cluster id, through the
      model validator and pydantic's field validation. */
  function ReadEvidence(rows: seq<Row>, clusterId: int, external: string -> Option<DateTime>): (r: Result<Record>)
    ensures !HasId(rows, clusterId) ==> r == Err(KeyError)
    ensures r.Ok? ==> exists i :: 0 <= i < |rows| && rows[i].id == clusterId && NewEvidence(rows[i].record["cluster_id" := PyInt(clusterId)], external) == r
  {
    var found := Lookup(rows, clusterId);
    if found.None? then Err(KeyError)
    else NewEvidence(found.value["cluster_id" := PyInt(clusterId)], external)
  }

  /** The record `toggle_status` hands to `repo.update`, dumped: the evidence as read,
      with the requested flag and the cleaned reasons. */
  function Toggled(rows: seq<Row>, clusterId: int, included: bool, reasons: seq<Value>,
                   external: string -> Option<DateTime>): Result<Record>
  {
    var ev :- ReadEvidence(rows, clusterId, external);
    Dump(ev["include" := PyBool(included)]["exclude_reasons" := PyList(CleanReasons(reasons))])
  }

  /** Read back through the parsers, the written row holds the requested flag and the
      cleaned reasons, as long as no cleaned reason holds the list separator. */
  lemma ToggledReadsBack(rows: seq<Row>, clusterId: int, included: bool, reasons: seq<Value>,
                         external: string -> Option<DateTime>)
    requires Toggled(rows, clusterId, included, reasons, external).Ok?
    requires forall x :: x in CleanReasons(reasons) ==> ';' !in x
    ensures ParseBoolean(Toggled(rows, clusterId, included, reasons, external).value, "include") == Ok(included)
    ensures ParseList(Toggled(rows, clusterId, included, reasons, external).value, "exclude_reasons") == CleanReasons(reasons)
  {
    var ev := ReadEvidence(rows, clusterId, external).value;
    var cleaned := CleanReasons(reasons);
    DumpReadsBack(ev["include" := PyBool(included)]["exclude_reasons" := PyList(cleaned)]);
  }

  /** The row `update` writes: the evidence read for the id with its flag set to the
      request's word read through `any_to_bool`, dumped. An unknown id fails first. */
  function SetInclude(rows: seq<Row>, clusterId: int, word: Value,
                      external: string -> Option<DateTime>): (r: Result<Record>)
    ensures !HasId(rows, clusterId) ==> r == Err(KeyError)
    ensures ReadEvidence(rows, clusterId, external).Ok? && AnyToBool(word).Err? ==> r == Err(ValueError)
    ensures (ReadEvidence(rows, clusterId, external).Ok? && AnyToBool(word).Ok? &&
             !Get(ReadEvidence(rows, clusterId, external).value, "publication_date").PyDate?) ==> r == Err(ValueError)
    ensures r.Ok? ==> ReadEvidence(rows, clusterId, external).Ok? && AnyToBool(word).Ok?
  {
    var ev :- ReadEvidence(rows, clusterId, external);
    var b :- AnyToBool(word);
    Dump(ev["include" := PyBool(b)])
  }

  /** Read back through the validator's boolean parser, the row `update` writes holds the
      flag `any_to_bool` gave for the request's word. */
  lemma SetIncludeReadsBack(rows: seq<Row>, clusterId: int, word: Value,
                            external: string -> Option<DateTime>)
    requires SetInclude(rows, clusterId, word, external).Ok?
    ensures ParseBoolean(SetInclude(rows, clusterId, word, external).value, "include") == AnyToBool(word)
  {
    var ev := ReadEvidence(rows, clusterId, external).value;
    DumpIncludeReadsBack(ev["include" := PyBool(AnyToBool(word).value)]);
  }

  /** The clamp of the selection setter keeps it between the first and last ids, and at
      -1 on an empty sheet. */
  lemma ClampedSelection(rows: seq<Row>, value: int)
    ensures rows == [] ==> Clip(value, FirstId(rows), LastId(rows)) == -1
    ensures rows != [] ==> FirstId(rows) <= Clip(value, FirstId(rows), LastId(rows)) <= LastId(rows)
  {
    if rows != [] {
      FirstLastBound(rows);
    }
  }

  /** On a sheet of non-negative ids, every navigation but `goto` selects an existing
      row: a request that finds no id gives -1, which the clamp turns into the first id. */
  lemma NavigationFindsRow(rows: seq<Row>, clusterId: int, action: Action)
    requires rows != [] && forall i :: 0 <= i < |rows| ==> rows[i].id >= 0
    requires action != Goto
    ensures HasId(rows, Clip(EvidenceRepo.Navigate(rows, clusterId, action), FirstId(rows), LastId(rows)))
  {
    FirstLastBound(rows);
    var first, last := FirstId(rows), LastId(rows);
    var target := EvidenceRepo.Navigate(rows, clusterId, action);
    if action == Next {
      NextIsSuccessor(rows, clusterId);
    } else if action == Prev {
      PrevIsPredecessor(rows, clusterId);
    }
    if target == -1 {
      assert Clip(target, first, last) == first;
    } else {
      assert HasId(rows, target);
      var i :| 0 <= i < |rows| && rows[i].id == target;
      assert first <= target <= last;
    }
  }

  /** On a sheet of non-negative ids, "next" from the last id wraps round to the first,
      while "prev" from the first id stays there. */
  lemma NavigationAtEnds(rows: seq<Row>)
    requires rows != [] && forall i :: 0 <= i < |rows| ==> rows[i].id >= 0
    ensures Clip(EvidenceRepo.Navigate(rows, LastId(rows), Next), FirstId(rows), LastId(rows)) == FirstId(rows)
    ensures Clip(EvidenceRepo.Navigate(rows, FirstId(rows), Prev), FirstId(rows), LastId(rows)) == FirstId(rows)
  {
    FirstLastBound(rows);
    NextIsSuccessor(rows, LastId(rows));
    PrevIsPredecessor(rows, FirstId(rows));
  }

  /** The controller behind the evidence page of one uploaded sheet. */
  class EvidenceController {
    const repo: PandasRepo
    /** The date parser the `Evidence` validation falls back on. */
    const external: string -> Option<DateTime>
    var currentId: int

    /** A controller over a freshly read sheet, with no selection. */
    constructor (rows: seq<Row>, external: string -> Option<DateTime>)
      ensures fresh(repo) && repo.rows == Loaded(rows)
      ensures this.external == external && currentId == -1
    {
      repo := new PandasRepo(rows);
      this.external := external;
      currentId := -1;
    }

    /** `first_id`: the repository's first id, whatever the selection. */
    function FirstId(): int
      reads repo
    {
      EvidenceRepo.FirstId(repo.rows)
    }

    /** `last_id`: the repository's last id, whatever the selection. */
    function LastId(): int
      reads repo
    {
      EvidenceRepo.LastId(repo.rows)
    }

    /** The selection is off (-1) or lies between the first and last ids. */
    predicate SelectionInBounds()
      reads this, repo
    {
      currentId == -1 || FirstId() <= currentId <= LastId()
    }

    /** The `selected_index` setter: the value clamped into [first id, last id]. */
    method SetSelectedIndex(value: int)
      modifies this
      ensures currentId == Clip(value, FirstId(), LastId())
      ensures SelectionInBounds()
    {
      ClampedSelection(repo.rows, value);
      currentId := Clip(value, FirstId(), LastId());
    }

    /** `current_record`: a ValueError while the selection is off, otherwise the
        selected row read as evidence (a KeyError for an id the sheet lacks, a ValueError
        for a row the model validator or pydantic's field validation rejects). */
    function CurrentRecord(): (r: Result<Record>)
      reads this, repo
      ensures currentId == -1 ==> r == Err(ValueError)
      ensures currentId != -1 && !HasId(repo.rows, currentId) ==> r == Err(KeyError)
      ensures r.Ok? ==> exists i :: 0 <= i < |repo.rows| && repo.rows[i].id == currentId && NewEvidence(repo.rows[i].record["cluster_id" := PyInt(currentId)], external) == r
    {
      if currentId == -1 then Err(ValueError)
      else
        var found := repo.Get(currentId);
        if found.Err? then Err(found.error) else NewEvidence(found.value, external)
    }

    /** `all_filled`: no row the repository counts is still awaiting a decision. */
    function AllFilled(): (r: bool)
      reads repo
      ensures r <==> forall i :: 0 <= i < |repo.rows| && repo.rows[i].id > 0 ==> !IsUnfilled(repo.rows[i].record)
    {
      !repo.HasUnfilled()
    }

    /** `navigate`: select the clamped target of the request and return its evidence. */
    method Navigate(clusterId: int, action: Action) returns (r: Result<Record>)
      modifies this
      ensures currentId == Clip(EvidenceRepo.Navigate(repo.rows, clusterId, action), FirstId(), LastId())
      ensures SelectionInBounds()
      ensures r == CurrentRecord()
    {
      var desired := EvidenceRepo.Navigate(repo.rows, clusterId, action);
      SetSelectedIndex(desired);
      r := CurrentRecord();
    }

    /** `update`: write the row with its flag set from the request's word; an unknown id
        (KeyError), a row that does not validate, a word `any_to_bool` rejects or a record
        whose date cannot be serialised (each a ValueError) leaves the sheet as it was. */
    method Update(clusterId: int, word: Value) returns (r: Result<()>)
      modifies repo
      ensures r.Ok? <==> SetInclude(old(repo.rows), clusterId, word, external).Ok?
      ensures r.Err? ==> r.error == SetInclude(old(repo.rows), clusterId, word, external).error && repo.rows == old(repo.rows)
      ensures r.Ok? ==> repo.rows == ReplaceRow(old(repo.rows), clusterId, SetInclude(old(repo.rows), clusterId, word, external).value)
      ensures FirstId() == old(FirstId()) && LastId() == old(LastId())
    {
      var evidence := ReadEvidence(repo.rows, clusterId, external);
      if evidence.Err? {
        return Err(evidence.error);
      }
      var flag := AnyToBool(word);
      if flag.Err? {
        return Err(flag.error);
      }
      var dump := Dump(evidence.value["include" := PyBool(flag.value)]);
      if dump.Err? {
        return Err(dump.error);
      }
      ghost var before := repo.rows;
      var written := repo.Update(clusterId, dump.value);
      UpdateKeepsBounds(before, clusterId, dump.value);
      r := Ok(());
    }

    /** `save_current_record`: write the selected evidence back. A ValueError (no
        selection, a validation failure, or a date the serialiser rejects, which pydantic
        raises as a `PydanticSerializationError`) is swallowed and writes nothing; any
        other failure is passed on and writes nothing. */
    method SaveCurrentRecord() returns (r: Result<()>)
      modifies repo
      ensures old(CurrentRecord()).Err? ==> repo.rows == old(repo.rows)
      ensures old(CurrentRecord()).Err? && old(CurrentRecord()).error == ValueError ==> r == Ok(())
      ensures old(CurrentRecord()).Err? && old(CurrentRecord()).error != ValueError ==> r == Err(old(CurrentRecord()).error)
      ensures old(CurrentRecord()).Ok? && Dump(old(CurrentRecord()).value).Err? ==> r == Ok(()) && repo.rows == old(repo.rows)
      ensures old(CurrentRecord()).Ok? && Dump(old(CurrentRecord()).value).Ok? ==>
        r == Ok(()) && repo.rows == ReplaceRow(old(repo.rows), currentId, Dump(old(CurrentRecord()).value).value)
      ensures FirstId() == old(FirstId()) && LastId() == old(LastId())
    {
      var record := CurrentRecord();
      if record.Err? {
        return if record.error == ValueError then Ok(()) else Err(record.error);
      }
      var dump := Dump(record.value);
      if dump.Err? {
        // A serialisation failure is a ValueError, which is swallowed.
        return Ok(());
      }
      ghost var before := repo.rows;
      var written := repo.Update(currentId, dump.value);
      UpdateKeepsBounds(before, currentId, dump.value);
      r := Ok(());
    }

    /** `toggle_status`: store the requested flag and the cleaned reasons for the row and
        report whether the flag changed while every reason survived the cleaning. The
        ids, and so the selection's bounds, stay as they were. */
    method ToggleStatus(clusterId: int, included: bool, reasons: seq<Value>) returns (r: Result<bool>)
      modifies repo
      ensures r.Ok? <==> Toggled(old(repo.rows), clusterId, included, reasons, external).Ok?
      ensures r.Err? ==> repo.rows == old(repo.rows)
      ensures r.Ok? ==> repo.rows == ReplaceRow(old(repo.rows), clusterId, Toggled(old(repo.rows), clusterId, included, reasons, external).value)
      ensures r.Ok? ==> r.value == (Get(ReadEvidence(old(repo.rows), clusterId, external).value, "include") != PyBool(included) && |CleanReasons(reasons)| == |reasons|)
      ensures FirstId() == old(FirstId()) && LastId() == old(LastId())
    {
      var evidence := ReadEvidence(repo.rows, clusterId, external);
      if evidence.Err? {
        return Err(evidence.error);
      }
      var ev := evidence.value;
      var changed := Get(ev, "include") != PyBool(included);
      ev := ev["include" := PyBool(included)];
      var cleaned := CleanReasons(reasons);
      ev := ev["exclude_reasons" := PyList(cleaned)];
      changed := changed && |cleaned| == |reasons|;
      var dump := Dump(ev);
      if dump.Err? {
        return Err(dump.error);
      }
      ghost var before := repo.rows;
      var written := repo.Update(clusterId, dump.value);
      assert repo.rows == ReplaceRow(before, clusterId, dump.value);
      UpdateKeepsBounds(before, clusterId, dump.value);
      r := Ok(changed);
    }
  }
}
