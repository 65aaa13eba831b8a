/** pydantic's field validation of the back end's `Evidence`, run on what its model
    validator returns: every declared field must be present or have a default, and hold
    a value of its declared type; undeclared keys are dropped. */
module EvidenceValidation {
  import opened Wrappers
  import opened Strings
  import opened PyValues
  import opened EvidenceModel

  /** The declared type of an `Evidence` field, as pydantic checks it once the model
      validator has run. */
  datatype FieldType = IntField | BoolField | TextField | OptTextField | TextListField | OptDateField

  /** A declared field: its name, its type, and whether it may be left out (its default
      is None). */
  datatype Field = Field(name: string, kind: FieldType, optional: bool)

  /** The texts pydantic reads as False and as True, in any case. */
  const FalseTexts: set<string> := {"0", "f", "n", "no", "off", "false"}
  const TrueTexts: set<string> := {"1", "t", "y", "on", "yes", "true"}

  /** pydantic's lax `bool`: a boolean, the integers 0 and 1, or one of its words in any
      case; anything else is rejected. */
  function LaxBool(v: Value): (r: Option<bool>)
    ensures v.PyBool? ==> r == Some(v.b)
    ensures v.PyStr? ==> (r == Some(false) <==> Lower(v.s) in FalseTexts)
    ensures v.PyStr? ==> (r == Some(true) <==> Lower(v.s) in TrueTexts)
  {
    match v
    case PyBool(b) => Some(b)
    case PyInt(i) => if i == 0 then Some(false) else if i == 1 then Some(true) else None
    case PyStr(s) =>
      if Lower(s) in FalseTexts then Some(false)
      else if Lower(s) in TrueTexts then Some(true)
      else None
    case _ => None
  }

  /** The value pydantic stores for a declared field, or None when it rejects what the
      mapping holds. The cluster id is always set from the index as an int before
      validation, so only an int is accepted for it. After the model validator a date
      field holds a date or None, so nothing else is accepted for it either. */
  function FieldValue(data: Record, f: Field): (r: Option<Value>)
    ensures f.name !in data ==> (r.Some? <==> f.optional) && (r.Some? ==> r.value == PyNone)
    ensures f.name in data && f.kind == TextField ==> (r.Some? <==> data[f.name].PyStr?)
    ensures f.name in data && f.kind == OptTextField ==> (r.Some? <==> data[f.name].PyStr? || data[f.name].PyNone?)
    ensures f.name in data && f.kind == BoolField ==> (r.Some? <==> LaxBool(data[f.name]).Some?)
    ensures r.Some? && f.kind == BoolField && f.name in data ==> r.value == PyBool(LaxBool(data[f.name]).value)
    ensures r.Some? && f.kind != BoolField && f.name in data ==> r.value == data[f.name]
  {
    if f.name !in data then (if f.optional then Some(PyNone) else None)
    else
      var v := data[f.name];
      match f.kind
      case IntField => if v.PyInt? then Some(v) else None
      case BoolField => if LaxBool(v).Some? then Some(PyBool(LaxBool(v).value)) else None
      case TextField => if v.PyStr? then Some(v) else None
      case OptTextField => if v.PyStr? || v.PyNone? then Some(v) else None
      case TextListField => if v.PyList? then Some(v) else None
      case OptDateField => if v.PyDate? || v.PyNone? then Some(v) else None
  }

  /** The names of some fields. */
  function Names(fields: seq<Field>): set<string>
  {
    set f | f in fields :: f.name
  }

  /** Every one of the fields accepts what the mapping holds. */
  predicate Accepted(data: Record, fields: seq<Field>)
  {
    forall f :: f in fields ==> FieldValue(data, f).Some?
  }

  /** pydantic's field validation after the model validator: every declared field must
      be present, or have its default, and hold a value of its type. The evidence holds
      the declared fields only; keys it does not declare are dropped. Any rejection is a
      `ValidationError`, which is a ValueError. */
  function Validated(data: Record, fields: seq<Field>): (r: Result<Record>)
    ensures r.Ok? <==> Accepted(data, fields)
    ensures r.Err? ==> r.error == ValueError
    ensures r.Ok? ==> r.value.Keys == Names(fields)
  {
    if fields == [] then Ok(map[])
    else
      var init := fields[..|fields| - 1];
      var f := fields[|fields| - 1];
      assert forall g :: g in fields <==> g in init || g == f;
      var prefix :- Validated(data, init);
      var v := FieldValue(data, f);
      if v.None? then Err(ValueError) else Ok(prefix[f.name := v.value])
  }

  /** When every accepted field is stored as the mapping holds it, validation keeps the
      declared fields with their values; a missing optional field becomes None. */
  lemma {:induction false} ValidatedGets(data: Record, fields: seq<Field>)
    requires forall f :: f in fields && f.kind == BoolField ==> f.name in data && data[f.name].PyBool?
    requires Validated(data, fields).Ok?
    ensures Validated(data, fields).value == map n | n in Names(fields) :: Get(data, n)
  {
    if fields != [] {
      var init := fields[..|fields| - 1];
      var last := fields[|fields| - 1];
      assert forall g :: g in fields <==> g in init || g == last;
      ValidatedGets(data, init);
      assert Names(fields) == Names(init) + {last.name};
    }
  }

  /** Required fields of one type. */
  function Typed(names: seq<string>, kind: FieldType): (r: seq<Field>)
    ensures |r| == |names|
    ensures forall i :: 0 <= i < |names| ==> r[i] == Field(names[i], kind, false)
  {
    seq(|names|, i requires 0 <= i < |names| => Field(names[i], kind, false))
  }

  /** The fields of two lists are accepted exactly when those of each are. */
  lemma AcceptedAppend(data: Record, a: seq<Field>, b: seq<Field>)
    ensures Accepted(data, a + b) <==> Accepted(data, a) && Accepted(data, b)
  {
    assert forall f :: f in a + b <==> f in a || f in b;
  }

  /** The names of two lists of fields are those of each. */
  lemma NamesAppend(a: seq<Field>, b: seq<Field>)
    ensures Names(a + b) == Names(a) + Names(b)
  {
    assert forall f :: f in a + b <==> f in a || f in b;
  }

  /** The names of required fields of one type are the names they were made from. */
  lemma NamesTyped(names: seq<string>, kind: FieldType)
    ensures Names(Typed(names, kind)) == set n | n in names
  {
    var fs := Typed(names, kind);
    forall n | n in names
      ensures n in Names(fs)
    {
      var i :| 0 <= i < |names| && names[i] == n;
      assert fs[i] in fs;
    }
  }

  /** One field is accepted exactly when its value is. */
  lemma AcceptedOne(data: Record, f: Field)
    ensures Accepted(data, [f]) <==> FieldValue(data, f).Some?
  {
    assert forall g :: g in [f] <==> g == f;
  }

  /** Required fields of one type are accepted exactly when each name is. */
  lemma AcceptedTyped(data: Record, names: seq<string>, kind: FieldType)
    ensures Accepted(data, Typed(names, kind)) <==>
      forall n :: n in names ==> FieldValue(data, Field(n, kind, false)).Some?
  {
    var fs := Typed(names, kind);
    if forall n :: n in names ==> FieldValue(data, Field(n, kind, false)).Some? {
      forall f | f in fs
        ensures FieldValue(data, f).Some?
      {
        var i :| 0 <= i < |fs| && fs[i] == f;
        assert names[i] in names;
      }
    }
    if Accepted(data, fs) {
      forall n | n in names
        ensures FieldValue(data, Field(n, kind, false)).Some?
      {
        var i :| 0 <= i < |names| && names[i] == n;
        assert fs[i] in fs;
      }
    }
  }

  /** Flags are accepted exactly when pydantic reads each of them as a boolean. */
  lemma BoolsAccepted(data: Record, names: seq<string>)
    ensures Accepted(data, Typed(names, BoolField)) <==>
      forall n :: n in names ==> n in data && LaxBool(data[n]).Some?
  {
    AcceptedTyped(data, names, BoolField);
  }

  /** Required texts are accepted exactly when each of them is a text. */
  lemma TextsAccepted(data: Record, names: seq<string>)
    ensures Accepted(data, Typed(names, TextField)) <==> forall n :: n in names ==> TextAt(data, n)
  {
    AcceptedTyped(data, names, TextField);
  }

  /** Optional texts without a default are accepted exactly when each is a text or None. */
  lemma OptTextsAccepted(data: Record, names: seq<string>)
    ensures Accepted(data, Typed(names, OptTextField)) <==> forall n :: n in names ==> OptTextAt(data, n)
  {
    AcceptedTyped(data, names, OptTextField);
  }

  /** Lists are accepted exactly when each of them is a list. */
  lemma ListsAccepted(data: Record, names: seq<string>)
    ensures Accepted(data, Typed(names, TextListField)) <==>
      forall n :: n in names ==> n in data && data[n].PyList?
  {
    AcceptedTyped(data, names, TextListField);
  }

  /** The text fields the back end's `Evidence` requires, and those it allows to be None. */
  const RequiredTexts: seq<string> := ["doi", "title", "url"]
  const OptionalTexts: seq<string> := ["abstract", "publication_venue"]

  /** The back end's `Evidence` fields, grouped by type; pydantic's outcome does not
      depend on the order it checks them in. Only `pdf_url` has a default. */
  const IdFields: seq<Field> := [Field("cluster_id", IntField, false)]
  const TrailingFields: seq<Field> :=
    [Field("publication_date", OptDateField, false), Field("pdf_url", OptTextField, true)]
  const EvidenceFields: seq<Field> :=
    IdFields + Typed(BoolFields, BoolField) + Typed(RequiredTexts, TextField)
    + Typed(OptionalTexts, OptTextField) + Typed(ListFields, TextListField) + TrailingFields

  /** The field holds a text. */
  predicate TextAt(c: Record, n: string)
  {
    n in c && c[n].PyStr?
  }

  /** The field holds a text or None. */
  predicate OptTextAt(c: Record, n: string)
  {
    n in c && (c[n].PyStr? || c[n].PyNone?)
  }

  /** What the back end's `Evidence` demands of the fields its model validator does not
      set: an int cluster id; a text doi, title and url; a text or None as abstract and
      venue; and a missing, text or None pdf_url. */
  predicate EvidenceTyped(c: Record)
  {
    && "cluster_id" in c && c["cluster_id"].PyInt?
    && (forall n :: n in RequiredTexts ==> TextAt(c, n))
    && (forall n :: n in OptionalTexts ==> OptTextAt(c, n))
    && ("pdf_url" in c ==> OptTextAt(c, "pdf_url"))
  }

  /** What the model validator leaves in the fields it sets: flags pydantic reads as
      booleans, lists, and a date or None. */
  predicate Shaped(c: Record)
  {
    && (forall n :: n in BoolFields ==> n in c && LaxBool(c[n]).Some?)
    && (forall n :: n in ListFields ==> n in c && c[n].PyList?)
    && OptDateAt(c, "publication_date")
  }

  /** The field holds a date or None. */
  predicate OptDateAt(c: Record, n: string)
  {
    n in c && (c[n].PyDate? || c[n].PyNone?)
  }

  /** Validation of the back end's `Evidence` succeeds exactly when the fields the model
      validator sets and the others all have their declared types. */
  lemma EvidenceAccepted(c: Record)
    ensures Validated(c, EvidenceFields).Ok? <==> Shaped(c) && EvidenceTyped(c)
  {
    var g1, g2, g3, g4 := Typed(BoolFields, BoolField), Typed(RequiredTexts, TextField),
      Typed(OptionalTexts, OptTextField), Typed(ListFields, TextListField);
    AcceptedAppend(c, IdFields + g1 + g2 + g3 + g4, TrailingFields);
    AcceptedAppend(c, IdFields + g1 + g2 + g3, g4);
    AcceptedAppend(c, IdFields + g1 + g2, g3);
    AcceptedAppend(c, IdFields + g1, g2);
    AcceptedAppend(c, IdFields, g1);
    BoolsAccepted(c, BoolFields);
    TextsAccepted(c, RequiredTexts);
    OptTextsAccepted(c, OptionalTexts);
    ListsAccepted(c, ListFields);
    IdAccepted(c);
    TrailingAccepted(c);
  }

  lemma IdAccepted(c: Record)
    ensures Accepted(c, IdFields) <==> "cluster_id" in c && c["cluster_id"].PyInt?
  {
    AcceptedOne(c, IdFields[0]);
  }

  lemma TrailingAccepted(c: Record)
    ensures Accepted(c, TrailingFields) <==>
      OptDateAt(c, "publication_date") && ("pdf_url" in c ==> OptTextAt(c, "pdf_url"))
  {
    assert TrailingFields == [TrailingFields[0]] + [TrailingFields[1]];
    AcceptedAppend(c, [TrailingFields[0]], [TrailingFields[1]]);
    AcceptedOne(c, TrailingFields[0]);
    AcceptedOne(c, TrailingFields[1]);
  }

  /** The flags of the back end's `Evidence` are the fields it checks as booleans. */
  lemma EvidenceBoolFields(f: Field)
    requires f in EvidenceFields && f.kind == BoolField
    ensures f.name in BoolFields
  {
    var g1, g2, g3, g4 := Typed(BoolFields, BoolField), Typed(RequiredTexts, TextField),
      Typed(OptionalTexts, OptTextField), Typed(ListFields, TextListField);
    assert f in IdFields || f in g1 || f in g2 || f in g3 || f in g4 || f in TrailingFields;
    assert f in g1 || f in g2 || f in g3 || f in g4 || f.kind != BoolField;
    var i :| 0 <= i < |g1| && g1[i] == f;
  }

  /** The names the back end's `Evidence` declares. */
  lemma EvidenceNames()
    ensures Names(EvidenceFields) == {"cluster_id"} + (set n | n in BoolFields)
      + (set n | n in RequiredTexts) + (set n | n in OptionalTexts) + (set n | n in ListFields)
      + {"publication_date", "pdf_url"}
  {
    var g0, g5 := IdFields, TrailingFields;
    var g1, g2, g3, g4 := Typed(BoolFields, BoolField), Typed(RequiredTexts, TextField),
      Typed(OptionalTexts, OptTextField), Typed(ListFields, TextListField);
    NamesAppend(g0 + g1 + g2 + g3 + g4, g5);
    NamesAppend(g0 + g1 + g2 + g3, g4);
    NamesAppend(g0 + g1 + g2, g3);
    NamesAppend(g0 + g1, g2);
    NamesAppend(g0, g1);
    NamesTyped(BoolFields, BoolField);
    NamesTyped(RequiredTexts, TextField);
    NamesTyped(OptionalTexts, OptTextField);
    NamesTyped(ListFields, TextListField);
    NamesOfEnds();
  }

  lemma NamesOfEnds()
    ensures Names(IdFields) == {"cluster_id"}
    ensures Names(TrailingFields) == {"publication_date", "pdf_url"}
  {
    assert forall f :: f in IdFields <==> f == IdFields[0];
    assert forall f :: f in TrailingFields <==> f == TrailingFields[0] || f == TrailingFields[1];
  }

  /** `Evidence(**params)`: the model validator, then pydantic's field validation. */
  function NewEvidence(data: Record, external: string -> Option<DateTime>): (r: Result<Record>)
    ensures Coerced(data, external).Err? ==> r == Err(Coerced(data, external).error)
    ensures Coerced(data, external).Ok? ==> r == Validated(Coerced(data, external).value, EvidenceFields)
  {
    var c :- Coerced(data, external);
    Validated(c, EvidenceFields)
  }

  /** On a mapping whose flags are booleans, validation keeps exactly the declared fields
      with their values; a missing `pdf_url` becomes None. */
  lemma ValidatedValues(c: Record)
    requires forall n :: n in BoolFields ==> n in c && c[n].PyBool?
    requires Validated(c, EvidenceFields).Ok?
    ensures Validated(c, EvidenceFields).value == map n | n in Names(EvidenceFields) :: Get(c, n)
  {
    forall f | f in EvidenceFields && f.kind == BoolField
      ensures f.name in c && c[f.name].PyBool?
    {
      EvidenceBoolFields(f);
    }
    ValidatedGets(c, EvidenceFields);
  }

  /** What the model validator leaves has booleans as flags, lists as list fields and a
      date or None as the date. */
  lemma CoercedShaped(data: Record, external: string -> Option<DateTime>)
    requires Coerced(data, external).Ok?
    ensures Shaped(Coerced(data, external).value)
    ensures forall n :: n in BoolFields ==> Coerced(data, external).value[n].PyBool?
  {
    CoercedMeaning(data, external);
    var v := CoercedIsDated(data, external);
  }

  /** The sheet's row holds an int cluster id, texts as doi, title and url, a text, None
      or NaN as abstract and venue, and no pdf_url or one of those. */
  predicate RawTyped(data: Record)
  {
    && "cluster_id" in data && data["cluster_id"].PyInt?
    && (forall n :: n in RequiredTexts ==> TextAt(data, n))
    && (forall n :: n in OptionalTexts ==> n in data && (data[n].PyStr? || data[n].PyNone? || data[n].PyNaN?))
    && ("pdf_url" in data ==> data["pdf_url"].PyStr? || data["pdf_url"].PyNone? || data["pdf_url"].PyNaN?)
  }

  /** The fields whose types the model validator does not settle are fields it leaves. */
  lemma OutsideCoerced()
    ensures forall n :: n in RequiredTexts ==> n !in CoercedFields
    ensures forall n :: n in OptionalTexts ==> n !in CoercedFields
    ensures "pdf_url" !in CoercedFields && "cluster_id" !in CoercedFields
  {
  }

  /** The mapping holds what the row holds outside the fields the model validator sets,
      a NaN cleared to None. */
  predicate LeavesCleared(data: Record, c: Record)
  {
    && c.Keys == data.Keys + CoercedFields
    && forall k :: k in data && k !in CoercedFields ==> c[k] == (if data[k].PyNaN? then PyNone else data[k])
  }

  /** Texts the model validator leaves are texts exactly when they were in the row. */
  lemma TextsLeft(data: Record, c: Record, names: seq<string>)
    requires LeavesCleared(data, c)
    requires forall n :: n in names ==> n !in CoercedFields
    ensures (forall n :: n in names ==> TextAt(c, n)) <==> (forall n :: n in names ==> TextAt(data, n))
  {
  }

  /** Optional texts the model validator leaves are texts or None exactly when they were
      texts, None or NaN in the row. */
  lemma OptTextsLeft(data: Record, c: Record, names: seq<string>)
    requires LeavesCleared(data, c)
    requires forall n :: n in names ==> n !in CoercedFields
    ensures (forall n :: n in names ==> OptTextAt(c, n)) <==>
      (forall n :: n in names ==> n in data && (data[n].PyStr? || data[n].PyNone? || data[n].PyNaN?))
  {
  }

  /** What the model validator leaves of a row it accepts. */
  lemma CoercedLeaves(data: Record, external: string -> Option<DateTime>)
    requires Coerced(data, external).Ok?
    ensures LeavesCleared(data, Coerced(data, external).value)
  {
    CoercedMeaning(data, external);
  }

  /** A single field the model validator leaves keeps its type, a NaN becoming None. */
  lemma OneLeft(data: Record, c: Record, n: string)
    requires LeavesCleared(data, c)
    requires n !in CoercedFields
    ensures n in c <==> n in data
    ensures n in data ==> (c[n].PyInt? <==> data[n].PyInt?)
    ensures n in data ==> (OptTextAt(c, n) <==> data[n].PyStr? || data[n].PyNone? || data[n].PyNaN?)
  {
  }

  /** The model validator leaves the fields it does not set with their declared types
      exactly when the row had them, a NaN counting as None. */
  lemma CoercedTyped(data: Record, external: string -> Option<DateTime>)
    requires Coerced(data, external).Ok?
    ensures EvidenceTyped(Coerced(data, external).value) <==> RawTyped(data)
  {
    var c := Coerced(data, external).value;
    CoercedLeaves(data, external);
    OutsideCoerced();
    TextsLeft(data, c, RequiredTexts);
    OptTextsLeft(data, c, OptionalTexts);
    OneLeft(data, c, "pdf_url");
    OneLeft(data, c, "cluster_id");
  }

  /** `Evidence(**params)` on a row the model validator accepts succeeds exactly when the
      row's other fields have their declared types; the evidence then holds the declared
      fields, as the model validator left them. */
  lemma NewEvidenceAccepts(data: Record, external: string -> Option<DateTime>)
    requires Coerced(data, external).Ok?
    ensures NewEvidence(data, external).Ok? <==> RawTyped(data)
    ensures NewEvidence(data, external).Ok? ==>
      NewEvidence(data, external).value == map n | n in Names(EvidenceFields) :: Get(Coerced(data, external).value, n)
  {
    var c := Coerced(data, external).value;
    CoercedShaped(data, external);
    CoercedTyped(data, external);
    EvidenceAccepted(c);
    if NewEvidence(data, external).Ok? {
      ValidatedValues(c);
    }
  }
}
