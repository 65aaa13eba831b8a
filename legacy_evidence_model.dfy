/** The older web app's `Evidence` validator. It parses lists and dates like the back
    end, but reads a flag by lower-casing it without stripping, recognises only
    "include" and "exclude", and hands any other text on as a lower-cased string. It has
    no include fix and no NaN pass. */
module LegacyEvidenceModel {
  import opened Wrappers
  import opened Strings
  import opened PyValues
  import opened TypeConversions
  import opened EvidenceModel
  import opened EvidenceValidation

  /** `_parse_boolean` of the older model: False for non-values, True and False for
      "include" and "exclude" in any case, any other text lower-cased. */
  function LegacyParseBoolean(data: Record, field: string): (r: Result<Value>)
    ensures NonValue(Get(data, field)) ==> r == Ok(PyBool(false))
    ensures !Hashable(Get(data, field)) ==> r == Err(TypeError)
    ensures r.Ok? ==> r.value.PyBool? || (r.value.PyStr? && Lower(r.value.s) == r.value.s)
    ensures Hashable(Get(data, field)) && !NonValue(Get(data, field)) ==>
      var text := Lower(Str(Get(data, field)));
      && (text == "include" ==> r == Ok(PyBool(true)))
      && (text == "exclude" ==> r == Ok(PyBool(false)))
      && (text != "include" && text != "exclude" ==> r == Ok(PyStr(text)))
  {
    var v := Get(data, field);
    if !Hashable(v) then Err(TypeError)
    else if NonValue(v) then Ok(PyBool(false))
    else
      var text := Lower(Str(v));
      if text == "include" then Ok(PyBool(true))
      else if text == "exclude" then Ok(PyBool(false))
      else Ok(PyStr(text))
  }

  /** Lower-casing changes no whitespace character into another character or back. */
  lemma LowerCharSpace(c: char)
    ensures LowerChar(c) in Whitespace <==> c in Whitespace
  {
  }

  /** A text whose lower case is a word without whitespace at either end has no
      whitespace at either end itself. */
  lemma LowerWordKey(s: string, word: string)
    requires word == "include" || word == "exclude"
    requires Lower(s) == word
    ensures BoolKey(PyStr(s)) == word
  {
    LowerCharSpace(s[0]);
    LowerCharSpace(s[|s| - 1]);
    StripUnpadded(s);
  }

  /** `any_to_bool` reads a value only through its lookup key. */
  lemma AnyToBoolByKey(v: Value, w: Value)
    requires v != PyNone && w != PyNone && BoolKey(v) == BoolKey(w)
    ensures AnyToBool(v) == AnyToBool(w)
  {
  }

  /** Whenever the older parser settles on a boolean, the back end's parser reads the same
      value as that boolean: the two agree on every flag the older one recognises. */
  lemma LegacyBooleanAgrees(data: Record, field: string)
    requires LegacyParseBoolean(data, field).Ok? && LegacyParseBoolean(data, field).value.PyBool?
    ensures ParseBoolean(data, field) == Ok(LegacyParseBoolean(data, field).value.b)
  {
    var v := Get(data, field);
    if !NonValue(v) {
      var b := LegacyParseBoolean(data, field).value.b;
      var word := SerializeInclude(b);
      assert Lower(Str(v)) == word;
      LowerWordKey(Str(v), word);
      SerializedIncludeKey(word);
      AnyToBoolByKey(v, PyStr(word));
      IncludeRoundTrip(b);
    }
  }

  /** The mapping after the list fields and both flags. */
  function LegacyFlagged(data: Record): Record
    requires LegacyParseBoolean(data, "include").Ok? && LegacyParseBoolean(data, "has_pdf").Ok?
  {
    ListsParsed(data, ListFields)["include" := LegacyParseBoolean(data, "include").value]
      ["has_pdf" := LegacyParseBoolean(data, "has_pdf").value]
  }

  /** The older `_coerce_values` on raw data: the list fields, then both flags (include
      first), then the date. */
  function LegacyCoerced(data: Record, external: string -> Option<DateTime>): Result<Record>
  {
    var includeFlag :- LegacyParseBoolean(data, "include");
    var hasPdf :- LegacyParseBoolean(data, "has_pdf");
    var flagged := LegacyFlagged(data);
    var date :- ParseDate(flagged, "publication_date", external);
    Ok(flagged["publication_date" := DateValue(date)])
  }

  /** What `LegacyFlagged` holds, field by field. */
  lemma LegacyFlaggedFields(data: Record)
    requires LegacyParseBoolean(data, "include").Ok? && LegacyParseBoolean(data, "has_pdf").Ok?
    ensures LegacyFlagged(data).Keys == data.Keys + (set k | k in ListFields) + {"include", "has_pdf"}
    ensures forall f :: f in ListFields ==> LegacyFlagged(data)[f] == PyList(ParseList(data, f))
    ensures forall k :: k in data && k !in CoercedFields - {"publication_date"} ==> LegacyFlagged(data)[k] == data[k]
    ensures Get(LegacyFlagged(data), "publication_date") == Get(data, "publication_date")
  {
    ListFieldsDistinct();
    ListsParsedFields(data, ListFields);
    FieldNamesDistinct();
    FlagsSetMeaning(data, ListsParsed(data, ListFields),
      LegacyParseBoolean(data, "include").value, LegacyParseBoolean(data, "has_pdf").value);
  }

  /** Setting both flags on the parsed lists keeps the lists and every other field. */
  lemma FlagsSetMeaning(data: Record, listed: Record, a: Value, b: Value)
    requires "include" !in ListFields && "has_pdf" !in ListFields && "publication_date" !in ListFields
    requires (set k | k in ListFields) + {"include", "has_pdf", "publication_date"} == CoercedFields
    requires listed.Keys == data.Keys + set k | k in ListFields
    requires forall f :: f in ListFields ==> listed[f] == PyList(ParseList(data, f))
    requires forall k :: k !in ListFields ==> Get(listed, k) == Get(data, k)
    ensures var r := listed["include" := a]["has_pdf" := b];
      && r.Keys == data.Keys + (set k | k in ListFields) + {"include", "has_pdf"}
      && (forall f :: f in ListFields ==> r[f] == PyList(ParseList(data, f)))
      && (forall k :: k in data && k !in CoercedFields - {"publication_date"} ==> r[k] == data[k])
      && Get(r, "publication_date") == Get(data, "publication_date")
  {
    var r := listed["include" := a]["has_pdf" := b];
    forall k | k in data && k !in CoercedFields - {"publication_date"}
      ensures r[k] == data[k]
    {
      assert Get(listed, k) == Get(data, k);
    }
  }

  /** What the older validator's mapping holds, field by field: every list field parsed;
      both flags as the older parser reads them; the date parsed from the data as given;
      every other field untouched (a NaN stays a NaN). */
  lemma LegacyCoercedMeaning(data: Record, external: string -> Option<DateTime>)
    requires LegacyCoerced(data, external).Ok?
    ensures LegacyParseBoolean(data, "include").Ok? && LegacyParseBoolean(data, "has_pdf").Ok?
    ensures LegacyCoerced(data, external).value.Keys == data.Keys + CoercedFields
    ensures forall f :: f in ListFields ==> LegacyCoerced(data, external).value[f] == PyList(ParseList(data, f))
    ensures LegacyCoerced(data, external).value["include"] == LegacyParseBoolean(data, "include").value
    ensures LegacyCoerced(data, external).value["has_pdf"] == LegacyParseBoolean(data, "has_pdf").value
    ensures ParseDate(data, "publication_date", external).Ok?
    ensures LegacyCoerced(data, external).value["publication_date"] ==
      DateValue(ParseDate(data, "publication_date", external).value)
    ensures forall k :: k in data && k !in CoercedFields ==> LegacyCoerced(data, external).value[k] == data[k]
  {
    LegacyFlaggedFields(data);
    FieldNamesDistinct();
    ParseDateReadsField(LegacyFlagged(data), data, "publication_date", external);
  }

  /** The older `Evidence` declares every text field, abstract, venue and pdf_url
      included, as a required text. */
  const LegacyTexts: seq<string> := ["doi", "title", "abstract", "publication_venue", "url", "pdf_url"]

  /** The older `Evidence` fields, grouped by type. None has a default. */
  const LegacyFields: seq<Field> :=
    IdFields + Typed(BoolFields, BoolField) + Typed(LegacyTexts, TextField)
    + Typed(ListFields, TextListField) + [Field("publication_date", OptDateField, false)]

  /** `Evidence(**params)` of the older model: its model validator, then pydantic's field
      validation. */
  function LegacyNewEvidence(data: Record, external: string -> Option<DateTime>): (r: Result<Record>)
    ensures LegacyCoerced(data, external).Err? ==> r == Err(LegacyCoerced(data, external).error)
    ensures LegacyCoerced(data, external).Ok? ==> r == Validated(LegacyCoerced(data, external).value, LegacyFields)
  {
    var c :- LegacyCoerced(data, external);
    Validated(c, LegacyFields)
  }

  /** What the older `Evidence` demands after its model validator: an int cluster id,
      flags pydantic reads as booleans, every text field a text, lists, and a date or
      None. */
  predicate LegacyTyped(c: Record)
  {
    && "cluster_id" in c && c["cluster_id"].PyInt?
    && (forall n :: n in BoolFields ==> n in c && LaxBool(c[n]).Some?)
    && (forall n :: n in LegacyTexts ==> TextAt(c, n))
    && (forall n :: n in ListFields ==> n in c && c[n].PyList?)
    && OptDateAt(c, "publication_date")
  }

  /** Validation of the older `Evidence` succeeds exactly when every field has its
      declared type. */
  lemma LegacyAccepted(c: Record)
    ensures Validated(c, LegacyFields).Ok? <==> LegacyTyped(c)
  {
    var g1, g2, g3 := Typed(BoolFields, BoolField), Typed(LegacyTexts, TextField), Typed(ListFields, TextListField);
    var g4 := [Field("publication_date", OptDateField, false)];
    AcceptedAppend(c, IdFields + g1 + g2 + g3, g4);
    AcceptedAppend(c, IdFields + g1 + g2, g3);
    AcceptedAppend(c, IdFields + g1, g2);
    AcceptedAppend(c, IdFields, g1);
    IdAccepted(c);
    BoolsAccepted(c, BoolFields);
    TextsAccepted(c, LegacyTexts);
    ListsAccepted(c, ListFields);
    AcceptedOne(c, g4[0]);
  }

  /** The older model's text fields are fields its model validator leaves. */
  lemma LegacyTextsOutsideCoerced()
    ensures forall n :: n in LegacyTexts ==> n !in CoercedFields
  {
    OutsideCoerced();
    assert forall n :: n in LegacyTexts ==> n in RequiredTexts || n in OptionalTexts || n == "pdf_url";
  }

  /** What the older model validator leaves has lists as list fields and a date or None
      as the date; the flags are what the older parser read, and every other field is the
      row's own. */
  lemma LegacyCoercedShape(data: Record, external: string -> Option<DateTime>)
    requires LegacyCoerced(data, external).Ok?
    ensures var c := LegacyCoerced(data, external).value;
      && (forall n :: n in ListFields ==> n in c && c[n].PyList?)
      && OptDateAt(c, "publication_date")
      && (forall n :: n in BoolFields ==> LegacyParseBoolean(data, n).Ok?)
      && (forall n :: n in BoolFields ==> n in c && c[n] == LegacyParseBoolean(data, n).value)
      && (forall n :: n in LegacyTexts || n == "cluster_id" ==> (n in c <==> n in data) && (n in data ==> c[n] == data[n]))
  {
    LegacyCoercedMeaning(data, external);
    LegacyTextsOutsideCoerced();
    OutsideCoerced();
  }

  /** Texts kept as they were are texts exactly when they were. */
  lemma TextsKept(data: Record, c: Record, names: seq<string>)
    requires forall n :: n in names ==> (n in c <==> n in data) && (n in data ==> c[n] == data[n])
    ensures (forall n :: n in names ==> TextAt(c, n)) <==> (forall n :: n in names ==> TextAt(data, n))
  {
  }

  /** The flags the older validator leaves are read as booleans exactly when pydantic reads
      the values its parser handed on as booleans. */
  lemma LegacyFlagsRead(data: Record, c: Record)
    requires forall n :: n in BoolFields ==> LegacyParseBoolean(data, n).Ok?
    requires forall n :: n in BoolFields ==> n in c && c[n] == LegacyParseBoolean(data, n).value
    ensures (forall n :: n in BoolFields ==> n in c && LaxBool(c[n]).Some?) <==>
      (forall n :: n in BoolFields ==> LaxBool(LegacyParseBoolean(data, n).value).Some?)
  {
  }

  /** The older `Evidence(**params)` on a row its model validator accepts succeeds exactly
      when the row has an int cluster id, texts in every text field (a NaN or None is
      rejected, there being no NaN pass), and flags that, as the older parser hands them
      on, pydantic reads as booleans. */
  lemma LegacyNewEvidenceAccepts(data: Record, external: string -> Option<DateTime>)
    requires LegacyCoerced(data, external).Ok?
    ensures LegacyNewEvidence(data, external).Ok? <==>
      && "cluster_id" in data && data["cluster_id"].PyInt?
      && (forall n :: n in BoolFields ==> LaxBool(LegacyParseBoolean(data, n).value).Some?)
      && (forall n :: n in LegacyTexts ==> TextAt(data, n))
  {
    var c := LegacyCoerced(data, external).value;
    LegacyCoercedShape(data, external);
    LegacyAccepted(c);
    TextsKept(data, c, LegacyTexts);
    LegacyFlagsRead(data, c);
  }

  /** A flag text that is neither "include" nor "exclude" is handed on lower-cased, and
      when pydantic does not read that text as a boolean the evidence is rejected with a
      ValueError. */
  lemma UnknownFlagRejected(data: Record, external: string -> Option<DateTime>, field: string)
    requires field in BoolFields
    requires LegacyCoerced(data, external).Ok?
    requires LaxBool(LegacyParseBoolean(data, field).value).None?
    ensures LegacyNewEvidence(data, external) == Err(ValueError)
  {
    LegacyNewEvidenceAccepts(data, external);
  }

  /** "maybe" in the include column makes the older `Evidence` fail, while "Yes" is read
      as True. */
  lemma MaybeIsNoFlag()
    ensures LegacyParseBoolean(map["include" := PyStr("maybe")], "include") == Ok(PyStr("maybe"))
    ensures LaxBool(PyStr("maybe")).None?
    ensures LegacyParseBoolean(map["include" := PyStr("Yes")], "include") == Ok(PyStr("yes"))
    ensures LaxBool(PyStr("yes")) == Some(true)
  {
    assert Lower("maybe") == "maybe";
    assert Lower("Yes") == "yes";
  }

  /** `_parse_boolean` of the older model reads only the field it parses. */
  lemma LegacyParseBooleanReadsField(d1: Record, d2: Record, field: string)
    requires Get(d1, field) == Get(d2, field)
    ensures LegacyParseBoolean(d1, field) == LegacyParseBoolean(d2, field)
  {
  }

  /** The older `_coerce_values`: an instance passes through; raw data is coerced in
      place, field by field. */
  method LegacyCoerceValues(input: ValidatorInput, external: string -> Option<DateTime>) returns (r: Result<ValidatorInput>)
    ensures input.Instance? ==> r == Ok(input)
    ensures input.Raw? && LegacyCoerced(input.data, external).Ok? ==> r == Ok(Raw(LegacyCoerced(input.data, external).value))
    ensures input.Raw? && LegacyCoerced(input.data, external).Err? ==> r == Err(LegacyCoerced(input.data, external).error)
  {
    if input.Instance? {
      return Ok(input);
    }
    var data := input.data;
    for i := 0 to |ListFields|
      invariant data == ListsParsed(input.data, ListFields[..i])
    {
      assert ListFields[..i + 1][..i] == ListFields[..i];
      data := data[ListFields[i] := PyList(ParseList(data, ListFields[i]))];
    }
    assert ListFields[..|ListFields|] == ListFields;
    ghost var listed := data;
    ghost var raw := input.data;
    ListsKeepFlags(raw);
    for i := 0 to |BoolFields|
      invariant i >= 1 ==> LegacyParseBoolean(raw, "include").Ok?
      invariant i >= 2 ==> LegacyParseBoolean(raw, "has_pdf").Ok?
      invariant i == 0 ==> data == listed
      invariant i == 1 ==> data == listed["include" := LegacyParseBoolean(raw, "include").value]
      invariant i == 2 ==> data == listed["include" := LegacyParseBoolean(raw, "include").value]
        ["has_pdf" := LegacyParseBoolean(raw, "has_pdf").value]
    {
      LegacyParseBooleanReadsField(data, raw, BoolFields[i]);
      var parsed := LegacyParseBoolean(data, BoolFields[i]);
      if parsed.Err? {
        return Err(parsed.error);
      }
      data := data[BoolFields[i] := parsed.value];
    }
    assert data == LegacyFlagged(raw);
    var date := ParseDate(data, "publication_date", external);
    if date.Err? {
      return Err(date.error);
    }
    data := data["publication_date" := DateValue(date.value)];
    r := Ok(Raw(data));
  }
}
