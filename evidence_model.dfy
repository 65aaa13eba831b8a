/** The web back end's `Evidence` record: the validator that coerces a spreadsheet row
    or request body into evidence fields, and the serializers that write them back. */
module EvidenceModel {
  import opened Wrappers
  import opened Strings
  import opened PyValues
  import opened TypeConversions
  import Seqs

  /** A row or request body: field name to value. */
  type Record = map<string, Value>

  const ListFields: seq<string> := ["authors", "keywords", "exclude_reasons", "referencing_evidence"]
  const BoolFields: seq<string> := ["include", "has_pdf"]

  /** The text members of `NON_VALUES`; the others are None and NaN. */
  const NonValueTexts: set<string> := {"", "\r", "\n", "\t", " ", "nan"}

  /** Membership in `NON_VALUES`, for a hashable value. */
  predicate NonValue(v: Value)
  {
    v.PyNone? || v.PyNaN? || (v.PyStr? && v.s in NonValueTexts)
  }

  /** `data.get(field)`. */
  function Get(data: Record, field: string): Value
  {
    if field in data then data[field] else PyNone
  }

  /** An item `_parse_list` keeps: non-empty and already stripped. */
  predicate CleanItem(x: string)
  {
    x != "" && Strip(x) == x
  }

  /** The pieces a split leaves after stripping each and dropping the empty ones. */
  function CleanPieces(pieces: seq<string>): (r: seq<string>)
    ensures |r| <= |pieces|
    ensures forall k :: 0 <= k < |r| ==> CleanItem(r[k])
  {
    if pieces == [] then []
    else
      var rest := CleanPieces(pieces[..|pieces| - 1]);
      var x := Strip(pieces[|pieces| - 1]);
      StripIdempotent(pieces[|pieces| - 1]);
      if |x| > 0 then rest + [x] else rest
  }

  /** No piece holds `c`. */
  predicate NoneHolds(xs: seq<string>, c: char)
  {
    forall k :: 0 <= k < |xs| ==> c !in xs[k]
  }

  /** Cleaning brings in no character the pieces did not hold. */
  lemma {:induction false} CleanPiecesKeepAbsent(pieces: seq<string>, c: char)
    requires NoneHolds(pieces, c)
    ensures NoneHolds(CleanPieces(pieces), c)
  {
    if pieces != [] {
      CleanPiecesKeepAbsent(pieces[..|pieces| - 1], c);
      StripKeepsAbsent(pieces[|pieces| - 1], c);
    }
  }

  /** `_parse_list` on text: split on ";", strip, drop empty items. */
  function ParseListText(s: string): seq<string>
  {
    CleanPieces(Split(s, ';'))
  }

  /** `_parse_list`: missing or None gives no items, a collection gives its items,
      anything else is read as text. */
  function ParseList(data: Record, field: string): (r: seq<string>)
    ensures Get(data, field).PyNone? ==> r == []
    ensures Get(data, field).PyList? ==> r == Get(data, field).items
    ensures Get(data, field).PyStr? ==> r == ParseListText(Get(data, field).s)
  {
    var v := Get(data, field);
    if v.PyNone? then []
    else if v.PyList? then v.items
    else ParseListText(Str(v))
  }

  /** `serialize_lists`. */
  function SerializeList(items: seq<string>): string
  {
    Join(";", items)
  }

  lemma CleanPiecesSnoc(init: seq<string>, x: string)
    ensures CleanPieces(init + [x]) == CleanPieces(init) + (if |Strip(x)| > 0 then [Strip(x)] else [])
  {
    assert (init + [x])[..|init|] == init;
  }

  /** Items that are already clean (non-empty, stripped) survive cleaning unchanged. */
  lemma {:induction false} CleanPiecesOfClean(xs: seq<string>)
    requires forall k :: 0 <= k < |xs| ==> CleanItem(xs[k])
    ensures CleanPieces(xs) == xs
  {
    if xs != [] {
      var init := xs[..|xs| - 1];
      CleanPiecesOfClean(init);
      var last := xs[|xs| - 1];
      Seqs.SnocSplit(xs);
      CleanPiecesSnoc(init, last);
      assert CleanItem(last);
    }
  }

  /** Parsing the serialised list gives the list back when its items are non-empty,
      stripped and free of ";". */
  lemma ListRoundTrip(xs: seq<string>)
    requires forall k :: 0 <= k < |xs| ==> CleanItem(xs[k]) && ';' !in xs[k]
    ensures ParseListText(SerializeList(xs)) == xs
  {
    if xs == [] {
      assert Split("", ';') == [""];
      assert Strip("") == "";
    } else {
      SplitJoin(xs, ';');
      CleanPiecesOfClean(xs);
    }
  }

  /** A stripped piece of text holds no character the text does not hold. */
  lemma StripKeepsAbsent(s: string, c: char)
    requires c !in s
    ensures c !in Strip(s)
  {
    var l := LStripChars(s, Whitespace);
    assert l == s[|s| - |l|..];
    assert Strip(s) == l[..|Strip(s)|];
  }

  /** A parsed list is clean, so writing it out and parsing it again gives it back. */
  lemma ParseSerializeParse(s: string)
    ensures ParseListText(SerializeList(ParseListText(s))) == ParseListText(s)
  {
    CleanPiecesKeepAbsent(Split(s, ';'), ';');
    ListRoundTrip(ParseListText(s));
  }

  /** The outcome of `_parse_date`: no date, or a date. */
  function DateValue(d: Option<DateTime>): Value
  {
    if d.None? then PyNone else PyDate(d.value)
  }

  /** `_parse_date`. Non-values give no date; an all-digit text is January 1 of that
      year (a year outside 1..9999 is a ValueError); any other text is handed to the
      external date parser `external`, whose failure is a ValueError. */
  function ParseDate(data: Record, field: string, external: string -> Option<DateTime>): (r: Result<Option<DateTime>>)
    ensures Get(data, field).PyNone? ==> r == Ok(None)
    ensures NonValue(Get(data, field)) ==> r == Ok(None)
    ensures !Get(data, field).PyNone? && Str(Get(data, field)) in NonValueTexts ==> r == Ok(None)
    ensures var text := Str(Get(data, field));
      !Get(data, field).PyNone? && text !in NonValueTexts && IsDigits(text) ==>
        r == if 1 <= DigitsValue(text) <= 9999 then Ok(Some(DateTime(DigitsValue(text), 1, 1, 0, 0, 0, 0)))
             else Err(ValueError)
    ensures var text := Str(Get(data, field));
      !Get(data, field).PyNone? && text !in NonValueTexts && !IsDigits(text) ==>
        (r.Ok? <==> external(text).Some?) && (r.Ok? ==> r.value == external(text))
    ensures r.Err? ==> r.error == ValueError
  {
    var v := Get(data, field);
    if v.PyNone? then Ok(None)
    else
      var text := Str(v);
      if text in NonValueTexts then Ok(None)
      else if IsDigits(text) then
        var year := DigitsValue(text);
        if 1 <= year <= 9999 then Ok(Some(DateTime(year, 1, 1, 0, 0, 0, 0))) else Err(ValueError)
      else if external(text).Some? then Ok(external(text))
      else Err(ValueError)
  }

  /** `_parse_date` reads only the field it parses. */
  lemma ParseDateReadsField(d1: Record, d2: Record, field: string, external: string -> Option<DateTime>)
    requires Get(d1, field) == Get(d2, field)
    ensures ParseDate(d1, field, external) == ParseDate(d2, field, external)
  {
  }

  /** No non-value text is all digits. */
  lemma NonValueTextsNotDigits(t: string)
    requires t in NonValueTexts
    ensures !IsDigits(t)
  {
    assert t == "" || t == "\r" || t == "\n" || t == "\t" || t == " " || t == "nan";
    if t != "" {
      assert !IsDigit(t[0]);
    }
  }

  /** A year written in digits parses to January 1 of that year. */
  lemma ParseDateOfYear(data: Record, field: string, year: int, external: string -> Option<DateTime>)
    requires 1 <= year <= 9999
    requires field in data && data[field] == PyStr(NatToString(year))
    ensures ParseDate(data, field, external) == Ok(Some(DateTime(year, 1, 1, 0, 0, 0, 0)))
  {
    DigitsValueOfNatToString(year);
    var text := NatToString(year);
    if text in NonValueTexts {
      NonValueTextsNotDigits(text);
    }
  }

  /** `_parse_boolean`: non-values are False, anything else goes through `any_to_bool`;
      looking a list up in `NON_VALUES` is a TypeError. */
  function ParseBoolean(data: Record, field: string): (r: Result<bool>)
    ensures NonValue(Get(data, field)) ==> r == Ok(false)
    ensures Hashable(Get(data, field)) && !NonValue(Get(data, field)) ==> r == AnyToBool(Get(data, field))
    ensures !Hashable(Get(data, field)) ==> r == Err(TypeError)
  {
    var v := Get(data, field);
    if !Hashable(v) then Err(TypeError)
    else if NonValue(v) then Ok(false)
    else AnyToBool(v)
  }

  /** `serialize_include`. */
  function SerializeInclude(included: bool): string
  {
    if included then "include" else "exclude"
  }

  /** The two serialised words are their own lookup keys. */
  lemma SerializedIncludeKey(s: string)
    requires s == "include" || s == "exclude"
    ensures BoolKey(PyStr(s)) == s
  {
    StripUnpadded(s);
    LowerUncapitalised(s);
  }

  /** The serialised include flag reads back as the same flag. */
  lemma IncludeRoundTrip(included: bool)
    ensures AnyToBool(PyStr(SerializeInclude(included))) == Ok(included)
  {
    if included {
      IncludeWordReads();
    } else {
      ExcludeWordReads();
    }
  }

  lemma IncludeWordReads()
    ensures AnyToBool(PyStr("include")) == Ok(true)
  {
    SerializedIncludeKey("include");
    assert "include" in TrueWords;
  }

  lemma ExcludeWordReads()
    ensures AnyToBool(PyStr("exclude")) == Ok(false)
  {
    SerializedIncludeKey("exclude");
    ExcludeWordIsFalse();
  }

  lemma ExcludeWordIsFalse()
    ensures "exclude" !in TrueWords && "exclude" in FalseWords
  {
    assert "exclude"[0] == 'e';
  }

  /** Neither serialised word is a non-value. */
  lemma SerializedIncludeIsValue(included: bool)
    ensures SerializeInclude(included) !in NonValueTexts
  {
    if included {
      assert "include" !in NonValueTexts;
    } else {
      assert "exclude" !in NonValueTexts;
    }
  }

  /** The validator's boolean parsing reads the serialised flag back too. */
  lemma IncludeFieldRoundTrip(included: bool)
    ensures ParseBoolean(map["include" := PyStr(SerializeInclude(included))], "include") == Ok(included)
  {
    IncludeRoundTrip(included);
    SerializedIncludeIsValue(included);
    var data := map["include" := PyStr(SerializeInclude(included))];
    assert Get(data, "include") == PyStr(SerializeInclude(included));
  }

  /** `serialize_publication_date`: `isoformat()`, the day and the time of day joined by
      "T". A missing date has no `isoformat`, which is an AttributeError. */
  function SerializeDate(d: Option<DateTime>): (r: Result<string>)
    ensures r.Err? <==> d.None?
    ensures r.Err? ==> r.error == AttributeError
    ensures r.Ok? ==> var day := DateText(d.value);
      |r.value| > |day| && r.value[..|day|] == day && r.value[|day|] == 'T'
    ensures r.Ok? ==> r.value == DateText(d.value) + "T" + TimeText(d.value)
  {
    if d.None? then Err(AttributeError)
    else
      var day := DateText(d.value);
      assert (day + "T" + TimeText(d.value))[..|day|] == day;
      Ok(day + "T" + TimeText(d.value))
  }

  /** A date of the calendar that `datetime` allows is written at fixed positions, and
      each of its fields reads back from its digits: "YYYY-MM-DDTHH:MM:SS", followed by
      ".ffffff" exactly when there are microseconds. */
  lemma SerializeDateReadsBack(d: DateTime)
    requires 1 <= d.year <= 9999 && 1 <= d.month <= 12 && 1 <= d.day <= 31
    requires 0 <= d.hour < 24 && 0 <= d.minute < 60 && 0 <= d.second < 60
    requires 0 <= d.microsecond < 1000000
    ensures SerializeDate(Some(d)).Ok?
    ensures var t := SerializeDate(Some(d)).value;
      |t| == (if d.microsecond == 0 then 19 else 26) &&
      t[4] == '-' && t[7] == '-' && t[10] == 'T' && t[13] == ':' && t[16] == ':' &&
      IsDigits(t[..4]) && DigitsValue(t[..4]) == d.year &&
      IsDigits(t[5..7]) && DigitsValue(t[5..7]) == d.month &&
      IsDigits(t[8..10]) && DigitsValue(t[8..10]) == d.day &&
      IsDigits(t[11..13]) && DigitsValue(t[11..13]) == d.hour &&
      IsDigits(t[14..16]) && DigitsValue(t[14..16]) == d.minute &&
      IsDigits(t[17..19]) && DigitsValue(t[17..19]) == d.second &&
      (d.microsecond != 0 ==> t[19] == '.' && IsDigits(t[20..]) && DigitsValue(t[20..]) == d.microsecond)
  {
    DateTextReadsBack(d);
    TimeTextReadsBack(d);
    IsoSlices(DateText(d), TimeText(d));
  }

  /** Where the day's and the time's fields sit in `day + "T" + time`. */
  lemma IsoSlices(day: string, time: string)
    requires |day| == 10 && |time| >= 8
    ensures var t := day + "T" + time;
      |t| == 11 + |time| && t[10] == 'T' &&
      t[4] == day[4] && t[7] == day[7] && t[13] == time[2] && t[16] == time[5] &&
      t[..4] == day[..4] && t[5..7] == day[5..7] && t[8..10] == day[8..10] &&
      t[11..13] == time[..2] && t[14..16] == time[3..5] && t[17..19] == time[6..8] &&
      (|time| >= 9 ==> t[19] == time[8] && t[20..] == time[9..])
  {
  }

  lemma Pow10Widths()
    ensures Pow10(2) == 100 && Pow10(4) == 10000 && Pow10(6) == 1000000
  {
    assert Pow10(1) == 10 && Pow10(3) == 1000 && Pow10(5) == 100000;
  }

  /** "YYYY-MM-DD" at fixed positions, each field reading back. */
  lemma DateTextReadsBack(d: DateTime)
    requires 1 <= d.year <= 9999 && 1 <= d.month <= 12 && 1 <= d.day <= 31
    ensures var t := DateText(d);
      |t| == 10 && t[4] == '-' && t[7] == '-' &&
      IsDigits(t[..4]) && DigitsValue(t[..4]) == d.year &&
      IsDigits(t[5..7]) && DigitsValue(t[5..7]) == d.month &&
      IsDigits(t[8..10]) && DigitsValue(t[8..10]) == d.day
  {
    Pow10Widths();
    ZeroPadRoundTrip(d.year, 4);
    ZeroPadRoundTrip(d.month, 2);
    ZeroPadRoundTrip(d.day, 2);
    var y, mo, dd := ZeroPad(d.year, 4), ZeroPad(d.month, 2), ZeroPad(d.day, 2);
    var t := DateText(d);
    assert t == y + "-" + mo + "-" + dd;
    assert t[..4] == y && t[5..7] == mo && t[8..10] == dd;
  }

  /** "HH:MM:SS" at fixed positions, then ".ffffff" exactly when there are
      microseconds, each field reading back. */
  lemma TimeTextReadsBack(d: DateTime)
    requires 0 <= d.hour < 24 && 0 <= d.minute < 60 && 0 <= d.second < 60
    requires 0 <= d.microsecond < 1000000
    ensures var t := TimeText(d);
      |t| == (if d.microsecond == 0 then 8 else 15) && t[2] == ':' && t[5] == ':' &&
      IsDigits(t[..2]) && DigitsValue(t[..2]) == d.hour &&
      IsDigits(t[3..5]) && DigitsValue(t[3..5]) == d.minute &&
      IsDigits(t[6..8]) && DigitsValue(t[6..8]) == d.second &&
      (d.microsecond != 0 ==> t[8] == '.' && IsDigits(t[9..]) && DigitsValue(t[9..]) == d.microsecond)
  {
    Pow10Widths();
    ZeroPadRoundTrip(d.hour, 2);
    ZeroPadRoundTrip(d.minute, 2);
    ZeroPadRoundTrip(d.second, 2);
    ZeroPadRoundTrip(d.microsecond, 6);
    var h, mi, sc := ZeroPad(d.hour, 2), ZeroPad(d.minute, 2), ZeroPad(d.second, 2);
    var tail := if d.microsecond != 0 then "." + ZeroPad(d.microsecond, 6) else "";
    var t := TimeText(d);
    assert t == h + ":" + mi + ":" + sc + tail;
    assert t[..2] == h && t[3..5] == mi && t[6..8] == sc;
    assert t[8..] == tail;
    if d.microsecond != 0 {
      assert t[9..] == ZeroPad(d.microsecond, 6);
    }
  }

  /** A date read from a year alone is written back at midnight. */
  lemma SerializeYearDate(year: int)
    ensures SerializeDate(Some(DateTime(year, 1, 1, 0, 0, 0, 0))).value ==
      ZeroPad(year, 4) + "-01-01T00:00:00"
  {
    var d := DateTime(year, 1, 1, 0, 0, 0, 0);
    PadsOfZeroAndOne();
    assert DateText(d) == ZeroPad(year, 4) + "-01-01";
    assert TimeText(d) == "00:00:00";
  }

  lemma PadsOfZeroAndOne()
    ensures ZeroPad(0, 2) == "00" && ZeroPad(1, 2) == "01"
  {
    assert NatToString(0) == "0";
    assert NatToString(1) == "1";
    assert Zeros(1) == "0";
  }

  /** What the model validator receives: an `Evidence` instance, or a raw mapping. */
  datatype ValidatorInput = Instance(fields: Record) | Raw(data: Record)

  /** `data.get("exclude_reasons") is None or len(...) == 0`. */
  predicate NoReasons(v: Value)
  {
    v.PyNone? || (v.PyList? && v.items == [])
  }

  /** The NaN pass: every NaN becomes None. */
  function ClearNaN(data: Record): (r: Record)
    ensures r.Keys == data.Keys
    ensures forall k :: k in data ==> r[k] == (if data[k].PyNaN? then PyNone else data[k])
  {
    map k | k in data :: if data[k].PyNaN? then PyNone else data[k]
  }

  /** The list fields parsed one after another, each from the mapping as it then is. */
  function ListsParsed(data: Record, fields: seq<string>): Record
  {
    if fields == [] then data
    else
      var d := ListsParsed(data, fields[..|fields| - 1]);
      d[fields[|fields| - 1] := PyList(ParseList(d, fields[|fields| - 1]))]
  }

  /** The mapping after the list fields, both flags and the include fix. The flags are read
      from `data`: parsing the list fields does not touch them. */
  function Flagged(data: Record): Record
    requires ParseBoolean(data, "include").Ok? && ParseBoolean(data, "has_pdf").Ok?
  {
    var listed := ListsParsed(data, ListFields);
    var flagged := listed["include" := PyBool(ParseBoolean(data, "include").value)]
      ["has_pdf" := PyBool(ParseBoolean(data, "has_pdf").value)];
    if NoReasons(Get(flagged, "exclude_reasons")) then flagged["include" := PyBool(true)] else flagged
  }

  /** `_coerce_values` on raw data, step by step: the list fields, then the two flags
      (include first), then the include fix, then the NaN pass, then the date. */
  function Coerced(data: Record, external: string -> Option<DateTime>): Result<Record>
  {
    var includeFlag :- ParseBoolean(data, "include");
    var hasPdf :- ParseBoolean(data, "has_pdf");
    var cleared := ClearNaN(Flagged(data));
    var date :- ParseDate(cleared, "publication_date", external);
    Ok(cleared["publication_date" := DateValue(date)])
  }

  /** Parsing a prefix of the list fields sets those fields and leaves every other key. */
  lemma {:induction false} ListsParsedFields(data: Record, fields: seq<string>)
    requires Seqs.Distinct(fields)
    ensures ListsParsed(data, fields).Keys == data.Keys + set k | k in fields
    ensures forall f :: f in fields ==> ListsParsed(data, fields)[f] == PyList(ParseList(data, f))
    ensures forall k :: k !in fields ==> Get(ListsParsed(data, fields), k) == Get(data, k)
  {
    if fields != [] {
      var init, f := fields[..|fields| - 1], fields[|fields| - 1];
      assert fields == init + [f];
      assert Seqs.Distinct(init);
      assert f !in init;
      ListsParsedFields(data, init);
      var d := ListsParsed(data, init);
      ParseListReadsField(d, data, f);
    }
  }

  /** The list fields are distinct. */
  lemma ListFieldsDistinct()
    ensures Seqs.Distinct(ListFields)
  {
  }

  /** `_parse_list` reads only the field it parses. */
  lemma ParseListReadsField(d1: Record, d2: Record, field: string)
    requires Get(d1, field) == Get(d2, field)
    ensures ParseList(d1, field) == ParseList(d2, field)
  {
  }

  /** The fields the validator always sets. */
  const CoercedFields: set<string> := {"authors", "keywords", "exclude_reasons", "referencing_evidence",
    "include", "has_pdf", "publication_date"}

  /** Parsing the list fields leaves both flags as they were. */
  lemma ListsKeepFlags(data: Record)
    ensures Get(ListsParsed(data, ListFields), "include") == Get(data, "include")
    ensures Get(ListsParsed(data, ListFields), "has_pdf") == Get(data, "has_pdf")
  {
    FieldNamesDistinct();
    ListFieldsDistinct();
    ListsParsedFields(data, ListFields);
  }

  /** The field names the validator sets are distinct. */
  lemma FieldNamesDistinct()
    ensures "include" !in ListFields && "has_pdf" !in ListFields && "publication_date" !in ListFields
    ensures "exclude_reasons" in ListFields && "include" != "has_pdf"
    ensures (set k | k in ListFields) + {"include", "has_pdf", "publication_date"} == CoercedFields
  {
  }

  /** The keys of `Flagged`: the data's own, and every field the validator sets except
      the date. */
  lemma FlaggedKeys(data: Record)
    requires ParseBoolean(data, "include").Ok? && ParseBoolean(data, "has_pdf").Ok?
    ensures Flagged(data).Keys == data.Keys + (set k | k in ListFields) + {"include", "has_pdf"}
  {
    ListFieldsDistinct();
    ListsParsedFields(data, ListFields);
  }

  /** What `Flagged` holds, field by field. */
  lemma FlaggedFields(data: Record)
    requires ParseBoolean(data, "include").Ok? && ParseBoolean(data, "has_pdf").Ok?
    ensures Flagged(data).Keys == data.Keys + (set k | k in ListFields) + {"include", "has_pdf"}
    ensures forall f :: f in ListFields ==> Flagged(data)[f] == PyList(ParseList(data, f))
    ensures Flagged(data)["has_pdf"] == PyBool(ParseBoolean(data, "has_pdf").value)
    ensures Flagged(data)["include"] ==
      PyBool(ParseBoolean(data, "include").value || ParseList(data, "exclude_reasons") == [])
    ensures forall k :: k in data && k !in CoercedFields ==> Flagged(data)[k] == data[k]
  {
    FlaggedKeys(data);
    FieldNamesDistinct();
    ListFieldsDistinct();
    ListsParsedFields(data, ListFields);
  }

  /** What the coerced mapping holds, field by field: every list field parsed from the
      original data; both flags read from it, with include forced to True when there are no
      exclude reasons; every other field kept, NaN turned into None. An include flag
      that cannot be read is the error reported, before the other flag and the date. */
  lemma CoercedMeaning(data: Record, external: string -> Option<DateTime>)
    requires Coerced(data, external).Ok?
    ensures Coerced(data, external).value.Keys == data.Keys + CoercedFields
    ensures forall f :: f in ListFields ==> Coerced(data, external).value[f] == PyList(ParseList(data, f))
    ensures ParseBoolean(data, "include").Ok? && ParseBoolean(data, "has_pdf").Ok?
    ensures Coerced(data, external).value["has_pdf"] == PyBool(ParseBoolean(data, "has_pdf").value)
    ensures Coerced(data, external).value["include"] ==
      PyBool(ParseBoolean(data, "include").value || ParseList(data, "exclude_reasons") == [])
    ensures forall k :: k in data && k !in CoercedFields ==>
      Coerced(data, external).value[k] == (if data[k].PyNaN? then PyNone else data[k])
  {
    var flagged := Flagged(data);
    var v := CoercedIsDated(data, external);
    FieldNamesDistinct();
    FlaggedFields(data);
    DatedMeaning(data, flagged, v);
  }

  /** A coerced mapping is the flagged one with NaN cleared and the date set. */
  lemma CoercedIsDated(data: Record, external: string -> Option<DateTime>) returns (v: Value)
    requires Coerced(data, external).Ok?
    ensures ParseBoolean(data, "include").Ok? && ParseBoolean(data, "has_pdf").Ok?
    ensures Coerced(data, external).value == ClearNaN(Flagged(data))["publication_date" := v]
    ensures v.PyDate? || v.PyNone?
  {
    CoercedOnceFlagsRead(data, external);
    var cleared := ClearNaN(Flagged(data));
    v := DateValue(ParseDate(cleared, "publication_date", external).value);
  }

  /** Clearing NaN and setting the date keeps every field `Flagged` sets, and clears NaN
      in the others. */
  lemma DatedMeaning(data: Record, flagged: Record, v: Value)
    requires "include" !in ListFields && "has_pdf" !in ListFields && "publication_date" !in ListFields
    requires (set k | k in ListFields) + {"include", "has_pdf", "publication_date"} == CoercedFields
    requires flagged.Keys == data.Keys + (set k | k in ListFields) + {"include", "has_pdf"}
    requires forall f :: f in ListFields ==> flagged[f].PyList?
    requires flagged["has_pdf"].PyBool? && flagged["include"].PyBool?
    requires forall k :: k in data && k !in CoercedFields ==> flagged[k] == data[k]
    ensures var r := ClearNaN(flagged)["publication_date" := v];
      && r.Keys == data.Keys + CoercedFields
      && (forall f :: f in ListFields ==> r[f] == flagged[f])
      && r["has_pdf"] == flagged["has_pdf"] && r["include"] == flagged["include"]
      && (forall k :: k in data && k !in CoercedFields ==> r[k] == (if data[k].PyNaN? then PyNone else data[k]))
  {
  }

  /** `_parse_boolean` reads only the field it parses. */
  lemma ParseBooleanReadsField(d1: Record, d2: Record, field: string)
    requires Get(d1, field) == Get(d2, field)
    ensures ParseBoolean(d1, field) == ParseBoolean(d2, field)
  {
  }

  /** The validator's outcome once both flags are read: the date decides. */
  lemma CoercedOnceFlagsRead(data: Record, external: string -> Option<DateTime>)
    requires ParseBoolean(data, "include").Ok? && ParseBoolean(data, "has_pdf").Ok?
    ensures var cleared := ClearNaN(Flagged(data));
      var date := ParseDate(cleared, "publication_date", external);
      Coerced(data, external) ==
        if date.Err? then Err(date.error) else Ok(cleared["publication_date" := DateValue(date.value)])
  {
  }

  /** `_coerce_values`: an `Evidence` instance is returned as it is; raw data is coerced
      field by field, in the order the source visits the fields. */
  method CoerceValues(input: ValidatorInput, external: string -> Option<DateTime>) returns (r: Result<ValidatorInput>)
    ensures input.Instance? ==> r == Ok(input)
    ensures input.Raw? && Coerced(input.data, external).Ok? ==> r == Ok(Raw(Coerced(input.data, external).value))
    ensures input.Raw? && Coerced(input.data, external).Err? ==> r == Err(Coerced(input.data, external).error)
  {
    if input.Instance? {
      return Ok(input);
    }
    var data := input.data;
    for i := 0 to |ListFields|
      invariant data == ListsParsed(input.data, ListFields[..i])
    {
      assert ListFields[..i + 1][..i] == ListFields[..i];
      data := data[ListFields[i] := PyList(ParseList(data, ListFields[i]))];
    }
    assert ListFields[..|ListFields|] == ListFields;
    ghost var listed := data;
    ghost var raw := input.data;
    ListsKeepFlags(raw);
    for i := 0 to |BoolFields|
      invariant i >= 1 ==> ParseBoolean(raw, "include").Ok?
      invariant i >= 2 ==> ParseBoolean(raw, "has_pdf").Ok?
      invariant i == 0 ==> data == listed
      invariant i == 1 ==> data == listed["include" := PyBool(ParseBoolean(raw, "include").value)]
      invariant i == 2 ==> data == listed["include" := PyBool(ParseBoolean(raw, "include").value)]
        ["has_pdf" := PyBool(ParseBoolean(raw, "has_pdf").value)]
    {
      ParseBooleanReadsField(data, raw, BoolFields[i]);
      var parsed := ParseBoolean(data, BoolFields[i]);
      if parsed.Err? {
        return Err(parsed.error);
      }
      data := data[BoolFields[i] := PyBool(parsed.value)];
    }
    if NoReasons(Get(data, "exclude_reasons")) {
      data := data["include" := PyBool(true)];
    }
    assert data == Flagged(raw);
    CoercedOnceFlagsRead(raw, external);
    data := ClearNaN(data);
    var date := ParseDate(data, "publication_date", external);
    if date.Err? {
      return Err(date.error);
    }
    data := data["publication_date" := DateValue(date.value)];
    r := Ok(Raw(data));
  }

  /** What `model_dump` writes for one field: a list field joined with ";", the flag as
      "include" or "exclude", the date in ISO format, any other field as it is. */
  function DumpValue(field: string, v: Value): Value
  {
    if field in ListFields && v.PyList? then PyStr(SerializeList(v.items))
    else if field == "include" && v.PyBool? then PyStr(SerializeInclude(v.b))
    else if field == "publication_date" && v.PyDate? then PyStr(SerializeDate(Some(v.date)).value)
    else v
  }

  /** `model_dump` of an evidence record, field by field. The date serialiser fails on a
      record without a date, and pydantic reports that failure as a
      `PydanticSerializationError`, which is a ValueError. */
  function Dump(ev: Record): (r: Result<Record>)
    ensures r.Err? <==> !Get(ev, "publication_date").PyDate?
    ensures r.Err? ==> r.error == ValueError
    ensures r.Ok? ==> r.value.Keys == ev.Keys
  {
    if !Get(ev, "publication_date").PyDate? then Err(ValueError)
    else Ok(map k | k in ev :: DumpValue(k, ev[k]))
  }

  /** A dumped record reads back through the boolean parser as the flag it was dumped with. */
  lemma DumpIncludeReadsBack(ev: Record)
    requires Dump(ev).Ok?
    requires "include" in ev && ev["include"].PyBool?
    ensures ParseBoolean(Dump(ev).value, "include") == Ok(ev["include"].b)
  {
    var d := Dump(ev).value;
    var b := ev["include"].b;
    assert d["include"] == PyStr(SerializeInclude(b));
    ParseBooleanReadsField(d, map["include" := PyStr(SerializeInclude(b))], "include");
    IncludeFieldRoundTrip(b);
  }

  /** A dumped record reads back through the parsers as the flag and the reasons it was
      dumped with, when the reasons are clean and hold no ";". */
  lemma DumpReadsBack(ev: Record)
    requires Dump(ev).Ok?
    requires "include" in ev && ev["include"].PyBool?
    requires "exclude_reasons" in ev && ev["exclude_reasons"].PyList?
    requires forall k :: 0 <= k < |ev["exclude_reasons"].items| ==>
      CleanItem(ev["exclude_reasons"].items[k]) && ';' !in ev["exclude_reasons"].items[k]
    ensures ParseBoolean(Dump(ev).value, "include") == Ok(ev["include"].b)
    ensures ParseList(Dump(ev).value, "exclude_reasons") == ev["exclude_reasons"].items
  {
    var d := Dump(ev).value;
    DumpIncludeReadsBack(ev);
    var items := ev["exclude_reasons"].items;
    assert "exclude_reasons" in ListFields;
    assert d["exclude_reasons"] == PyStr(SerializeList(items));
    ListRoundTrip(items);
  }
}
