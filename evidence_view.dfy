/** The back end's `EvidenceViewModel`: the evidence as the page shows it. Its validator
    runs the `Evidence` coercion first and then fills the display fields; its list and
    flag serialisers hand the values on unchanged, so the view keeps lists as lists. */
module EvidenceView {
  import opened Wrappers
  import opened Strings
  import opened PyValues
  import opened TypeConversions
  import opened EvidenceModel

  const SearchUrl: string := "https://www.semanticscholar.org/search?"
  const DoiLinkPrefix: string := "https://dx.doi.org/"
  const SciHubPrefix: string := "https://sci-hub.se/"
  const NotSpecified: string := "<not specified>"

  /** The view's reason list: every stored reason split on "," and each piece stripped,
      empty pieces included. */
  function SplitReasons(reasons: seq<string>): (r: seq<string>)
    ensures |r| >= |reasons|
  {
    if reasons == [] then []
    else SplitReasons(reasons[..|reasons| - 1]) + StripAll(Split(reasons[|reasons| - 1], ','))
  }

  /** Stripping keeps a slice of the text, so it adds no character. */
  lemma StripAddsNothing(s: string, c: char)
    requires c !in s
    ensures c !in Strip(s)
  {
    var l := LStripChars(s, Whitespace);
    assert forall i :: 0 <= i < |l| ==> l[i] == s[|s| - |l| + i];
    var r := RStripChars(l, Whitespace);
    assert forall i :: 0 <= i < |r| ==> r[i] == l[i];
  }

  /** Every piece of the view's reason list is stripped and holds no ",". */
  lemma {:induction false} SplitReasonsPieces(reasons: seq<string>)
    ensures forall k :: 0 <= k < |SplitReasons(reasons)| ==>
      ',' !in SplitReasons(reasons)[k] && Strip(SplitReasons(reasons)[k]) == SplitReasons(reasons)[k]
  {
    if reasons != [] {
      SplitReasonsPieces(reasons[..|reasons| - 1]);
      var pieces := Split(reasons[|reasons| - 1], ',');
      forall k | 0 <= k < |pieces|
        ensures ',' !in Strip(pieces[k]) && Strip(Strip(pieces[k])) == Strip(pieces[k])
      {
        StripAddsNothing(pieces[k], ',');
        StripIdempotent(pieces[k]);
      }
    }
  }

  /** Reasons that are already clean and hold no "," come through the split unchanged. */
  lemma {:induction false} SplitReasonsOfClean(reasons: seq<string>)
    requires forall k :: 0 <= k < |reasons| ==> CleanItem(reasons[k]) && ',' !in reasons[k]
    ensures SplitReasons(reasons) == reasons
  {
    if reasons != [] {
      var init, last := reasons[..|reasons| - 1], reasons[|reasons| - 1];
      SplitReasonsOfClean(init);
      SplitNoSeparator(last, ',');
      assert StripAll([last]) == [last];
      Seqs.SnocSplit(reasons);
    }
  }

  /** After the `Evidence` coercion the date is a date or None. */
  lemma CoercedDate(data: Record, external: string -> Option<DateTime>)
    requires Coerced(data, external).Ok?
    ensures "publication_date" in Coerced(data, external).value
    ensures var v := Coerced(data, external).value["publication_date"]; v.PyNone? || v.PyDate?
  {
    CoercedMeaning(data, external);
    CoercedOnceFlagsRead(data, external);
  }

  /** What the evidence coercion leaves for the view's own steps: a reason list and a
      date that is a date or None. */
  predicate CoercedShape(c: Record)
  {
    "exclude_reasons" in c && c["exclude_reasons"].PyList? &&
    "publication_date" in c && (c["publication_date"].PyNone? || c["publication_date"].PyDate?)
  }

  /** The coerced evidence has that shape. */
  lemma CoercedHasShape(data: Record, external: string -> Option<DateTime>)
    requires Coerced(data, external).Ok?
    ensures CoercedShape(Coerced(data, external).value)
    ensures Coerced(data, external).value["exclude_reasons"] == PyList(ParseList(data, "exclude_reasons"))
  {
    CoercedMeaning(data, external);
    CoercedDate(data, external);
    FieldNamesDistinct();
  }

  /** The status word the view derives from the include flag through `any_to_bool`. */
  method StatusWord(included: bool) returns (word: string)
    ensures word == if included then "include" else "exclude"
  {
    AnyToBoolOfBool(included);
    var status := AnyToBool(PyBool(included));
    word := if status.value then "include" else "exclude";
  }

  /** The view's first steps: a search link for a missing URL, a KeyError when there is
      no title to search for, and the date as text when there is a date. */
  method AddSearchLinkAndDate(c: Record, encode: string -> string) returns (r: Result<Record>)
    requires "publication_date" in c && (c["publication_date"].PyNone? || c["publication_date"].PyDate?)
    ensures r.Err? <==> Get(c, "url").PyNone? && "title" !in c
    ensures r.Err? ==> r.error == KeyError
    ensures r.Ok? ==> "url" in r.value
    ensures r.Ok? ==> r.value["url"] == (if Get(c, "url").PyNone? then PyStr(SearchUrl + "q=" + encode(Str(c["title"]))) else c["url"])
    ensures r.Ok? && c["publication_date"].PyDate? ==>
      "published_at" in r.value && r.value["published_at"] == PyStr(DateText(c["publication_date"].date))
    ensures r.Ok? && c["publication_date"].PyNone? ==> Get(r.value, "published_at") == Get(c, "published_at")
    ensures r.Ok? ==> Get(r.value, "exclude_reasons") == Get(c, "exclude_reasons")
    ensures r.Ok? ==> Get(r.value, "publication_venue") == Get(c, "publication_venue")
    ensures r.Ok? ==> Get(r.value, "doi") == Get(c, "doi")
    ensures r.Ok? ==> forall k :: k in c ==> k in r.value
    ensures r.Ok? ==> forall k :: k in c && k != "url" && k != "published_at" ==> r.value[k] == c[k]
  {
    var d := c;
    if Get(d, "url").PyNone? {
      if "title" !in d {
        return Err(KeyError);
      }
      d := d["url" := PyStr(SearchUrl + "q=" + encode(Str(d["title"])))];
    }
    var date := d["publication_date"];
    if Truthy(date) {
      d := d["published_at" := PyStr(DateText(date.date))];
    }
    r := Ok(d);
  }

  /** The reasons split on ",", and include True exactly when there were none. */
  method SplitReasonsAndSetInclude(d: Record) returns (r: Record)
    requires "exclude_reasons" in d && d["exclude_reasons"].PyList?
    ensures "include" in r && r["include"] == PyBool(d["exclude_reasons"].items == [])
    ensures "exclude_reasons" in r && r["exclude_reasons"] == PyList(SplitReasons(d["exclude_reasons"].items))
    ensures Get(r, "publication_venue") == Get(d, "publication_venue") && Get(r, "doi") == Get(d, "doi")
    ensures Get(r, "url") == Get(d, "url") && Get(r, "published_at") == Get(d, "published_at")
    ensures forall k :: k in d ==> k in r
    ensures forall k :: k in d && k != "include" && k != "exclude_reasons" ==> r[k] == d[k]
  {
    r := d;
    var reasons := r["exclude_reasons"];
    if Truthy(reasons) {
      r := r["exclude_reasons" := PyList(SplitReasons(reasons.items))];
      r := r["include" := PyBool(|reasons.items| == 0)];
    } else {
      r := r["include" := PyBool(true)];
    }
  }

  /** A placeholder for a missing venue, and both DOI links when there is a DOI. */
  method AddVenueAndDoiLinks(d: Record) returns (r: Record)
    ensures "publication_venue" in r
    ensures r["publication_venue"] == (if Truthy(Get(d, "publication_venue")) then d["publication_venue"] else PyStr(NotSpecified))
    ensures Truthy(Get(d, "doi")) ==>
      "doi_link" in r && r["doi_link"] == PyStr(DoiLinkPrefix + Str(d["doi"])) &&
      "scihub_link" in r && r["scihub_link"] == PyStr(SciHubPrefix + Str(d["doi"]))
    ensures Get(r, "include") == Get(d, "include") && Get(r, "exclude_reasons") == Get(d, "exclude_reasons")
    ensures Get(r, "url") == Get(d, "url") && Get(r, "published_at") == Get(d, "published_at")
    ensures forall k :: k in d ==> k in r
    ensures forall k :: k in d && k != "publication_venue" && k != "doi_link" && k != "scihub_link" ==> r[k] == d[k]
  {
    r := d;
    if !Truthy(Get(r, "publication_venue")) {
      r := r["publication_venue" := PyStr(NotSpecified)];
    }
    if Truthy(Get(r, "doi")) {
      r := r["doi_link" := PyStr(DoiLinkPrefix + Str(r["doi"]))];
      r := r["scihub_link" := PyStr(SciHubPrefix + Str(r["doi"]))];
    }
  }

  /** The fields the view's own steps write. */
  const DisplayKeys: set<string> := {"url", "published_at", "include", "exclude_reasons",
    "publication_venue", "doi_link", "scihub_link", "selection_status"}

  /** `v` is what the view shows for the coerced evidence `c` (which has a title whenever
      it has no URL): the link and day, the reasons and flags, the venue and DOI links
      below, and every other field as it was. */
  predicate DisplayedFrom(c: Record, encode: string -> string, v: Record)
    requires CoercedShape(c)
    requires Get(c, "url").PyNone? ==> "title" in c
  {
    ShowsLinkAndDay(c, encode, v) && ShowsReasons(c, v) && ShowsVenueAndDoi(c, v) &&
    (forall k :: k in c ==> k in v) &&
    (forall k :: k in c && k !in DisplayKeys ==> v[k] == c[k])
  }

  /** A search link on the title for a missing URL, the stored URL otherwise; the day of
      a date, and no change to published_at without one. */
  predicate ShowsLinkAndDay(c: Record, encode: string -> string, v: Record)
    requires CoercedShape(c)
    requires Get(c, "url").PyNone? ==> "title" in c
  {
    "url" in v && v["url"] == (if Get(c, "url").PyNone? then PyStr(SearchUrl + "q=" + encode(Str(c["title"]))) else c["url"]) &&
    (c["publication_date"].PyDate? ==>
      "published_at" in v && v["published_at"] == PyStr(DateText(c["publication_date"].date))) &&
    (c["publication_date"].PyNone? ==> Get(v, "published_at") == Get(c, "published_at"))
  }

  /** The stored reasons split, include True exactly when there are none, and the
      selection status agreeing with include. */
  predicate ShowsReasons(c: Record, v: Record)
    requires CoercedShape(c)
  {
    var reasons := c["exclude_reasons"].items;
    "include" in v && v["include"] == PyBool(reasons == []) &&
    "selection_status" in v && v["selection_status"] == PyStr(if reasons == [] then "include" else "exclude") &&
    "exclude_reasons" in v && v["exclude_reasons"] == PyList(SplitReasons(reasons))
  }

  /** A placeholder for a missing venue, and both DOI links when there is a DOI. */
  predicate ShowsVenueAndDoi(c: Record, v: Record)
  {
    "publication_venue" in v &&
    v["publication_venue"] == (if Truthy(Get(c, "publication_venue")) then c["publication_venue"] else PyStr(NotSpecified)) &&
    (Truthy(Get(c, "doi")) ==>
      "doi_link" in v && v["doi_link"] == PyStr(DoiLinkPrefix + Str(c["doi"])) &&
      "scihub_link" in v && v["scihub_link"] == PyStr(SciHubPrefix + Str(c["doi"])))
  }

  /** The link and day survive steps that keep url and published_at. */
  lemma LinkAndDayKept(c: Record, encode: string -> string, a: Record, b: Record)
    requires CoercedShape(c)
    requires Get(c, "url").PyNone? ==> "title" in c
    requires ShowsLinkAndDay(c, encode, a)
    requires Get(b, "url") == Get(a, "url") && Get(b, "published_at") == Get(a, "published_at")
    requires forall k :: k in a ==> k in b
    ensures ShowsLinkAndDay(c, encode, b)
  {
  }

  /** The view's own steps on the coerced evidence, in the order it takes them. The
      include flag shown is True exactly when the evidence has no exclude reasons, the
      selection status agrees with it, and the reasons shown are the stored ones split. */
  method FillDisplayFields(c: Record, encode: string -> string) returns (r: Result<Record>)
    requires CoercedShape(c)
    ensures r.Err? <==> Get(c, "url").PyNone? && "title" !in c
    ensures r.Err? ==> r.error == KeyError
    ensures r.Ok? ==> var reasons := c["exclude_reasons"].items;
      "include" in r.value && r.value["include"] == PyBool(reasons == []) &&
      "selection_status" in r.value && r.value["selection_status"] == PyStr(if reasons == [] then "include" else "exclude") &&
      "exclude_reasons" in r.value && r.value["exclude_reasons"] == PyList(SplitReasons(reasons))
    ensures r.Ok? ==> DisplayedFrom(c, encode, r.value)
  {
    var linked :- AddSearchLinkAndDate(c, encode);
    var selected := SplitReasonsAndSetInclude(linked);
    var shown := AddVenueAndDoiLinks(selected);
    var word := StatusWord(shown["include"].b);
    var v := shown["selection_status" := PyStr(word)];
    assert ShowsLinkAndDay(c, encode, linked);
    LinkAndDayKept(c, encode, linked, selected);
    LinkAndDayKept(c, encode, selected, shown);
    LinkAndDayKept(c, encode, shown, v);
    assert Get(selected, "doi") == Get(c, "doi") && Get(selected, "publication_venue") == Get(c, "publication_venue");
    assert ShowsVenueAndDoi(c, v);
    assert ShowsReasons(c, v);
    forall k | k in c && k !in DisplayKeys
      ensures v[k] == c[k]
    {
      assert shown[k] == selected[k] == linked[k];
    }
    r := Ok(v);
  }

  /** The view's `_coerce_values` on the dumped evidence it is built from: the evidence
      coercion first, whose error is the view's error, then the display fields. The view
      shows the stored reasons split and include True exactly when there are none. */
  method CoerceView(data: Record, external: string -> Option<DateTime>, encode: string -> string)
    returns (r: Result<Record>)
    ensures Coerced(data, external).Err? ==> r == Err(Coerced(data, external).error)
    ensures Coerced(data, external).Ok? ==> var c := Coerced(data, external).value;
      (r.Err? <==> Get(c, "url").PyNone? && "title" !in c) && (r.Err? ==> r.error == KeyError)
    ensures r.Ok? ==> "include" in r.value && "selection_status" in r.value && "exclude_reasons" in r.value
    ensures r.Ok? ==> var reasons := ParseList(data, "exclude_reasons");
      r.value["include"] == PyBool(reasons == []) &&
      r.value["selection_status"] == PyStr(if reasons == [] then "include" else "exclude") &&
      r.value["exclude_reasons"] == PyList(SplitReasons(reasons))
    ensures r.Ok? ==> (Coerced(data, external).Ok? && CoercedShape(Coerced(data, external).value) &&
      DisplayedFrom(Coerced(data, external).value, encode, r.value))
  {
    var coerced := CoerceValues(Raw(data), external);
    if coerced.Err? {
      return Err(coerced.error);
    }
    CoercedHasShape(data, external);
    r := FillDisplayFields(coerced.value.data, encode);
  }

  /** The view shows the day of the stored publication date: its text is the evidence's
      serialised date without the time part. */
  lemma PublishedAtIsStoredDay(d: DateTime)
    ensures SerializeDate(Some(d)).Ok?
    ensures var stored := SerializeDate(Some(d)).value;
      |DateText(d)| < |stored| && stored[..|DateText(d)|] == DateText(d)
  {
    var stored := SerializeDate(Some(d)).value;
    assert stored == DateText(d) + "T" + TimeText(d);
  }

  /** The view's field serialisers: the list fields and include are handed on as they
      are; every other field is dumped as the evidence dumps it. */
  function ViewDumpValue(field: string, v: Value): (r: Value)
    ensures field in ListFields || field == "include" ==> r == v
  {
    if field in ListFields || field == "include" then v else DumpValue(field, v)
  }

  /** Where the evidence's dump turns a reason list into one joined string and the flag
      into a word, the view's dump keeps the list and the boolean; the date it still
      writes as the evidence does. */
  lemma ViewDumpKeepsListsAndFlag(items: seq<string>, included: bool, day: DateTime)
    ensures ViewDumpValue("exclude_reasons", PyList(items)) == PyList(items)
    ensures DumpValue("exclude_reasons", PyList(items)) == PyStr(SerializeList(items))
    ensures ViewDumpValue("include", PyBool(included)) == PyBool(included)
    ensures DumpValue("include", PyBool(included)) == PyStr(SerializeInclude(included))
    ensures ViewDumpValue("publication_date", PyDate(day)) == DumpValue("publication_date", PyDate(day))
  {
    FieldNamesDistinct();
  }
}
