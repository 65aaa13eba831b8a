/** The citation bookkeeping of the snowballing command: the maps from a paper
    identifier to the DOIs of the input papers that cite or reference it, the backward
    and forward snowball sets, and the clean-up of the paper details written to the
    output sheets. The Semantic Scholar requests and the spreadsheet I/O are not
    modelled: the papers they return are inputs. */
module Snowballing {
  import opened Wrappers
  import opened Strings
  import opened Seqs
  import opened PyValues

  /** The tag Semantic Scholar puts in front of a DOI identifier. */
  const DoiTag: string := "DOI:"

  /** The resolver a tagged DOI is rewritten to in a paper's URL. */
  const DoiResolver: string := "https://dx.doi.org/"

  /** A paper as the Semantic Scholar adapter returns it, with the fields the command
      reads: its DOI identifier, URL, authors, and the identifiers of the papers that
      cite it (`citations`) and that it cites (`references`). */
  datatype Paper = Paper(
    doi: string, url: string, authors: seq<string>,
    citations: seq<string>, references: seq<string>)

  /** `__sanitize_detail`: the URL becomes the DOI with its tag rewritten to the
      resolver; nothing else changes. */
  function SanitizeDetail(p: Paper): (r: Paper)
    ensures r.doi == p.doi && r.authors == p.authors
    ensures r.citations == p.citations && r.references == p.references
  {
    p.(url := Replace(p.doi, DoiTag, DoiResolver))
  }

  /** A tagged DOI gets a resolver link; an untagged one is its own URL. */
  lemma SanitizedUrl(p: Paper, doi: string)
    requires !Contains(doi, DoiTag)
    ensures SanitizeDetail(p.(doi := DoiTag + doi)).url == DoiResolver + doi
    ensures SanitizeDetail(p.(doi := doi)).url == doi
  {
    ReplaceLeading(DoiTag, doi, DoiResolver);
    ReplaceAbsent(doi, DoiTag, DoiResolver);
  }

  // ---------------------------------------------------------------------------------
  // Citation and reference maps
  // ---------------------------------------------------------------------------------

  /** A map from a paper identifier to the DOIs of the input papers that list it. */
  type RefMap = map<string, set<string>>

  /** `m.get(k, set())`. */
  function Get(m: RefMap, k: string): set<string>
  {
    if k in m then m[k] else {}
  }

  /** The map after one paper: each identifier in `ids` gains `doi`. */
  function WithRef(m: RefMap, ids: seq<string>, doi: string): (r: RefMap)
    ensures forall k :: k in r <==> k in m || k in ids
    ensures forall k :: k in r && k !in ids ==> r[k] == m[k]
    ensures forall k :: k in ids ==> r[k] == Get(m, k) + {doi}
  {
    var keys := m.Keys + (set x | x in ids);
    map k | k in keys :: if k in ids then Get(m, k) + {doi} else m[k]
  }

  lemma WithRefSnoc(m: RefMap, ids: seq<string>, x: string, doi: string)
    ensures WithRef(m, ids + [x], doi) == WithRef(m, ids, doi)[x := Get(WithRef(m, ids, doi), x) + {doi}]
  {
    var a := WithRef(m, ids + [x], doi);
    var b := WithRef(m, ids, doi)[x := Get(WithRef(m, ids, doi), x) + {doi}];
    forall k
      ensures k in a <==> k in b
      ensures k in a ==> a[k] == b[k]
    {
      assert k in ids + [x] <==> k in ids || k == x;
    }
  }

  /** `__add_ref`: starts from an empty map when given none and adds the paper's DOI
      to the set of every identifier the selector yields. */
  method AddRef(result: Option<RefMap>, paper: Paper, selector: Paper -> seq<string>)
    returns (r: RefMap)
    ensures r == WithRef(result.GetOr(map[]), selector(paper), paper.doi)
  {
    r := if result.None? then map[] else result.value;
    ghost var start := r;
    var ids := selector(paper);
    var i := 0;
    while i < |ids|
      invariant 0 <= i <= |ids|
      invariant r == WithRef(start, ids[..i], paper.doi)
    {
      var identifier := ids[i];
      if identifier !in r {
        r := r[identifier := {}];
      }
      r := r[identifier := r[identifier] + {paper.doi}];
      assert ids[..i + 1] == ids[..i] + [identifier];
      WithRefSnoc(start, ids[..i], identifier, paper.doi);
      i := i + 1;
    }
    assert ids[..i] == ids;
  }

  /** Adding the same paper twice leaves the map as adding it once. */
  lemma WithRefIdempotent(m: RefMap, ids: seq<string>, doi: string)
    ensures WithRef(WithRef(m, ids, doi), ids, doi) == WithRef(m, ids, doi)
  {
    var once := WithRef(m, ids, doi);
    var twice := WithRef(once, ids, doi);
    forall k | k in twice
      ensures twice[k] == once[k]
    {
    }
  }

  /** `reduce(partial(__add_ref, selector=...), papers, dict())`. */
  function CollectRefs(papers: seq<Paper>, selector: Paper -> seq<string>): RefMap
  {
    if papers == [] then map[]
    else
      var last := papers[|papers| - 1];
      WithRef(CollectRefs(papers[..|papers| - 1], selector), selector(last), last.doi)
  }

  /** Paper `i` lists identifier `k`. */
  predicate Lists(papers: seq<Paper>, selector: Paper -> seq<string>, i: int, k: string)
  {
    0 <= i < |papers| && k in selector(papers[i])
  }

  /** The collected map holds exactly the identifiers some paper lists, and each maps to
      the DOIs of exactly the papers that list it. */
  lemma {:induction false} CollectRefsMembers(papers: seq<Paper>, selector: Paper -> seq<string>,
                                              k: string, doi: string)
    ensures k in CollectRefs(papers, selector) <==> exists i :: Lists(papers, selector, i, k)
    ensures k in CollectRefs(papers, selector) ==>
      (doi in CollectRefs(papers, selector)[k] <==>
        exists i :: Lists(papers, selector, i, k) && papers[i].doi == doi)
  {
    if papers != [] {
      var n := |papers| - 1;
      var init := papers[..n];
      CollectRefsMembers(init, selector, k, doi);
      forall i | 0 <= i < n
        ensures Lists(papers, selector, i, k) <==> Lists(init, selector, i, k)
        ensures papers[i] == init[i]
      {
      }
      if exists i :: Lists(init, selector, i, k) {
        var i :| Lists(init, selector, i, k);
        assert Lists(init, selector, i, k);
        assert Lists(papers, selector, i, k);
      }
      if exists i :: Lists(papers, selector, i, k) && papers[i].doi == doi {
        var i :| Lists(papers, selector, i, k) && papers[i].doi == doi;
        assert Lists(papers, selector, i, k);
        if i < n {
          assert Lists(init, selector, i, k) && init[i].doi == doi;
        }
      }
      if exists i :: Lists(init, selector, i, k) && init[i].doi == doi {
        var i :| Lists(init, selector, i, k) && init[i].doi == doi;
        assert Lists(init, selector, i, k);
        assert Lists(papers, selector, i, k) && papers[i].doi == doi;
      }
      if k !in CollectRefs(init, selector) && k !in selector(papers[n]) {
        forall i | 0 <= i < |papers|
          ensures !Lists(papers, selector, i, k)
        {
          if i < n {
            assert !Lists(init, selector, i, k);
          }
        }
      }
    }
  }

  // ---------------------------------------------------------------------------------
  // Snowball sets
  // ---------------------------------------------------------------------------------

  datatype Snowball = Snowball(backward: set<string>, forward: set<string>)

  /** The backward snowball holds the papers the inputs reference but that cite none of
      them; the forward snowball holds the papers citing the inputs that they do not
      reference; both leave out the inputs and the excluded papers. */
  function SnowballSets(refs: RefMap, citations: RefMap, inputs: set<string>, excluded: set<string>)
    : (r: Snowball)
    ensures r.backward !! r.forward
    ensures r.backward !! inputs && r.backward !! excluded
    ensures r.forward !! inputs && r.forward !! excluded
    ensures r.backward <= refs.Keys && r.forward <= citations.Keys
  {
    Snowball(refs.Keys - citations.Keys - inputs - excluded,
             citations.Keys - refs.Keys - inputs - excluded)
  }

  /** Every referenced or citing paper that is neither an input nor excluded lands in
      exactly one snowball, unless it both cites and is cited by the inputs. */
  lemma SnowballPartition(refs: RefMap, citations: RefMap, inputs: set<string>,
                          excluded: set<string>, x: string)
    requires x in refs || x in citations
    requires x !in inputs && x !in excluded
    ensures var s := SnowballSets(refs, citations, inputs, excluded);
      (x in s.backward <==> x !in citations) && (x in s.forward <==> x !in refs)
  {
  }

  // ---------------------------------------------------------------------------------
  // Paper details
  // ---------------------------------------------------------------------------------

  /** A paper's details as a dictionary (`dataclasses.asdict`). */
  type Detail = map<string, Value>

  function AsDict(p: Paper): Detail
  {
    map["doi" := PyStr(p.doi), "url" := PyStr(p.url), "authors" := PyList(p.authors),
        "citations" := PyList(p.citations), "references" := PyList(p.references)]
  }

  /** `s.replace("DOI:", "")`. */
  function RemoveDoiTag(s: string): string
  {
    Replace(s, DoiTag, "")
  }

  /** A tagged DOI loses its tag; an untagged one is unchanged. */
  lemma RemoveDoiTagOfTagged(doi: string)
    requires !Contains(doi, DoiTag)
    ensures RemoveDoiTag(DoiTag + doi) == doi
    ensures RemoveDoiTag(doi) == doi
  {
    ReplaceLeading(DoiTag, doi, "");
    ReplaceAbsent(doi, DoiTag, "");
  }

  /** What `__remove_doi_prefix` is given: a dictionary or any other value. */
  datatype Item = Dict(fields: Detail) | Scalar(value: Value)

  /** `__remove_doi_prefix`: a dictionary's "doi" and a string lose every "DOI:"; a
      dictionary whose "doi" is not a string raises `AttributeError`. */
  function RemoveDoiPrefix(item: Item): (r: Result<Item>)
    ensures r.Err? <==> item.Dict? && "doi" in item.fields && !item.fields["doi"].PyStr?
    ensures r.Err? ==> r.error == AttributeError
    ensures r.Ok? && item.Dict? ==> (r.value.Dict? &&
      r.value.fields.Keys == item.fields.Keys &&
      forall k :: k in item.fields && k != "doi" ==> r.value.fields[k] == item.fields[k])
    ensures r.Ok? && item.Scalar? && !item.value.PyStr? ==> r.value == item
    ensures r.Ok? && item.Dict? && "doi" in item.fields ==>
      r.value.fields["doi"] == PyStr(RemoveDoiTag(item.fields["doi"].s))
    ensures item.Dict? && "doi" !in item.fields ==> r == Ok(item)
    ensures item.Scalar? && item.value.PyStr? ==> r == Ok(Scalar(PyStr(RemoveDoiTag(item.value.s))))
  {
    match item
    case Dict(fields) =>
      if "doi" !in fields then Ok(item)
      else if fields["doi"].PyStr? then Ok(Dict(fields["doi" := PyStr(RemoveDoiTag(fields["doi"].s))]))
      else Err(AttributeError)
    case Scalar(v) =>
      if v.PyStr? then Ok(Scalar(PyStr(RemoveDoiTag(v.s)))) else Ok(item)
  }

  /** `";".join(x)` for the authors field: a list joins its items and a string joins
      its characters; anything else raises `TypeError`. */
  function JoinAuthors(v: Value): (r: Result<string>)
    ensures r.Ok? <==> v.PyList? || v.PyStr?
    ensures r.Err? ==> r.error == TypeError
    ensures v.PyList? ==> r == Ok(Join(";", v.items))
  {
    match v
    case PyList(items) => Ok(Join(";", items))
    case PyStr(s) => Ok(Join(";", seq(|s|, i requires 0 <= i < |s| => [s[i]])))
    case _ => Err(TypeError)
  }

  /** Authors without a ";" in their names split back out of the joined field. */
  lemma JoinedAuthorsSplitBack(authors: seq<string>)
    requires |authors| >= 1 && forall k :: 0 <= k < |authors| ==> ';' !in authors[k]
    ensures JoinAuthors(PyList(authors)).Ok?
    ensures Split(JoinAuthors(PyList(authors)).value, ';') == authors
  {
    assert ";" == [';'];
    SplitJoin(authors, ';');
  }

  /** The order in which a set of referencing DOIs is iterated: for each identifier of
      the map, its DOIs without repetition. */
  predicate Enumerates(order: map<string, seq<string>>, refMap: RefMap)
  {
    order.Keys == refMap.Keys &&
    forall k :: k in order ==> (Distinct(order[k]) &&
      (forall x :: x in order[k] ==> x in refMap[k]) &&
      (forall x :: x in refMap[k] ==> x in order[k]))
  }

  /** The DOIs of the papers referencing a detail, tags removed, in iteration order. */
  function ReferencingIds(order: map<string, seq<string>>, doi: Value): (r: seq<string>)
    ensures doi.PyStr? && doi.s in order ==> (|r| == |order[doi.s]| &&
      forall i :: 0 <= i < |r| ==> r[i] == RemoveDoiTag(order[doi.s][i]))
    ensures !(doi.PyStr? && doi.s in order) ==> r == []
  {
    var papers := if doi.PyStr? && doi.s in order then order[doi.s] else [];
    seq(|papers|, i requires 0 <= i < |papers| => RemoveDoiTag(papers[i]))
  }

  /** Under an enumeration of the map, the referencing identifiers of a detail are the
      tag-free DOIs of exactly the papers listing it. */
  lemma ReferencingIdsOfMap(order: map<string, seq<string>>, refMap: RefMap, doi: string, y: string)
    requires Enumerates(order, refMap)
    requires doi in refMap
    ensures y in ReferencingIds(order, PyStr(doi)) <==> exists x :: x in refMap[doi] && y == RemoveDoiTag(x)
  {
    var ids := ReferencingIds(order, PyStr(doi));
    if y in ids {
      var i :| 0 <= i < |ids| && ids[i] == y;
      assert order[doi][i] in order[doi];
    }
    if exists x :: x in refMap[doi] && y == RemoveDoiTag(x) {
      var x :| x in refMap[doi] && y == RemoveDoiTag(x);
      var i :| 0 <= i < |order[doi]| && order[doi][i] == x;
      assert ids[i] == y;
    }
  }

  /** One iteration of `__transform_details`. */
  function TransformDetail(order: map<string, seq<string>>, detail: Detail): (r: Result<Detail>)
    ensures r.Ok? ==> "citations" !in r.value && "references" !in r.value
    ensures r.Ok? ==> ("doi" in detail && "referencing_paper_ids" in r.value && "authors" in r.value &&
      r.value["referencing_paper_ids"] == PyStr(Join(";", ReferencingIds(order, detail["doi"]))))
    ensures r.Ok? ==> ("doi" in detail && detail["doi"].PyStr? && "doi" in r.value &&
      r.value["doi"] == PyStr(RemoveDoiTag(detail["doi"].s)))
    ensures r.Ok? ==> forall k :: k in detail && k !in {"doi", "authors", "referencing_paper_ids",
      "citations", "references"} ==> k in r.value && r.value[k] == detail[k]
    ensures r.Err? <==> ("doi" !in detail || !detail["doi"].PyStr? ||
      ("authors" in detail && !(detail["authors"].PyList? || detail["authors"].PyStr?)) ||
      "citations" !in detail || "references" !in detail)
    ensures r.Ok? ==> (r.value["authors"] ==
      PyStr(if "authors" in detail then JoinAuthors(detail["authors"]).value else ""))
  {
    if "doi" !in detail then Err(KeyError)
    else if !Hashable(detail["doi"]) then Err(TypeError)
    else
      var ids := ReferencingIds(order, detail["doi"]);
      var withIds := detail["referencing_paper_ids" := PyStr(Join(";", ids))];
      var authors := if "authors" in detail then JoinAuthors(detail["authors"]) else Ok("");
      if authors.Err? then Err(authors.error)
      else
        var withAuthors := withIds["authors" := PyStr(authors.value)];
        if "citations" !in withAuthors then Err(KeyError)
        else
          var noCitations := withAuthors - {"citations"};
          if "references" !in noCitations then Err(KeyError)
          else
            var cleaned := RemoveDoiPrefix(Dict(noCitations - {"references"}));
            if cleaned.Err? then Err(cleaned.error) else Ok(cleaned.value.fields)
  }

  /** `f` applied to each detail in turn, stopping at the first that raises. */
  function TryAll(details: seq<Detail>, f: Detail -> Result<Detail>): Result<seq<Detail>>
  {
    if details == [] then Ok([])
    else
      var init := TryAll(details[..|details| - 1], f);
      if init.Err? then init
      else
        var last := f(details[|details| - 1]);
        if last.Err? then Err(last.error) else Ok(init.value + [last.value])
  }

  /** `__transform_details` over a list of details. */
  function TransformAll(order: map<string, seq<string>>, details: seq<Detail>): Result<seq<Detail>>
  {
    TryAll(details, d => TransformDetail(order, d))
  }

  /** `__transform_details`. */
  method TransformDetails(order: map<string, seq<string>>, details: seq<Detail>)
    returns (r: Result<seq<Detail>>)
    ensures r == TransformAll(order, details)
  {
    var result: seq<Detail> := [];
    var i := 0;
    while i < |details|
      invariant 0 <= i <= |details|
      invariant TransformAll(order, details[..i]) == Ok(result)
    {
      assert details[..i + 1][..i] == details[..i];
      var t := TransformDetail(order, details[i]);
      if t.Err? {
        r := Err(t.error);
        TransformAllStops(order, details, i + 1);
        return;
      }
      result := result + [t.value];
      i := i + 1;
    }
    assert details[..i] == details;
    r := Ok(result);
  }

  /** Once a prefix fails, the whole list fails with the same error. */
  lemma {:induction false} TransformAllStops(order: map<string, seq<string>>, details: seq<Detail>, i: nat)
    requires i <= |details|
    requires TransformAll(order, details[..i]).Err?
    ensures TransformAll(order, details) == TransformAll(order, details[..i])
    decreases |details| - i
  {
    if i < |details| {
      assert details[..i + 1][..i] == details[..i];
      TransformAllStops(order, details, i + 1);
    } else {
      assert details[..i] == details;
    }
  }

  /** The list succeeds exactly when every detail does, and then holds each detail
      transformed, in order. */
  lemma {:induction false} TryAllEach(details: seq<Detail>, f: Detail -> Result<Detail>)
    ensures TryAll(details, f).Ok? <==> forall i :: 0 <= i < |details| ==> f(details[i]).Ok?
    ensures TryAll(details, f).Ok? ==>
      |TryAll(details, f).value| == |details| &&
      forall i :: 0 <= i < |details| ==> TryAll(details, f).value[i] == f(details[i]).value
  {
    if details != [] {
      var n := |details| - 1;
      var init := details[..n];
      TryAllEach(init, f);
      assert forall i :: 0 <= i < n ==> details[i] == init[i];
      if TryAll(init, f).Err? {
        var j :| 0 <= j < n && !f(init[j]).Ok?;
        assert !f(details[j]).Ok?;
      }
    }
  }

  /** The details transform exactly when each does, each into its own transform. */
  lemma TransformAllEach(order: map<string, seq<string>>, details: seq<Detail>)
    ensures TransformAll(order, details).Ok? <==>
      forall i :: 0 <= i < |details| ==> TransformDetail(order, details[i]).Ok?
    ensures TransformAll(order, details).Ok? ==>
      |TransformAll(order, details).value| == |details| &&
      forall i :: 0 <= i < |details| ==>
        TransformAll(order, details).value[i] == TransformDetail(order, details[i]).value
  {
    TryAllEach(details, d => TransformDetail(order, d));
  }

  /** The details of a paper from the adapter always transform, and the referencing
      identifiers written out split back into the tag-free DOIs of the referencing
      papers. */
  lemma TransformedPaper(order: map<string, seq<string>>, p: Paper)
    requires p.doi in order && order[p.doi] != []
    requires forall x :: x in order[p.doi] ==> ';' !in x
    ensures TransformDetail(order, AsDict(p)).Ok?
    ensures var d := TransformDetail(order, AsDict(p)).value;
      d["referencing_paper_ids"].PyStr? &&
      Split(d["referencing_paper_ids"].s, ';') == ReferencingIds(order, PyStr(p.doi))
  {
    var ids := ReferencingIds(order, PyStr(p.doi));
    forall k | 0 <= k < |ids|
      ensures ';' !in ids[k]
    {
      assert order[p.doi][k] in order[p.doi];
      ReplaceKeepsOut(order[p.doi][k], DoiTag, "", ';');
    }
    SplitJoin(ids, ';');
  }
}
