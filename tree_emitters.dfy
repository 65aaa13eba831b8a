/** How the tree-based adapters write a factored query: the plain `ExprTreeAdapter`
    and its Web of Science, ACM, ScienceDirect and Springer subclasses. Each subclass
    overrides some of `_emit_expr` / `_format_attr` / `_emit_factored`; since Python
    dispatches every nested call on the adapter, one emitter per flavour covers the
    whole recursion. */
module TreeEmitters {
  import opened Wrappers
  import opened Strings
  import opened SearchExpr
  import Seqs

  /** The key under which year ranges are factored. */
  const YearRangeKey: string := "publication year range"

  /** Which adapter class writes the query. Springer's `is_premium` flag is kept with
      it, as is the current month its year-range emission reads from the clock. */
  datatype Flavor = PlainTree | WebOfScience | Acm | ScienceDirect | Springer(premium: bool, month: int)

  /** An f-string's rendering of an optional string: a missing value prints as "None". */
  function PyStr(o: Option<string>): (r: string)
    ensures o.Some? ==> r == o.value
    ensures o.None? ==> r == "None"
  {
    if o.Some? then o.value else "None"
  }

  function MapGet(m: map<string, string>, k: string): (r: Option<string>)
    ensures r.Some? <==> k in m
    ensures r.Some? ==> r.value == m[k]
  {
    if k in m then Some(m[k]) else None
  }

  const WosCodes: map<string, string> := map[TitleAttr := "TI", AbstractAttr := "AB", KeysAttr := "AK",
    DocTypeAttr := "DT", SubjectAttr := "WC", LanguageAttr := "LA", YearRangeKey := "PY"]
  const WosEvidenceTypes: map<string, string> := map["journal" := "Article"]
  const WosSubjectAreas: map<string, string> := map["compsci" := "Computer Science"]
  const WosLanguages: map<string, string> := map["english" := "English"]

  const AcmNames: map<string, string> := map[TitleAttr := "Title", AbstractAttr := "Abstract",
    KeysAttr := "Keyword", YearRangeKey := "E-Publication Date"]
  const AcmUnsupported: set<string> := {DocTypeAttr, LanguageAttr, SubjectAttr}

  const SdNames: map<string, string> := map[TitleAttr := "TITLE", AbstractAttr := "ABSTRACT",
    KeysAttr := "KEYWORDS", DocTypeAttr := "CONTENT-TYPE"]
  const SdDocTypes: map<string, string> := map["journal" := "JL"]

  const SpringerNames: map<string, string> := map[TitleAttr := "title", AbstractAttr := "Abstract",
    KeysAttr := "keyword", LanguageAttr := "language", SubjectAttr := "subject", DocTypeAttr := "type"]
  const SpringerDocTypes: map<string, string> := map["journal" := "Journal"]

  /** A value with a "?" or "*" wildcard. */
  predicate HasWildcard(v: string)
  {
    '?' in v || '*' in v
  }

  /** `_format_attr`: the stripped value in double quotes; Web of Science maps subject
      areas and languages through its tables and leaves wildcard or single-word values
      bare. */
  function FormatAttr(f: Flavor, e: Expr): (r: Option<string>)
    requires e.AttrExpr?
    ensures !f.WebOfScience? ==> r == Some("\"" + Strip(e.value) + "\"")
    ensures f.WebOfScience? && e.kind !in {SubjectArea, Language} ==>
      r.Some? && (r.value == e.value <==> HasWildcard(e.value) || ' ' !in e.value || e.value == "\"" + Strip(e.value) + "\"")
    ensures f.WebOfScience? && e.kind !in {SubjectArea, Language} && (HasWildcard(e.value) || ' ' !in e.value) ==>
      r == Some(e.value)
    ensures f.WebOfScience? && e.kind !in {SubjectArea, Language} && !HasWildcard(e.value) && ' ' in e.value ==>
      r == Some("\"" + Strip(e.value) + "\"")
    ensures f.WebOfScience? && e.kind == SubjectArea ==>
      (e.value in WosSubjectAreas ==> r == Some(WosSubjectAreas[e.value])) && (e.value !in WosSubjectAreas ==> r == None)
    ensures f.WebOfScience? && e.kind == Language ==>
      (e.value in WosLanguages ==> r == Some(WosLanguages[e.value])) && (e.value !in WosLanguages ==> r == None)
  {
    if f.WebOfScience? && e.kind == SubjectArea then MapGet(WosSubjectAreas, e.value)
    else if f.WebOfScience? && e.kind == Language then MapGet(WosLanguages, e.value)
    else if f.WebOfScience? && (HasWildcard(e.value) || ' ' !in e.value) then Some(e.value)
    else Some("\"" + Strip(e.value) + "\"")
  }

  /** Springer's rewriting of a term value: "?" becomes "+", and two truncated words are
      spelled out. */
  function SpringerValue(v: string): (r: string)
    ensures Replace(v, "?", "+") == "tool*" ==> r == "tooling"
    ensures Replace(v, "?", "+") == "architect*" ==> r == "architecture"
    ensures Replace(v, "?", "+") !in {"tool*", "architect*"} ==> r == Replace(v, "?", "+")
  {
    var replaced := Replace(v, "?", "+");
    if replaced == "tool*" then "tooling"
    else if replaced == "architect*" then "architecture"
    else replaced
  }

  /** Whether Springer prefixes a term with its field name: author keywords always,
      titles too on the premium plan. */
  predicate SpringerFieldPrefixed(premium: bool, name: string)
  {
    if premium then name in {KeysAttr, TitleAttr} else name == KeysAttr
  }

  /** `_emit_expr`, with each flavour's overrides in front of the base behaviour. */
  function EmitExpr(f: Flavor, e: Expr): Option<string>
    decreases e, 2
  {
    match f
    case PlainTree => BaseEmit(f, e)
    case WebOfScience =>
      if e.AttrExpr? && e.kind == EvidenceType then MapGet(WosEvidenceTypes, e.value)
      else if e.AttrExpr? && e.kind in {SubjectArea, Language} then Some("(" + PyStr(BaseEmit(f, e)) + ")")
      else if e.YearRangeExpr? then Some("(" + IntToString(e.start) + "-" + IntToString(e.end) + ")")
      else BaseEmit(f, e)
    case Acm =>
      if e.YearRangeExpr? then Some("(01/01/" + ZeroPad(e.start, 4) + " TO 31/12/" + ZeroPad(e.end, 4) + ")")
      else BaseEmit(f, e)
    case ScienceDirect =>
      if e.YearRangeExpr? then
        Some("(PUB-DATE AFT " + ZeroPad(e.start, 4) + "0101 AND PUB-DATE BEF " + IntToString(e.end) + "0701)")
      else if e.AttrExpr? && e.kind == EvidenceType then Some("(" + PyStr(MapGet(SdDocTypes, e.value)) + ")")
      else BaseEmit(f, e)
    case Springer(premium, month) =>
      if e.AttrExpr? && e.kind == EvidenceType then
        (if e.value in SpringerDocTypes then Some("\"" + SpringerDocTypes[e.value] + "\"") else None)
      else if e.YearRangeExpr? then
        Some("datefrom:" + ZeroPad(e.start, 4) + "-01-01 AND dateto:" + ZeroPad(e.end, 4) + "-" + ZeroPad(month, 2) + "-01")
      else if e.AttrExpr? && e.kind == Language then (if premium then Some("\"English\"") else None)
      else if e.AttrExpr? && e.kind == SubjectArea then (if premium then Some("\"Computer Science\"") else None)
      else if e.AttrExpr? then
        var v := SpringerValue(e.value);
        if SpringerFieldPrefixed(premium, e.name) then Some(SpringerNames[e.name] + ":\"" + v + "\"")
        else Some("\"" + v + "\"")
      else BaseEmit(f, e)
  }

  /** The base class's `_emit_expr`: attributes through `_format_attr`, groups through
      `_format_group`, anything else through `str`. */
  function BaseEmit(f: Flavor, e: Expr): Option<string>
    decreases e, 1
  {
    match e
    case AttrExpr(_, _, _) => FormatAttr(f, e)
    case NaryExpr(op, children, _) => FormatGroup(op, EmittedChildren(f, children))
    case _ => Some(ToStr(e))
  }

  /** `_format_group` on the children's emissions: no text for none, the only one
      as it is, several joined with the upper-cased operator inside parentheses. */
  function FormatGroup(op: Op, parts: seq<string>): (r: Option<string>)
    ensures r.None? <==> parts == []
    ensures |parts| == 1 ==> r == Some(parts[0])
    ensures |parts| >= 2 ==> r.Some? && StartsWith(r.value, "(" + parts[0] + " " + OpUpper(op) + " ")
    ensures |parts| >= 2 ==> r == Some("(" + Join(" " + OpUpper(op) + " ", parts) + ")")
  {
    if |parts| == 0 then None
    else if |parts| == 1 then Some(parts[0])
    else
      var j := Join(" " + OpUpper(op) + " ", parts);
      assert j == parts[0] + " " + OpUpper(op) + " " + Join(" " + OpUpper(op) + " ", parts[1..]);
      assert ("(" + j + ")")[..|"(" + parts[0] + " " + OpUpper(op) + " "|] == "(" + parts[0] + " " + OpUpper(op) + " ";
      Some("(" + j + ")")
  }

  /** The children's emissions in order, those that gave None left out. */
  function EmittedChildren(f: Flavor, es: seq<Expr>): (r: seq<string>)
    ensures |r| <= |es|
    decreases es, 0
  {
    if es == [] then []
    else
      var last := EmitExpr(f, es[|es| - 1]);
      EmittedChildren(f, es[..|es| - 1]) + (if last.Some? then [last.value] else [])
  }

  /** Every leaf in `xs` emits nothing. */
  predicate AllSilent(f: Flavor, xs: seq<Expr>)
  {
    forall k :: 0 <= k < |xs| ==> EmitExpr(f, xs[k]).None?
  }

  /** A subtree emits nothing exactly when none of its leaves emits anything. */
  lemma {:induction false} SilentIffLeavesSilent(f: Flavor, e: Expr)
    ensures EmitExpr(f, e).None? <==> AllSilent(f, Leaves(e))
    decreases e, 1
  {
    if e.NaryExpr? {
      ChildrenSilentIffLeavesSilent(f, e.children);
    } else {
      assert Leaves(e) == [e] && [e][0] == e;
      assert AllSilent(f, [e]) <==> EmitExpr(f, e).None?;
    }
  }

  lemma {:induction false} ChildrenSilentIffLeavesSilent(f: Flavor, es: seq<Expr>)
    ensures EmittedChildren(f, es) == [] <==> AllSilent(f, LeavesOf(es))
    decreases es, 0
  {
    if es != [] {
      var init, last := es[..|es| - 1], es[|es| - 1];
      ChildrenSilentIffLeavesSilent(f, init);
      SilentIffLeavesSilent(f, last);
      var a, b := LeavesOf(init), Leaves(last);
      assert LeavesOf(es) == a + b;
      assert AllSilent(f, a + b) <==> AllSilent(f, a) && AllSilent(f, b) by {
        if AllSilent(f, a + b) {
          forall k | 0 <= k < |a| ensures EmitExpr(f, a[k]).None? {
            assert (a + b)[k] == a[k];
          }
          forall k | 0 <= k < |b| ensures EmitExpr(f, b[k]).None? {
            assert (a + b)[|a| + k] == b[k];
          }
        }
      }
    }
  }

  /** Which leaves emit nothing: under Web of Science and Springer a document type
      outside the type table, under Springer's basic plan also languages and subject
      areas; under the other flavours, none. */
  lemma LeafSilence(f: Flavor, x: Expr)
    requires !x.NaryExpr?
    ensures EmitExpr(f, x).None? <==>
      (x.AttrExpr? && x.kind == EvidenceType && x.value != "journal" && (f.WebOfScience? || f.Springer?)) ||
      (x.AttrExpr? && x.kind in {Language, SubjectArea} && f.Springer? && !f.premium)
  {
  }

  /** Under the plain, ACM and ScienceDirect flavours a subtree emits nothing exactly
      when it has no leaves. */
  lemma EmitsUnlessEmpty(f: Flavor, e: Expr)
    requires f.PlainTree? || f.Acm? || f.ScienceDirect?
    ensures EmitExpr(f, e).None? <==> Leaves(e) == []
  {
    SilentIffLeavesSilent(f, e);
    var xs := Leaves(e);
    if xs != [] {
      LeafSilence(f, xs[0]);
    }
  }

  /** The factored query: each key with the part of the tree for it, keys distinct. */
  type Factoring = seq<(string, Expr)>

  predicate HasKey(d: Factoring, key: string)
  {
    exists k :: 0 <= k < |d| && d[k].0 == key
  }

  /** `expr_dict[key]`: the entry for a key, None (KeyError) when it is absent. */
  function Lookup(d: Factoring, key: string): (r: Option<Expr>)
    ensures r.Some? <==> HasKey(d, key)
    ensures r.Some? ==> (key, r.value) in d
  {
    if d == [] then None
    else if d[0].0 == key then Some(d[0].1)
    else
      var r := Lookup(d[1..], key);
      assert HasKey(d, key) ==> HasKey(d[1..], key) by {
        if HasKey(d, key) {
          var k :| 0 <= k < |d| && d[k].0 == key;
          assert d[1..][k - 1].0 == key;
        }
      }
      assert HasKey(d[1..], key) ==> HasKey(d, key) by {
        if HasKey(d[1..], key) {
          var k :| 0 <= k < |d[1..]| && d[1..][k].0 == key;
          assert d[k + 1].0 == key;
        }
      }
      r
  }

  /** The entries, in order, whose key passes `keep`. */
  function Select(d: Factoring, keep: string -> bool): (r: Factoring)
    ensures forall p :: p in r <==> p in d && keep(p.0)
    ensures Seqs.IsSubseq(r, d)
  {
    Seqs.FilterIsSubseq(d, (p: (string, Expr)) => keep(p.0));
    Seqs.Filter(d, (p: (string, Expr)) => keep(p.0))
  }

  function Sep(op: Op): string
  {
    " " + OpUpper(op) + " "
  }

  /** The result of `_emit_factored` (and, for ScienceDirect, of `result`): a query
      string, ACM's query with its filter dict, or ScienceDirect's {"query": ...}. */
  datatype QueryOutput =
    | QueryText(text: string)
    | AcmQuery(query: string, filter: map<string, Option<string>>)
    | SdQuery(query: string)

  /** The keys that get a clause of their own under each flavour. */
  predicate WosBasicKey(key: string) { key !in {TitleAttr, AbstractAttr} }
  predicate AcmBasicKey(key: string) { key !in AcmUnsupported && key !in {TitleAttr, AbstractAttr, YearRangeKey} }
  predicate SdBasicKey(key: string)
  {
    key !in {TitleAttr, AbstractAttr, YearRangeKey, SubjectAttr, LanguageAttr} && key in SdNames
  }

  /** `" OP ".join(f"({key}: {emit(expr)})" ...)`. */
  function PlainClauses(d: Factoring): (r: seq<string>)
    ensures |r| == |d|
    ensures forall i :: 0 <= i < |d| ==> StartsWith(r[i], "(" + d[i].0 + ": ")
    ensures forall i :: 0 <= i < |d| ==> r[i] == "(" + d[i].0 + ": " + PyStr(EmitExpr(PlainTree, d[i].1)) + ")"
  {
    seq(|d|, i requires 0 <= i < |d| =>
      Framed("(" + d[i].0 + ": ", PyStr(EmitExpr(PlainTree, d[i].1)), ")"))
  }

  /** One "CODE=emission" clause per entry other than title and abstract, in order, the
      code being the key's Web of Science code or the key itself. */
  function WosClauses(d: Factoring): (r: seq<string>)
    ensures |r| == |Select(d, WosBasicKey)|
    ensures forall i :: 0 <= i < |r| ==>
      var p := Select(d, WosBasicKey)[i];
      p in d && WosBasicKey(p.0) &&
      r[i] == (if p.0 in WosCodes then WosCodes[p.0] else p.0) + "=" + PyStr(EmitExpr(WebOfScience, p.1))
  {
    var s := Select(d, WosBasicKey);
    seq(|s|, i requires 0 <= i < |s| =>
      (if s[i].0 in WosCodes then WosCodes[s[i].0] else s[i].0) + "=" + PyStr(EmitExpr(WebOfScience, s[i].1)))
  }

  /** One "(Name: emission)" clause per supported entry, in order; no clause is for a
      document type, language, subject area, the year range, title or abstract. */
  function AcmClauses(d: Factoring): (r: seq<string>)
    ensures |r| == |Select(d, AcmBasicKey)|
    ensures forall i :: 0 <= i < |r| ==>
      var p := Select(d, AcmBasicKey)[i];
      p in d && p.0 !in AcmUnsupported && p.0 !in {TitleAttr, AbstractAttr, YearRangeKey} &&
      r[i] == "(" + (if p.0 in AcmNames then AcmNames[p.0] else p.0) + ": " + PyStr(EmitExpr(Acm, p.1)) + ")"
  {
    var s := Select(d, AcmBasicKey);
    seq(|s|, i requires 0 <= i < |s| =>
      "(" + (if s[i].0 in AcmNames then AcmNames[s[i].0] else s[i].0) + ": " + PyStr(EmitExpr(Acm, s[i].1)) + ")")
  }

  /** One clause per entry ScienceDirect has a field for, other than title, abstract,
      year range, subject area and language, in order: the field's prefix followed by
      the entry's emission. */
  function SdClauses(d: Factoring): (r: seq<string>)
    ensures |r| == |Select(d, SdBasicKey)|
    ensures forall i :: 0 <= i < |r| ==>
      var p := Select(d, SdBasicKey)[i];
      p in d && SdBasicKey(p.0) && r[i] == SdNames[p.0] + PyStr(EmitExpr(ScienceDirect, p.1))
  {
    var s := Select(d, SdBasicKey);
    seq(|s|, i requires 0 <= i < |s| => SdNames[s[i].0] + PyStr(EmitExpr(ScienceDirect, s[i].1)))
  }

  /** `_emit_factored` of the plain, Web of Science, ACM and ScienceDirect adapters. The
      last three read the title and abstract entries directly and fail with KeyError
      when either is missing. */
  function EmitFactored(f: Flavor, op: Op, d: Factoring): (r: Result<QueryOutput>)
    requires !f.Springer?
    ensures f.PlainTree? ==> r.Ok? && r.value.QueryText?
    ensures f.PlainTree? ==> r == Ok(QueryText(Join(Sep(op), PlainClauses(d))))
    ensures !f.PlainTree? ==> (r.Ok? <==> HasKey(d, TitleAttr) && HasKey(d, AbstractAttr))
    ensures r.Err? ==> r.error == KeyError
  {
    match f
    case PlainTree => Ok(QueryText(Join(Sep(op), PlainClauses(d))))
    case WebOfScience => WosFactored(op, d)
    case Acm => AcmFactored(op, d)
    case ScienceDirect => SdFactored(op, d)
  }

  /** The title-or-abstract clause: `open`, the title part's emission, `mid`, the
      abstract part's emission and a closing parenthesis. */
  function TitleAbstractClause(f: Flavor, open: string, title: Expr, mid: string, abstractPart: Expr): (r: string)
    ensures StartsWith(r, open) && EndsWith(r, ")")
    ensures r == open + PyStr(EmitExpr(f, title)) + mid + PyStr(EmitExpr(f, abstractPart)) + ")"
  {
    var r := open + PyStr(EmitExpr(f, title)) + mid + PyStr(EmitExpr(f, abstractPart)) + ")";
    assert r[..|open|] == open;
    r
  }

  lemma AcmYearName()
    ensures YearRangeKey in AcmNames && AcmNames[YearRangeKey] == "E-Publication Date"
  {
  }

  /** Web of Science: "(TI=... OR AB=...)" first, then "CODE=..." for every other key. */
  function WosFactored(op: Op, d: Factoring): (r: Result<QueryOutput>)
    ensures r.Ok? <==> HasKey(d, TitleAttr) && HasKey(d, AbstractAttr)
    ensures r.Err? ==> r.error == KeyError
    ensures r.Ok? ==> r.value.QueryText? && StartsWith(r.value.text, "(TI=")
    ensures r.Ok? ==> EndsWith(r.value.text, Sep(op) + Join(Sep(op), WosClauses(d)))
    ensures r.Ok? ==> (r.value.text ==
      TitleAbstractClause(WebOfScience, "(TI=", Lookup(d, TitleAttr).value, " OR AB=", Lookup(d, AbstractAttr).value)
        + (Sep(op) + Join(Sep(op), WosClauses(d))))
  {
    var basic := Join(Sep(op), WosClauses(d));
    var title, abstractEntry := Lookup(d, TitleAttr), Lookup(d, AbstractAttr);
    if title.None? || abstractEntry.None? then Err(KeyError)
    else
      var ta := TitleAbstractClause(WebOfScience, "(TI=", title.value, " OR AB=", abstractEntry.value);
      var text := ta + (Sep(op) + basic);
      ConcatAffixes(ta, Sep(op) + basic);
      StartsWithTrans(text, ta, "(TI=");
      Ok(QueryText(text))
  }

  /** ACM: "(Title: ... OR Abstract: ...)" first, then clauses for the supported
      non-title, non-abstract keys; the year range goes only into the filter. */
  function AcmFactored(op: Op, d: Factoring): (r: Result<QueryOutput>)
    ensures r.Ok? <==> HasKey(d, TitleAttr) && HasKey(d, AbstractAttr)
    ensures r.Err? ==> r.error == KeyError
    ensures r.Ok? ==> r.value.AcmQuery? && StartsWith(r.value.query, "(Title: ")
    ensures r.Ok? ==> EndsWith(r.value.query, Sep(op) + Join(Sep(op), AcmClauses(d)))
    ensures r.Ok? ==> r.value.filter == AcmFilter(d)
    ensures r.Ok? ==> (r.value.query ==
      TitleAbstractClause(Acm, "(Title: ", Lookup(d, TitleAttr).value, " OR Abstract: ", Lookup(d, AbstractAttr).value)
        + (Sep(op) + Join(Sep(op), AcmClauses(d))))
  {
    var basic := Join(Sep(op), AcmClauses(d));
    var title, abstractEntry := Lookup(d, TitleAttr), Lookup(d, AbstractAttr);
    if title.None? || abstractEntry.None? then Err(KeyError)
    else
      var ta := TitleAbstractClause(Acm, "(Title: ", title.value, " OR Abstract: ", abstractEntry.value);
      var query := ta + (Sep(op) + basic);
      ConcatAffixes(ta, Sep(op) + basic);
      StartsWithTrans(query, ta, "(Title: ");
      Ok(AcmQuery(query, AcmFilter(d)))
  }

  /** ACM's filter: the year range's emission under its ACM name, and nothing else. */
  function AcmFilter(d: Factoring): (r: map<string, Option<string>>)
    ensures r.Keys == if HasKey(d, YearRangeKey) then {"E-Publication Date"} else {}
    ensures HasKey(d, YearRangeKey) ==> r["E-Publication Date"] == EmitExpr(Acm, Lookup(d, YearRangeKey).value)
  {
    var year := Lookup(d, YearRangeKey);
    AcmYearName();
    if year.Some? then map[AcmNames[YearRangeKey] := EmitExpr(Acm, year.value)] else map[]
  }

  /** ScienceDirect: "(TITLE... OR ABSTRACT...)" first, then the basic clauses, then the
      year range if there is one. */
  function SdFactored(op: Op, d: Factoring): (r: Result<QueryOutput>)
    ensures r.Ok? <==> HasKey(d, TitleAttr) && HasKey(d, AbstractAttr)
    ensures r.Err? ==> r.error == KeyError
    ensures r.Ok? ==> r.value.SdQuery? && StartsWith(r.value.query, "(TITLE")
    ensures r.Ok? && HasKey(d, YearRangeKey) ==>
      EndsWith(r.value.query, Sep(op) + PyStr(EmitExpr(ScienceDirect, Lookup(d, YearRangeKey).value)))
    ensures r.Ok? && !HasKey(d, YearRangeKey) ==>
      EndsWith(r.value.query, Sep(op) + Join(Sep(op), SdClauses(d)))
    ensures r.Ok? ==> (r.value.query ==
      TitleAbstractClause(ScienceDirect, "(TITLE", Lookup(d, TitleAttr).value, " OR ABSTRACT", Lookup(d, AbstractAttr).value)
        + (Sep(op) + Join(Sep(op), SdClauses(d)))
        + (if HasKey(d, YearRangeKey) then Sep(op) + PyStr(EmitExpr(ScienceDirect, Lookup(d, YearRangeKey).value)) else ""))
  {
    var basic := Join(Sep(op), SdClauses(d));
    var title, abstractEntry := Lookup(d, TitleAttr), Lookup(d, AbstractAttr);
    if title.None? || abstractEntry.None? then Err(KeyError)
    else
      var ta := TitleAbstractClause(ScienceDirect, "(TITLE", title.value, " OR ABSTRACT", abstractEntry.value);
      var year := Lookup(d, YearRangeKey);
      var last := if year.Some? then Some(PyStr(EmitExpr(ScienceDirect, year.value))) else None;
      var query := JoinedWithLast(ta, Sep(op), basic, last);
      StartsWithTrans(query, ta, "(TITLE");
      Ok(SdQuery(query))
  }

  /** `sep.join([head, basic] + ([last] if last else []))`. */
  function JoinedWithLast(head: string, sep: string, basic: string, last: Option<string>): (r: string)
    ensures r == head + (sep + basic) + (if last.Some? then sep + last.value else "")
    ensures StartsWith(r, head)
    ensures last.Some? ==> EndsWith(r, sep + last.value)
    ensures last.None? ==> EndsWith(r, sep + basic)
  {
    var tail := if last.Some? then sep + last.value else "";
    var r := head + (sep + basic) + tail;
    assert r == head + ((sep + basic) + tail);
    ConcatAffixes(head, (sep + basic) + tail);
    ConcatAffixes(head + (sep + basic), tail);
    assert last.None? ==> r == head + (sep + basic);
    ConcatAffixes(head, sep + basic);
    r
  }

  /** `sep.join([head] + rest)` for a non-empty `rest`: it starts with the head and ends
      with the separator and the last part. */
  function Headed(head: string, sep: string, rest: seq<string>): (r: string)
    requires rest != []
    ensures StartsWith(r, head) && |r| >= |head|
    ensures EndsWith(r, sep + rest[|rest| - 1])
  {
    var parts := [head] + rest;
    JoinEnds(sep, parts);
    Join(sep, parts)
  }

  lemma {:induction false} JoinEnds(sep: string, parts: seq<string>)
    requires |parts| >= 2
    ensures StartsWith(Join(sep, parts), parts[0])
    ensures EndsWith(Join(sep, parts), sep + parts[|parts| - 1])
  {
    var rest := Join(sep, parts[1..]);
    assert Join(sep, parts) == parts[0] + (sep + rest);
    if |parts| == 2 {
      assert rest == parts[1];
    } else {
      JoinEnds(sep, parts[1..]);
    }
  }

  /** `_should_include_attr`: subject areas and languages only on the premium plan,
      other attributes when Springer has a field for them. */
  predicate SpringerIncludesAttr(premium: bool, name: string)
  {
    if name in {SubjectAttr, LanguageAttr} then premium else name in SpringerNames
  }

  /** Springer's factored query and its term emission agree on languages and subject
      areas: their terms emit text exactly when their keys are included. */
  lemma SpringerInclusionMatchesEmission(premium: bool, month: int, kind: AttrKind, v: string)
    requires kind in {Language, SubjectArea}
    ensures EmitExpr(Springer(premium, month), Attr(kind, v)).Some? <==> SpringerIncludesAttr(premium, KindName(kind))
  {
  }

  /** ACM writes a year range with both years as four zero-padded digits that read
      back as the years, between fixed day-and-month text. */
  lemma AcmYearRange(y: Expr)
    requires y.YearRangeExpr? && 0 <= y.start < 10000 && 0 <= y.end < 10000
    ensures EmitExpr(Acm, y).Some?
    ensures var r := EmitExpr(Acm, y).value;
      |r| == 26 && r[..7] == "(01/01/" && r[11..21] == " TO 31/12/" && r[25] == ')' &&
      IsDigits(r[7..11]) && DigitsValue(r[7..11]) == y.start &&
      IsDigits(r[21..25]) && DigitsValue(r[21..25]) == y.end
  {
    assert Pow10(4) == 10000 by {
      assert Pow10(1) == 10 && Pow10(2) == 100 && Pow10(3) == 1000;
    }
    ZeroPadRoundTrip(y.start, 4);
    ZeroPadRoundTrip(y.end, 4);
    var a, b := ZeroPad(y.start, 4), ZeroPad(y.end, 4);
    var r := "(01/01/" + a + " TO 31/12/" + b + ")";
    assert EmitExpr(Acm, y) == Some(r);
    FramedSlices("(01/01/", a, " TO 31/12/", b, ")");
  }

  /** The pieces of a text built from five pieces sit at their offsets. */
  lemma FramedSlices(p: string, a: string, m: string, b: string, q: string)
    ensures var r := p + a + m + b + q;
      var i, j, k := |p| + |a|, |p| + |a| + |m|, |p| + |a| + |m| + |b|;
      |r| == k + |q| && r[..|p|] == p && r[|p|..i] == a && r[i..j] == m && r[j..k] == b && r[k..] == q
  {
  }

  /** ScienceDirect pads only the start year to four digits; the end year is written
      as it is, and both read back. */
  lemma SdYearRange(y: Expr)
    requires y.YearRangeExpr? && 0 <= y.start < 10000 && 0 <= y.end
    ensures EmitExpr(ScienceDirect, y).Some?
    ensures var r := EmitExpr(ScienceDirect, y).value;
      |r| >= 46 && r[..14] == "(PUB-DATE AFT " && r[18..40] == "0101 AND PUB-DATE BEF " &&
      r[|r| - 5..] == "0701)" &&
      IsDigits(r[14..18]) && DigitsValue(r[14..18]) == y.start &&
      r[40..|r| - 5] == NatToString(y.end) && DigitsValue(r[40..|r| - 5]) == y.end
  {
    assert Pow10(4) == 10000 by {
      assert Pow10(1) == 10 && Pow10(2) == 100 && Pow10(3) == 1000;
    }
    ZeroPadRoundTrip(y.start, 4);
    DigitsValueOfNatToString(y.end);
    var a, b := ZeroPad(y.start, 4), NatToString(y.end);
    var r := "(PUB-DATE AFT " + a + "0101 AND PUB-DATE BEF " + b + "0701)";
    assert EmitExpr(ScienceDirect, y) == Some(r);
    FramedSlices("(PUB-DATE AFT ", a, "0101 AND PUB-DATE BEF ", b, "0701)");
  }

  /** Web of Science writes a year range as "(start-end)": the text between the
      parentheses splits at the dash into the two years. */
  lemma WosYearRange(y: Expr)
    requires y.YearRangeExpr? && 0 <= y.start && 0 <= y.end
    ensures EmitExpr(WebOfScience, y).Some?
    ensures var r := EmitExpr(WebOfScience, y).value;
      r[0] == '(' && r[|r| - 1] == ')' &&
      Split(r[1..|r| - 1], '-') == [NatToString(y.start), NatToString(y.end)]
  {
    var a, b := NatToString(y.start), NatToString(y.end);
    DigitsValueOfNatToString(y.start);
    DigitsValueOfNatToString(y.end);
    var r := "(" + a + "-" + b + ")";
    assert r[1..|r| - 1] == a + "-" + b;
    assert '-' !in a by {
      forall k | 0 <= k < |a| ensures a[k] != '-' { assert IsDigit(a[k]); }
    }
    assert '-' !in b by {
      forall k | 0 <= k < |b| ensures b[k] != '-' { assert IsDigit(b[k]); }
    }
    SplitAfterPiece(a, '-', b);
    SplitNoSeparator(b, '-');
  }

  /** A document type outside ScienceDirect's table is still written, as "(None)";
      Web of Science and Springer write nothing for it instead. */
  lemma UnmappedDocType(v: string)
    requires v != "journal"
    ensures EmitExpr(ScienceDirect, Attr(EvidenceType, v)) == Some("(None)")
    ensures EmitExpr(WebOfScience, Attr(EvidenceType, v)).None?
    ensures forall premium, month :: EmitExpr(Springer(premium, month), Attr(EvidenceType, v)).None?
  {
    assert v !in SdDocTypes && v !in WosEvidenceTypes;
    assert MapGet(SdDocTypes, v) == None;
    assert "(" + PyStr(None) + ")" == "(None)";
  }
}
