/** The search-query expression tree: string terms, attribute terms, publication-year
    ranges and n-ary AND/OR groups, with their plain-text rendering. Term values are
    strings and year bounds integers. */
module SearchExpr {
  import opened Wrappers
  import opened Strings
  import Seqs

  datatype Op = And | Or

  /** The operator's string value, "and" or "or". */
  function OpText(op: Op): string
  {
    match op
    case And => "and"
    case Or => "or"
  }

  /** `op.upper()`. */
  function OpUpper(op: Op): (r: string)
    ensures r == Upper(OpText(op))
  {
    match op
    case And => "AND"
    case Or => "OR"
  }

  /** Which attribute class an attribute term was built with: the plain `AttrExpr`
      or one of its subclasses, each of which fixes the attribute name. */
  datatype AttrKind = Plain | Title | Abstract | AuthorKeys | EvidenceType | SubjectArea | Language

  const DocTypeAttr: string := "document type"
  const TitleAttr: string := "title"
  const AbstractAttr: string := "abstract"
  const KeysAttr: string := "keys"
  const SubjectAttr: string := "subject area"
  const LanguageAttr: string := "language"

  /** The attribute name a subclass fixes. */
  function KindName(kind: AttrKind): (name: string)
    requires kind != Plain
    ensures name in {DocTypeAttr, TitleAttr, AbstractAttr, KeysAttr, SubjectAttr, LanguageAttr}
  {
    match kind
    case Title => TitleAttr
    case Abstract => AbstractAttr
    case AuthorKeys => KeysAttr
    case EvidenceType => DocTypeAttr
    case SubjectArea => SubjectAttr
    case Language => LanguageAttr
  }

  datatype Expr =
    | StrExpr(value: string)
    | AttrExpr(kind: AttrKind, name: string, value: string)
    | YearRangeExpr(start: int, end: int)
    | NaryExpr(op: Op, children: seq<Expr>, attr: Option<string>)

  /** An attribute term of a subclass, whose name is the one the subclass fixes. */
  function Attr(kind: AttrKind, value: string): (e: Expr)
    requires kind != Plain
    ensures e.AttrExpr? && e.kind == kind && e.value == value && e.name == KindName(kind)
  {
    AttrExpr(kind, KindName(kind), value)
  }

  /** The `[attr]` prefix of a group's rendering; absent for a missing or empty attr. */
  function AttrPrefix(attr: Option<string>): string
  {
    if attr.Some? && attr.value != "" then "[" + attr.value + "]" else ""
  }

  /** `str(expr)`. */
  function ToStr(e: Expr): (r: string)
    ensures e.NaryExpr? ==> r != [] && r[|r| - 1] == ')'
  {
    match e
    case StrExpr(v) => v
    case AttrExpr(_, name, v) => name + ": " + v
    case YearRangeExpr(s, t) => "(year BETWEEN " + IntToString(s) + " AND " + IntToString(t) + ")"
    case NaryExpr(op, children, attr) =>
      AttrPrefix(attr) + "(" + Join(" " + OpText(op) + " ", ChildStrings(children)) + ")"
  }

  function ChildStrings(children: seq<Expr>): (r: seq<string>)
    ensures |r| == |children|
  {
    seq(|children|, i requires 0 <= i < |children| => ToStr(children[i]))
  }

  /** `NaryExpr.add`: appends exactly one child at the end; nothing else changes. */
  function Add(e: Expr, child: Expr): (r: Expr)
    requires e.NaryExpr?
    ensures r.NaryExpr? && r.op == e.op && r.attr == e.attr
    ensures r.children == e.children + [child]
  {
    NaryExpr(e.op, e.children + [child], e.attr)
  }

  /** Adding a child to a non-empty group extends its rendering by the operator and the
      child's rendering just before the closing parenthesis. */
  lemma AddExtendsRendering(e: Expr, child: Expr)
    requires e.NaryExpr? && e.children != []
    ensures ToStr(Add(e, child)) ==
      ToStr(e)[..|ToStr(e)| - 1] + " " + OpText(e.op) + " " + ToStr(child) + ")"
  {
    var sep := " " + OpText(e.op) + " ";
    var cs := ChildStrings(e.children);
    var last := ToStr(child);
    ChildStringsSnoc(e.children, child);
    GroupTextSnoc(AttrPrefix(e.attr), sep, cs, last);
    var before := ToStr(e);
    assert before == AttrPrefix(e.attr) + "(" + Join(sep, cs) + ")";
    assert ToStr(Add(e, child)) == AttrPrefix(e.attr) + "(" + Join(sep, cs + [last]) + ")";
    var front := before[..|before| - 1];
    Seqs.Assoc(front, " " + OpText(e.op), " ");
    Seqs.Assoc(front, " ", OpText(e.op));
  }

  lemma ChildStringsSnoc(children: seq<Expr>, child: Expr)
    ensures ChildStrings(children + [child]) == ChildStrings(children) + [ToStr(child)]
  {
  }

  /** A group's text with one more part: the separator and the part go in before the
      closing parenthesis. */
  lemma GroupTextSnoc(prefix: string, sep: string, parts: seq<string>, x: string)
    requires parts != []
    ensures var text := prefix + "(" + Join(sep, parts) + ")";
      prefix + "(" + Join(sep, parts + [x]) + ")" == text[..|text| - 1] + sep + x + ")"
  {
    var open, joined := prefix + "(", Join(sep, parts);
    JoinAppend(sep, parts, x);
    assert Join(sep, parts + [x]) == joined + sep + x;
    Seqs.Assoc(open, joined + sep, x);
    Seqs.Assoc(open, joined, sep);
    Seqs.DropLast(open + joined, ')');
  }

  /** Adding a child to an empty group renders it as the only child. */
  lemma AddToEmptyGroup(e: Expr, child: Expr)
    requires e.NaryExpr? && e.children == []
    ensures ToStr(Add(e, child)) == AttrPrefix(e.attr) + "(" + ToStr(child) + ")"
  {
    assert ChildStrings(e.children + [child]) == [ToStr(child)];
  }

  /** `TitleAbsExpr(v)`: title or abstract. */
  function TitleAbs(value: string): (e: Expr)
    ensures e.NaryExpr? && e.op == Or && e.attr == None
    ensures e.children == [Attr(Title, value), Attr(Abstract, value)]
  {
    NaryExpr(Or, [Attr(Title, value), Attr(Abstract, value)], None)
  }

  /** `TitleAbsKeysExpr(v)`: title, abstract or author keywords. */
  function TitleAbsKeys(value: string): (e: Expr)
    ensures e.NaryExpr? && e.op == Or && e.attr == None
    ensures e.children == TitleAbs(value).children + [Attr(AuthorKeys, value)]
  {
    NaryExpr(Or, [Attr(Title, value), Attr(Abstract, value), Attr(AuthorKeys, value)], None)
  }

  /** The plural helpers (`EvidenceTypesExpr`, `SubjectAreasExpr`, `LanguagesExpr`,
      `MultipleKeysExpr`): an OR group with one attribute term per value, in order. */
  function AnyOf(kind: AttrKind, values: seq<string>): (e: Expr)
    requires kind != Plain
    ensures e.NaryExpr? && e.op == Or && e.attr == None && |e.children| == |values|
    ensures forall k :: 0 <= k < |values| ==> e.children[k] == Attr(kind, values[k])
  {
    NaryExpr(Or, seq(|values|, k requires 0 <= k < |values| => Attr(kind, values[k])), None)
  }

  /** The leaves of a tree, left to right. */
  function Leaves(e: Expr): (r: seq<Expr>)
    ensures forall k :: 0 <= k < |r| ==> !r[k].NaryExpr?
  {
    if e.NaryExpr? then LeavesOf(e.children) else [e]
  }

  function LeavesOf(es: seq<Expr>): (r: seq<Expr>)
    ensures forall k :: 0 <= k < |r| ==> !r[k].NaryExpr?
  {
    if es == [] then [] else LeavesOf(es[..|es| - 1]) + Leaves(es[|es| - 1])
  }

  /** The number of groups in a tree. */
  function GroupCount(e: Expr): nat
  {
    if e.NaryExpr? then 1 + GroupCountOf(e.children) else 0
  }

  function GroupCountOf(es: seq<Expr>): nat
  {
    if es == [] then 0 else GroupCountOf(es[..|es| - 1]) + GroupCount(es[|es| - 1])
  }
}
