/** The grammar of conditions as concrete syntax: every derivation has a yield (the words it is
    written with) and a tree (what it means). AND and OR lean left by construction, and AND
    binds tighter because an OR's operands are whole AND chains. */
module Grammar {
  import opened Text
  import opened Conditions

  datatype OrExpr = OneAnd(a: AndExpr) | MoreOr(init: OrExpr, kw: string, last: AndExpr)

  datatype AndExpr = OneUnary(u: Unary) | MoreAnd(start: AndExpr, kw: string, end: Unary)

  datatype Unary = Negation(e: OrExpr) | Group(e: OrExpr) | Leaf(p: Predicate)

  datatype Predicate =
    | Matching(kw: string, pattern: string)
    | Existence(kw: string, src: Source, key: string)
    | Comparison(src: Source, key: string, quant: Option<string>, op: string, braces: bool, items: seq<Kind>)

  // ---- well-formed derivations ----

  predicate ValidOr(rd: Reader, d: OrExpr) {
    match d
    case OneAnd(a) => ValidAnd(rd, a)
    case MoreOr(init, kw, a) => ValidOr(rd, init) && EqualFold(kw, "OR") && ValidAnd(rd, a)
  }

  predicate ValidAnd(rd: Reader, d: AndExpr) {
    match d
    case OneUnary(u) => ValidUnary(rd, u)
    case MoreAnd(start, kw, u) => ValidAnd(rd, start) && EqualFold(kw, "AND") && ValidUnary(rd, u)
  }

  predicate ValidUnary(rd: Reader, d: Unary) {
    match d
    case Negation(e) => ValidOr(rd, e)
    case Group(e) => ValidOr(rd, e)
    case Leaf(p) => ValidPredicate(rd, p)
  }

  predicate ValidPredicate(rd: Reader, p: Predicate) {
    match p
    case Matching(kw, _) => EqualFold(kw, "ActionMatches") || EqualFold(kw, "SubOperationMatches")
    case Existence(kw, _, _) => EqualFold(kw, "Exists")
    case Comparison(_, _, quant, op, braces, items) =>
      && (quant.Some? ==> braces && !QuantifierOf(Lower(quant.value)).NoQuantifier?)
      && OperatorOf(Lower(op)).Some?
      && |items| >= 1 && (!braces ==> |items| == 1)
      && forall i :: 0 <= i < |items| ==> IsValue(rd, items[i])
  }

  predicate IsValue(rd: Reader, k: Kind) {
    || k.Quoted?
    || (k.Number? && rd.number(k.text).Some?)
    || (k.Ident? && (EqualFold(k.text, "true") || EqualFold(k.text, "false")))
  }

  // ---- yields ----

  function YieldOr(d: OrExpr): seq<Kind> {
    match d
    case OneAnd(a) => YieldAnd(a)
    case MoreOr(init, kw, a) => YieldOr(init) + ([Ident(kw)] + YieldAnd(a))
  }

  function YieldAnd(d: AndExpr): seq<Kind> {
    match d
    case OneUnary(u) => YieldUnary(u)
    case MoreAnd(start, kw, u) => YieldAnd(start) + ([Ident(kw)] + YieldUnary(u))
  }

  function YieldUnary(d: Unary): seq<Kind> {
    match d
    case Negation(e) => [Punct('!')] + ([Punct('(')] + (YieldOr(e) + [Punct(')')]))
    case Group(e) => [Punct('(')] + (YieldOr(e) + [Punct(')')])
    case Leaf(p) => YieldPredicate(p)
  }

  function YieldPredicate(p: Predicate): seq<Kind> {
    match p
    case Matching(kw, pattern) => [Ident(kw), Punct('{'), Quoted(pattern), Punct('}')]
    case Existence(kw, src, key) => [Ident(kw), Attr(src, key)]
    case Comparison(src, key, quant, op, braces, items) =>
      [Attr(src, key)] + (YieldQuantifier(quant) + ([Ident(op)] + YieldValues(braces, items)))
  }

  function YieldQuantifier(quant: Option<string>): seq<Kind> {
    match quant
    case None => []
    case Some(q) => [Ident(q), Punct(':')]
  }

  function YieldValues(braces: bool, items: seq<Kind>): seq<Kind> {
    if braces then [Punct('{')] + (YieldItems(items) + [Punct('}')]) else items
  }

  function YieldItems(items: seq<Kind>): seq<Kind> {
    if |items| <= 1 then items else [items[0]] + ([Punct(',')] + YieldItems(items[1..]))
  }

  // ---- trees ----

  function TreeOr(d: OrExpr): Node {
    match d
    case OneAnd(a) => TreeAnd(a)
    case MoreOr(init, _, a) => Or(TreeOr(init), TreeAnd(a))
  }

  function TreeAnd(d: AndExpr): Node {
    match d
    case OneUnary(u) => TreeUnary(u)
    case MoreAnd(start, _, u) => And(TreeAnd(start), TreeUnary(u))
  }

  function TreeUnary(d: Unary): Node {
    match d
    case Negation(e) => Not(TreeOr(e))
    case Group(e) => TreeOr(e)
    case Leaf(p) => TreePredicate(p)
  }

  function TreePredicate(p: Predicate): Node {
    match p
    case Matching(kw, pattern) => Action(pattern, EqualFold(kw, "SubOperationMatches"))
    case Existence(_, src, key) => Exists(Ref(src, key))
    case Comparison(src, key, quant, op, braces, items) =>
      var q := match quant case None => NoQuantifier case Some(w) => QuantifierOf(Lower(w));
      var o := match OperatorOf(Lower(op)) case None => Flag(false) case Some(o) => o;
      Compare(Ref(src, key), q, o, Values(items), braces)
  }

  function ValueOf(k: Kind): Literal {
    match k
    case Quoted(t) => StringLit(t)
    case Number(t) => NumberLit(t)
    case Ident(t) => BoolLit(EqualFold(t, "true"))
    case _ => StringLit("")
  }

  function Values(items: seq<Kind>): (r: seq<Literal>)
    ensures |r| == |items|
    ensures forall i :: 0 <= i < |items| ==> r[i] == ValueOf(items[i])
  {
    seq(|items|, i requires 0 <= i < |items| => ValueOf(items[i]))
  }
}
