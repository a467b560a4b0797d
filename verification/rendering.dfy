/** Printing condition trees: a printed tree parses back to itself, and those are all the trees
    there are. */
module Rendering {
  import opened Text
  import opened Conditions
  import opened Lexer
  import opened Grammar
  import opened Parser
  import opened Parsing
  import opened ConditionText

  // ---- printing tokens ----

  /** Tokens that some text can spell. */
  predicate Printable(k: Kind) {
    match k
    case EOF => false
    case Ident(t) => t != "" && !StartsNumber(t) && forall i :: 0 <= i < |t| ==> IsIdentChar(t[i])
    case Number(t) => StartsNumber(t) && forall i :: 1 <= i < |t| ==> IsNumberChar(t[i])
    case Quoted(t) => '\'' !in t || '"' !in t
    case Attr(_, key) => key != "" && TrimSpace(key) == key && ']' !in key
    case Punct(c) => IsPunctChar(c)
  }

  function Spell(k: Kind): string {
    match k
    case EOF => ""
    case Ident(t) => t
    case Number(t) => t
    case Quoted(t) => if '\'' !in t then "'" + t + "'" else "\"" + t + "\""
    case Attr(src, key) => "@" + SourceName(src) + "[" + key + "]"
    case Punct(c) => [c]
  }

  predicate Blank(gap: string) {
    forall i :: 0 <= i < |gap| ==> IsGap(gap[i])
  }

  /** The words, each followed by its gap. */
  function Print(ks: seq<Kind>, gaps: seq<string>): string
    requires |gaps| == |ks|
  {
    if ks == [] then "" else Spell(ks[0]) + gaps[0] + Print(ks[1..], gaps[1..])
  }

  /** The gaps are white space, empty only where the word before does not run on without one. */
  ghost predicate Separated(ks: seq<Kind>, gaps: seq<string>)
    requires |gaps| == |ks|
  {
    ks == [] || (Blank(gaps[0]) && Munched(ks[0], gaps[0] + Print(ks[1..], gaps[1..])) && Separated(ks[1..], gaps[1..]))
  }

  /** The tokens the printed words become, from offset `off`. */
  function TokensOf(ks: seq<Kind>, gaps: seq<string>, off: nat): (toks: seq<Token>)
    requires |gaps| == |ks|
    ensures |toks| == |ks| + 1
    ensures forall i :: 0 <= i < |ks| ==> toks[i].kind == ks[i]
    ensures toks[|ks|].kind.EOF?
  {
    if ks == [] then [Token(EOF, off)]
    else [Token(ks[0], off)] + TokensOf(ks[1..], gaps[1..], off + |Spell(ks[0])| + |gaps[0]|)
  }

  lemma SourceNamesTrimmed(src: Source)
    ensures TrimSpace(SourceName(src)) == SourceName(src) && '[' !in SourceName(src)
  {
    var n := SourceName(src);
    assert n[0] in "RPE" && n[|n| - 1] in "etl" && !IsSpace(n[0]) && !IsSpace(n[|n| - 1]);
    assert TrimLeft(n) == n && TrimRight(n) == n;
  }

  lemma SpellSpells(k: Kind)
    requires Printable(k)
    ensures Spells(Spell(k), k) && Spell(k) != ""
  {
    hide TrimSpace, TrimLeft, TrimRight, Lower, SourceOf;
    match k {
      case Quoted(t) =>
        assert ['\''] == "'" && ['"'] == "\"";
      case Attr(src, key) =>
        SourceRoundTrip(src);
        SourceNamesTrimmed(src);
        assert SpellsAttribute(Spell(k), src, key, SourceName(src), key);
      case _ =>
    }
  }

  lemma GapEndsWord(kind: Kind, rest: string)
    requires rest != "" && (IsGap(rest[0]) || rest[0] == ')')
    ensures Munched(kind, rest)
  {}

  lemma TilesEarlier(s: string, from: nat, off: nat, toks: seq<Token>)
    requires from <= off <= |s| && Tiles(s, off, toks)
    requires forall i :: from <= i < off ==> IsGap(s[i])
    ensures Tiles(s, from, toks)
  {
    hide TokenAt;
  }

  lemma PrintedToken(s: string, off: nat, k: Kind, gap: string, rest: string)
    requires off <= |s| && s[off..] == Spell(k) + (gap + rest)
    requires Printable(k) && Blank(gap) && Munched(k, gap + rest)
    ensures var end := off + |Spell(k)|; var next := end + |gap|;
            && TokenAt(s, Token(k, off), end)
            && next <= |s| && s[next..] == rest && forall i :: end <= i < next ==> IsGap(s[i])
  {
    hide Spell, Spells, Munched, Printable;
    var end := off + |Spell(k)|;
    PieceOf(s, off, Spell(k), gap + rest);
    PieceOf(s, end, gap, rest);
    assert forall i :: end <= i < end + |gap| ==> s[i] == gap[i - end];
    SpellSpells(k);
  }

  lemma WordThenGap(s: string, off: nat, k: Kind, end: nat, next: nat, rest: seq<Token>)
    requires off <= end <= next <= |s| && TokenAt(s, Token(k, off), end) && Tiles(s, next, rest)
    requires forall i :: end <= i < next ==> IsGap(s[i])
    ensures Tiles(s, off, [Token(k, off)] + rest)
  {
    hide Tiles, TokenAt;
    TilesEarlier(s, end, next, rest);
    TilesCons(s, off, Token(k, off), end, rest);
  }

  lemma EndTiles(s: string)
    ensures Tiles(s, |s|, [Token(EOF, |s|)])
  {}

  lemma {:induction false} PrintTiles(s: string, off: nat, ks: seq<Kind>, gaps: seq<string>)
    requires off <= |s| && |gaps| == |ks| && s[off..] == Print(ks, gaps)
    requires Separated(ks, gaps) && forall i :: 0 <= i < |ks| ==> Printable(ks[i])
    ensures Tiles(s, off, TokensOf(ks, gaps, off))
    decreases |ks|
  {
    hide Spell, Printable, Blank, IsGap, TokenAt, Tiles, Munched;
    if ks == [] {
      EndTiles(s);
    } else {
      var end, next := off + |Spell(ks[0])|, off + |Spell(ks[0])| + |gaps[0]|;
      var rest := TokensOf(ks[1..], gaps[1..], next);
      assert s[off..] == Spell(ks[0]) + (gaps[0] + Print(ks[1..], gaps[1..]));
      PrintedToken(s, off, ks[0], gaps[0], Print(ks[1..], gaps[1..]));
      PrintTiles(s, next, ks[1..], gaps[1..]);
      WordThenGap(s, off, ks[0], end, next, rest);
    }
  }

  lemma PieceOf(s: string, off: nat, w: string, rest: string)
    requires off <= |s| && s[off..] == w + rest
    ensures off + |w| <= |s| && s[off..off + |w|] == w && s[off + |w|..] == rest
    ensures forall i :: 0 <= i < |w| ==> s[off + i] == w[i]
  {
    assert s[off..][..|w|] == w && s[off..][|w|..] == rest;
    assert forall i :: 0 <= i < |w| ==> s[off + i] == s[off..][i];
  }

  /** Printing words with any white space between them, none where no word runs on, and lexing
      gives the words back. */
  lemma LexPrint(ks: seq<Kind>, gaps: seq<string>)
    requires |gaps| == |ks| && Separated(ks, gaps)
    requires forall i :: 0 <= i < |ks| ==> Printable(ks[i])
    ensures Lex(Print(ks, gaps)) == Ok(TokensOf(ks, gaps, 0))
  {
    hide Tiles, LexFrom, Print, Separated;
    var s := Print(ks, gaps);
    assert s[0..] == s;
    PrintTiles(s, 0, ks, gaps);
    LexExactIff(s, TokensOf(ks, gaps, 0));
  }

  // ---- printing trees ----

  function WordOf(lit: Literal): Kind {
    match lit
    case StringLit(t) => Quoted(t)
    case NumberLit(t) => Number(t)
    case BoolLit(b) => Ident(if b then "true" else "false")
  }

  function WordsOf(values: seq<Literal>): (r: seq<Kind>)
    ensures |r| == |values|
    ensures forall i :: 0 <= i < |values| ==> r[i] == WordOf(values[i])
  {
    seq(|values|, i requires 0 <= i < |values| => WordOf(values[i]))
  }

  /** The derivation that parenthesises every operand of AND and OR. */
  function Canon(n: Node): OrExpr {
    match n
    case And(l, r) => Both(Canon(l), Canon(r))
    case Or(l, r) => Either(Canon(l), Canon(r))
    case Not(inner) => OneAnd(OneUnary(Negation(Canon(inner))))
    case _ => OneAnd(OneUnary(Leaf(CanonLeaf(n))))
  }

  function CanonLeaf(n: Node): Predicate
    requires !n.And? && !n.Or? && !n.Not?
  {
    match n
    case Action(pattern, sub) => Matching(if sub then "SubOperationMatches" else "ActionMatches", pattern)
    case Exists(a) => Existence("Exists", a.src, a.key)
    case Compare(a, q, op, values, braces) =>
      Comparison(a.src, a.key, if q.NoQuantifier? then None else Some(QuantifierName(q)), OperatorName(op),
                 braces, WordsOf(values))
  }

  /** Trees the parser can produce: literals that can be written, keys as the lexer trims them,
      values present, and a set wherever there is a quantifier. */
  predicate Sane(rd: Reader, n: Node) {
    match n
    case And(l, r) => Sane(rd, l) && Sane(rd, r)
    case Or(l, r) => Sane(rd, l) && Sane(rd, r)
    case Not(inner) => Sane(rd, inner)
    case _ => SaneLeaf(rd, n)
  }

  predicate SaneLeaf(rd: Reader, n: Node) {
    match n
    case Action(pattern, _) => Printable(Quoted(pattern))
    case Exists(a) => Printable(Attr(a.src, a.key))
    case Compare(a, q, _, values, braces) =>
      && Printable(Attr(a.src, a.key))
      && |values| >= 1 && (!braces ==> |values| == 1) && (!q.NoQuantifier? ==> braces)
      && forall i :: 0 <= i < |values| ==> SaneLiteral(rd, values[i])
    case _ => false
  }

  predicate SaneLiteral(rd: Reader, lit: Literal) {
    match lit
    case StringLit(t) => Printable(Quoted(t))
    case NumberLit(t) => Printable(Number(t)) && rd.number(t).Some?
    case BoolLit(_) => true
  }

  predicate AllPrintable(ks: seq<Kind>) {
    forall i :: 0 <= i < |ks| ==> Printable(ks[i])
  }

  lemma PrintableAppend(a: seq<Kind>, b: seq<Kind>)
    ensures AllPrintable(a + b) <==> AllPrintable(a) && AllPrintable(b)
  {
    hide Printable;
    if AllPrintable(a + b) {
      assert forall i :: 0 <= i < |a| ==> a[i] == (a + b)[i];
      assert forall i :: 0 <= i < |b| ==> b[i] == (a + b)[|a| + i];
    }
  }

  /** A name built from letters only is a printable word. */
  lemma LettersPrint(t: string)
    requires t != "" && Letters(t)
    ensures Printable(Ident(t))
  {}

  predicate Letters(t: string) {
    forall i :: 0 <= i < |t| ==> 'a' <= t[i] <= 'z' || 'A' <= t[i] <= 'Z'
  }

  lemma LettersAppend(a: string, b: string)
    requires Letters(a) && Letters(b)
    ensures Letters(a + b)
  {}

  lemma TestLetters(negated: bool, t: StringTest)
    ensures Letters(NotName(negated)) && Letters(TestName(t))
  {}

  lemma OrderLetters(o: Order)
    ensures Letters(OrderName(o))
  {}

  lemma HeadLetters()
    ensures Letters("String") && Letters("Numeric") && Letters("DateTime")
    ensures Letters("Bool") && Letters("Guid") && Letters("Equals")
  {}

  lemma OperatorLetters(op: Operator)
    ensures OperatorName(op) != "" && Letters(OperatorName(op))
  {
    hide Letters, NotName, TestName, OrderName;
    HeadLetters();
    match op {
      case Text(negated, t) =>
        TestLetters(negated, t);
        LettersAppend(NotName(negated), TestName(t));
        LettersAppend("String", NotName(negated) + TestName(t));
      case Numeric(o) =>
        OrderLetters(o);
        LettersAppend("Numeric", OrderName(o));
      case DateTime(o) =>
        OrderLetters(o);
        LettersAppend("DateTime", OrderName(o));
      case Flag(negated) =>
        TestLetters(negated, Like);
        LettersAppend(NotName(negated), "Equals");
        LettersAppend("Bool", NotName(negated) + "Equals");
      case Guid(negated) =>
        TestLetters(negated, Like);
        LettersAppend(NotName(negated), "Equals");
        LettersAppend("Guid", NotName(negated) + "Equals");
    }
  }

  lemma QuantifierLetters(q: Quantifier)
    requires !q.NoQuantifier?
    ensures QuantifierName(q) != "" && Letters(QuantifierName(q))
  {}

  lemma {:induction false} ItemsPrintable(items: seq<Kind>)
    requires AllPrintable(items)
    ensures AllPrintable(YieldItems(items))
  {
    if |items| > 1 {
      ItemsPrintable(items[1..]);
      PrintableAppend([Punct(',')], YieldItems(items[1..]));
      PrintableAppend([items[0]], [Punct(',')] + YieldItems(items[1..]));
    }
  }

  lemma ValuesPrintable(braces: bool, items: seq<Kind>)
    requires AllPrintable(items)
    ensures AllPrintable(YieldValues(braces, items))
  {
    hide YieldItems;
    if braces {
      ItemsPrintable(items);
      PrintableAppend(YieldItems(items), [Punct('}')]);
      PrintableAppend([Punct('{')], YieldItems(items) + [Punct('}')]);
    }
  }

  lemma WordsPrintable(rd: Reader, values: seq<Literal>)
    requires forall i :: 0 <= i < |values| ==> SaneLiteral(rd, values[i])
    ensures AllPrintable(WordsOf(values))
    ensures forall i :: 0 <= i < |values| ==>
            IsValue(rd, WordsOf(values)[i]) && ValueOf(WordsOf(values)[i]) == values[i]
  {
    forall i | 0 <= i < |values|
      ensures Printable(WordOf(values[i])) && IsValue(rd, WordOf(values[i])) && ValueOf(WordOf(values[i])) == values[i]
    {
      WordPrintable(rd, values[i]);
    }
  }

  lemma WordPrintable(rd: Reader, lit: Literal)
    requires SaneLiteral(rd, lit)
    ensures Printable(WordOf(lit)) && IsValue(rd, WordOf(lit)) && ValueOf(WordOf(lit)) == lit
  {
    if lit.BoolLit? {
      assert Lower("true") == "true" && Lower("false") == "false";
    }
  }

  lemma KeywordsPrint()
    ensures Printable(Ident("AND")) && Printable(Ident("OR")) && Printable(Ident("Exists"))
  {}

  lemma MatchersPrint()
    ensures Printable(Ident("ActionMatches")) && Printable(Ident("SubOperationMatches"))
  {}

  lemma SubIsNotAction()
    ensures !EqualFold("ActionMatches", "SubOperationMatches")
  {
    assert |Lower("ActionMatches")| != |Lower("SubOperationMatches")|;
  }

  lemma CanonLeafFaithful(rd: Reader, n: Node)
    requires SaneLeaf(rd, n)
    ensures ValidPredicate(rd, CanonLeaf(n)) && TreePredicate(CanonLeaf(n)) == n
    ensures AllPrintable(YieldPredicate(CanonLeaf(n)))
  {
    match n {
      case Action(pattern, sub) => CanonActionFaithful(rd, n);
      case Exists(a) =>
        KeywordsPrint();
        SameFold("Exists");
        hide Printable, EqualFold;
      case Compare(a, q, op, values, braces) => CanonCompareFaithful(rd, n);
    }
  }

  lemma CanonActionFaithful(rd: Reader, n: Node)
    requires n.Action? && SaneLeaf(rd, n)
    ensures ValidPredicate(rd, CanonLeaf(n)) && TreePredicate(CanonLeaf(n)) == n
    ensures AllPrintable(YieldPredicate(CanonLeaf(n)))
  {
    MatchersPrint();
    PunctPrints();
    SubIsNotAction();
    SameFold("ActionMatches");
    SameFold("SubOperationMatches");
    hide Printable, EqualFold;
  }

  lemma CanonCompareFaithful(rd: Reader, n: Node)
    requires n.Compare? && SaneLeaf(rd, n)
    ensures ValidPredicate(rd, CanonLeaf(n)) && TreePredicate(CanonLeaf(n)) == n
    ensures AllPrintable(YieldPredicate(CanonLeaf(n)))
  {
    hide OperatorName, OperatorOf, QuantifierName, QuantifierOf, Lower, Printable, SaneLiteral, IsValue, YieldValues,
      Letters;
    var p := CanonLeaf(n);
    WordsPrintable(rd, n.values);
    OperatorRoundTrip(n.op);
    OperatorLetters(n.op);
    LettersPrint(OperatorName(n.op));
    ValuesPrintable(n.braces, p.items);
    PrintableAppend([Ident(p.op)], YieldValues(n.braces, p.items));
    if !n.quant.NoQuantifier? {
      QuantifierRoundTrip(n.quant);
      QuantifierLetters(n.quant);
      LettersPrint(QuantifierName(n.quant));
      PunctPrints();
    }
    PrintableAppend(YieldQuantifier(p.quant), [Ident(p.op)] + YieldValues(n.braces, p.items));
    PrintableAppend([Attr(p.src, p.key)], YieldQuantifier(p.quant) + ([Ident(p.op)] + YieldValues(n.braces, p.items)));
    assert Values(p.items) == n.values;
  }

  lemma PunctPrints()
    ensures Printable(Punct(':')) && Printable(Punct('(')) && Printable(Punct(')')) && Printable(Punct('!'))
    ensures Printable(Punct('{')) && Printable(Punct('}')) && Printable(Punct(','))
  {}

  lemma GroupPrintable(e: OrExpr)
    requires AllPrintable(YieldOr(e))
    ensures AllPrintable(YieldUnary(Group(e))) && AllPrintable(YieldUnary(Negation(e)))
  {
    hide YieldOr, Printable;
    PunctPrints();
    PrintableAppend(YieldOr(e), [Punct(')')]);
    PrintableAppend([Punct('(')], YieldOr(e) + [Punct(')')]);
    PrintableAppend([Punct('!')], [Punct('(')] + (YieldOr(e) + [Punct(')')]));
  }

  /** A unary expression seen as a whole expression. */
  lemma Lift(rd: Reader, u: Unary)
    requires ValidUnary(rd, u)
    ensures ValidAnd(rd, OneUnary(u)) && ValidOr(rd, OneAnd(OneUnary(u)))
    ensures YieldAnd(OneUnary(u)) == YieldUnary(u) && YieldOr(OneAnd(OneUnary(u))) == YieldUnary(u)
    ensures TreeAnd(OneUnary(u)) == TreeUnary(u) && TreeOr(OneAnd(OneUnary(u))) == TreeUnary(u)
  {
    hide ValidUnary, YieldUnary, TreeUnary;
  }

  lemma GroupMeans(rd: Reader, e: OrExpr)
    requires ValidOr(rd, e)
    ensures ValidUnary(rd, Group(e)) && TreeUnary(Group(e)) == TreeOr(e)
    ensures ValidUnary(rd, Negation(e)) && TreeUnary(Negation(e)) == Not(TreeOr(e))
  {
    hide ValidOr, TreeOr;
  }

  function Both(l: OrExpr, r: OrExpr): OrExpr {
    OneAnd(MoreAnd(OneUnary(Group(l)), "AND", Group(r)))
  }

  function Either(l: OrExpr, r: OrExpr): OrExpr {
    MoreOr(OneAnd(OneUnary(Group(l))), "OR", OneUnary(Group(r)))
  }

  lemma BothFaithful(rd: Reader, l: OrExpr, r: OrExpr)
    requires ValidOr(rd, l) && ValidOr(rd, r)
    ensures ValidOr(rd, Both(l, r)) && TreeOr(Both(l, r)) == And(TreeOr(l), TreeOr(r))
    ensures YieldOr(Both(l, r)) == YieldUnary(Group(l)) + ([Ident("AND")] + YieldUnary(Group(r)))
  {
    hide YieldUnary, ValidUnary, TreeUnary, EqualFold;
    SameFold("AND");
    GroupMeans(rd, l);
    GroupMeans(rd, r);
    Lift(rd, Group(l));
    var a := MoreAnd(OneUnary(Group(l)), "AND", Group(r));
    assert ValidAnd(rd, a) && TreeAnd(a) == And(TreeOr(l), TreeOr(r));
    assert YieldAnd(a) == YieldUnary(Group(l)) + ([Ident("AND")] + YieldUnary(Group(r)));
  }

  lemma EitherFaithful(rd: Reader, l: OrExpr, r: OrExpr)
    requires ValidOr(rd, l) && ValidOr(rd, r)
    ensures ValidOr(rd, Either(l, r)) && TreeOr(Either(l, r)) == Or(TreeOr(l), TreeOr(r))
    ensures YieldOr(Either(l, r)) == YieldUnary(Group(l)) + ([Ident("OR")] + YieldUnary(Group(r)))
  {
    hide YieldUnary, ValidUnary, TreeUnary, EqualFold, YieldAnd, ValidAnd, TreeAnd;
    SameFold("OR");
    GroupMeans(rd, l);
    GroupMeans(rd, r);
    Lift(rd, Group(l));
    Lift(rd, Group(r));
  }

  lemma JoinPrintable(l: OrExpr, kw: string, r: OrExpr)
    requires AllPrintable(YieldOr(l)) && AllPrintable(YieldOr(r)) && Printable(Ident(kw))
    ensures AllPrintable(YieldUnary(Group(l)) + ([Ident(kw)] + YieldUnary(Group(r))))
  {
    hide Printable, YieldOr, YieldUnary;
    GroupPrintable(l);
    GroupPrintable(r);
    PrintableAppend([Ident(kw)], YieldUnary(Group(r)));
    PrintableAppend(YieldUnary(Group(l)), [Ident(kw)] + YieldUnary(Group(r)));
  }

  /** The canonical derivation is one, means the tree, and can be written down. */
  lemma {:induction false} CanonFaithful(rd: Reader, n: Node)
    requires Sane(rd, n)
    ensures ValidOr(rd, Canon(n)) && TreeOr(Canon(n)) == n && AllPrintable(YieldOr(Canon(n)))
  {
    hide Printable, SaneLeaf, CanonLeaf, ValidOr, TreeOr, YieldOr, AllPrintable;
    match n {
      case And(l, r) =>
        CanonFaithful(rd, l);
        CanonFaithful(rd, r);
        KeywordsPrint();
        BothFaithful(rd, Canon(l), Canon(r));
        JoinPrintable(Canon(l), "AND", Canon(r));
      case Or(l, r) =>
        CanonFaithful(rd, l);
        CanonFaithful(rd, r);
        KeywordsPrint();
        EitherFaithful(rd, Canon(l), Canon(r));
        JoinPrintable(Canon(l), "OR", Canon(r));
      case Not(inner) =>
        CanonFaithful(rd, inner);
        GroupMeans(rd, Canon(inner));
        GroupPrintable(Canon(inner));
        Lift(rd, Negation(Canon(inner)));
      case _ =>
        CanonLeafFaithful(rd, n);
        Lift(rd, Leaf(CanonLeaf(n)));
    }
  }

  lemma SameFold(s: string)
    ensures EqualFold(s, s)
  {}

  /** Any derivation, whatever its words' case and its parentheses, printed with any spacing,
      parses to its tree. */
  lemma DerivationParses(rd: Reader, d: OrExpr, gaps: seq<string>)
    requires ValidOr(rd, d) && AllPrintable(YieldOr(d))
    requires |gaps| == |YieldOr(d)| && Separated(YieldOr(d), gaps)
    ensures Parse(rd, Print(YieldOr(d), gaps)) == Ok(TreeOr(d))
  {
    hide YieldOr, TreeOr, ValidOr, Tiles, LexFrom, Print, Separated, TokensOf;
    var ks := YieldOr(d);
    LexPrint(ks, gaps);
    var toks, src := TokensOf(ks, gaps, 0), Print(ks, gaps);
    LexExactIff(src, toks);
    assert Derives(rd, d, toks);
    ParseIff(rd, src, TreeOr(d));
  }

  /** A tree printed with any spacing parses back to exactly itself. */
  lemma PrintParses(rd: Reader, n: Node, gaps: seq<string>)
    requires Sane(rd, n)
    requires |gaps| == |YieldOr(Canon(n))| && Separated(YieldOr(Canon(n)), gaps)
    ensures Parse(rd, Print(YieldOr(Canon(n)), gaps)) == Ok(n)
  {
    hide Canon, YieldOr, TreeOr, ValidOr, Parse, Print, Separated, Sane;
    CanonFaithful(rd, n);
    DerivationParses(rd, Canon(n), gaps);
  }

  // ---- what parsing can produce ----

  lemma {:induction false} TrimLeftKeeps(s: string)
    ensures forall c :: c in TrimLeft(s) ==> c in s
    ensures s != "" && !IsSpace(s[|s| - 1]) ==> TrimLeft(s) != "" && TrimLeft(s)[|TrimLeft(s)| - 1] == s[|s| - 1]
  {
    if s != [] && IsSpace(s[0]) {
      TrimLeftKeeps(s[1..]);
    }
  }

  lemma {:induction false} TrimRightKeeps(s: string)
    ensures forall c :: c in TrimRight(s) ==> c in s
    ensures TrimRight(s) != "" ==> !IsSpace(TrimRight(s)[|TrimRight(s)| - 1]) && TrimRight(s)[0] == s[0]
  {
    if s != [] && IsSpace(s[|s| - 1]) {
      TrimRightKeeps(s[..|s| - 1]);
    }
  }

  lemma TrimIdempotent(s: string)
    ensures TrimSpace(TrimSpace(s)) == TrimSpace(s)
    ensures forall c :: c in TrimSpace(s) ==> c in s
  {
    var l, t := TrimLeft(s), TrimSpace(s);
    TrimLeftKeeps(s);
    TrimRightKeeps(l);
    TrimLeftHead(s);
    if t != "" {
      assert !IsSpace(t[0]) && !IsSpace(t[|t| - 1]);
      assert TrimLeft(t) == t && TrimRight(t) == t;
    }
  }

  lemma SpelledIsPrintable(text: string, k: Kind)
    requires Spells(text, k)
    ensures Printable(k)
  {
    hide TrimSpace, SourceOf, Lower;
    match k {
      case Attr(src, key) =>
        var a, b :| SpellsAttribute(text, src, key, a, b);
        TrimIdempotent(b);
      case _ =>
    }
  }

  lemma {:induction false} TilesPrintable(s: string, from: nat, toks: seq<Token>)
    requires Tiles(s, from, toks)
    ensures forall i :: 0 <= i < |toks| - 1 ==> Printable(toks[i].kind)
    decreases |toks|
  {
    hide Spells, Munched, Printable;
    if |toks| > 1 {
      var end: nat :| TokenAt(s, toks[0], end) && Tiles(s, end, toks[1..]);
      SpelledIsPrintable(s[toks[0].pos..end], toks[0].kind);
      TilesPrintable(s, end, toks[1..]);
      assert forall i :: 1 <= i < |toks| ==> toks[i] == toks[1..][i - 1];
    }
  }

  lemma {:induction false} ItemsOfYield(items: seq<Kind>)
    requires AllPrintable(YieldItems(items))
    ensures AllPrintable(items)
  {
    hide Printable;
    if |items| > 1 {
      PrintableAppend([items[0]], [Punct(',')] + YieldItems(items[1..]));
      PrintableAppend([Punct(',')], YieldItems(items[1..]));
      ItemsOfYield(items[1..]);
      assert [items[0]][0] == items[0];
      assert forall i :: 1 <= i < |items| ==> items[i] == items[1..][i - 1];
    }
  }

  lemma ValueSane(rd: Reader, k: Kind)
    requires IsValue(rd, k) && Printable(k)
    ensures SaneLiteral(rd, ValueOf(k))
  {}

  lemma ComparisonSane(rd: Reader, p: Predicate)
    requires p.Comparison? && ValidPredicate(rd, p) && AllPrintable(YieldPredicate(p))
    ensures SaneLeaf(rd, TreePredicate(p))
  {
    hide Printable, IsValue, ValueOf, SaneLiteral, OperatorOf, QuantifierOf, Lower;
    var q, v := YieldQuantifier(p.quant), YieldValues(p.braces, p.items);
    PrintableAppend([Attr(p.src, p.key)], q + ([Ident(p.op)] + v));
    assert [Attr(p.src, p.key)][0] == Attr(p.src, p.key);
    PrintableAppend(q, [Ident(p.op)] + v);
    PrintableAppend([Ident(p.op)], v);
    if p.braces {
      PrintableAppend([Punct('{')], YieldItems(p.items) + [Punct('}')]);
      PrintableAppend(YieldItems(p.items), [Punct('}')]);
      ItemsOfYield(p.items);
    }
    forall i | 0 <= i < |p.items| ensures SaneLiteral(rd, ValueOf(p.items[i])) {
      ValueSane(rd, p.items[i]);
    }
  }

  lemma PredicateSane(rd: Reader, p: Predicate)
    requires ValidPredicate(rd, p) && AllPrintable(YieldPredicate(p))
    ensures Sane(rd, TreePredicate(p))
  {
    hide Printable;
    match p {
      case Matching(kw, pattern) => assert YieldPredicate(p)[2] == Quoted(pattern);
      case Existence(kw, src, key) => assert YieldPredicate(p)[1] == Attr(src, key);
      case Comparison(_, _, _, _, _, _) => ComparisonSane(rd, p);
    }
  }

  lemma {:induction false} UnarySane(rd: Reader, d: Unary)
    requires ValidUnary(rd, d) && AllPrintable(YieldUnary(d))
    ensures Sane(rd, TreeUnary(d))
    decreases d
  {
    hide Printable, ValidOr, TreeOr, YieldOr, ValidPredicate, YieldPredicate, TreePredicate;
    match d {
      case Negation(e) =>
        PrintableAppend([Punct('!')], [Punct('(')] + (YieldOr(e) + [Punct(')')]));
        PrintableAppend([Punct('(')], YieldOr(e) + [Punct(')')]);
        PrintableAppend(YieldOr(e), [Punct(')')]);
        OrSane(rd, e);
      case Group(e) =>
        PrintableAppend([Punct('(')], YieldOr(e) + [Punct(')')]);
        PrintableAppend(YieldOr(e), [Punct(')')]);
        OrSane(rd, e);
      case Leaf(p) => PredicateSane(rd, p);
    }
  }

  lemma {:induction false} AndSane(rd: Reader, d: AndExpr)
    requires ValidAnd(rd, d) && AllPrintable(YieldAnd(d))
    ensures Sane(rd, TreeAnd(d))
    decreases d
  {
    hide Printable, ValidUnary, TreeUnary, YieldUnary, EqualFold;
    match d {
      case OneUnary(u) => UnarySane(rd, u);
      case MoreAnd(start, kw, u) =>
        PrintableAppend(YieldAnd(start), [Ident(kw)] + YieldUnary(u));
        PrintableAppend([Ident(kw)], YieldUnary(u));
        AndSane(rd, start);
        UnarySane(rd, u);
    }
  }

  lemma {:induction false} OrSane(rd: Reader, d: OrExpr)
    requires ValidOr(rd, d) && AllPrintable(YieldOr(d))
    ensures Sane(rd, TreeOr(d))
    decreases d
  {
    hide Printable, ValidAnd, TreeAnd, YieldAnd, EqualFold;
    match d {
      case OneAnd(a) => AndSane(rd, a);
      case MoreOr(init, kw, a) =>
        PrintableAppend(YieldOr(init), [Ident(kw)] + YieldAnd(a));
        PrintableAppend([Ident(kw)], YieldAnd(a));
        OrSane(rd, init);
        AndSane(rd, a);
    }
  }

  lemma ParsedIsSane(rd: Reader, src: string, n: Node)
    requires Parse(rd, src) == Ok(n)
    ensures Sane(rd, n)
  {
    hide Parse, YieldOr, TreeOr, ValidOr, Tiles, Sane, Printable;
    ParseIff(rd, src, n);
    var toks: seq<Token>, d: OrExpr :| Tiles(src, 0, toks) && Derives(rd, d, toks) && TreeOr(d) == n;
    TilesPrintable(src, 0, toks);
    assert forall i :: 0 <= i < |YieldOr(d)| ==> toks[0 + i].kind == YieldOr(d)[i];
    OrSane(rd, d);
  }

  /** Single spaces between words. */
  function Spaces(n: nat): (gaps: seq<string>)
    ensures |gaps| == n && forall i :: 0 <= i < n ==> gaps[i] == " "
  {
    seq(n, _ => " ")
  }

  lemma {:induction false} SpacesSeparate(ks: seq<Kind>, gaps: seq<string>)
    requires |gaps| == |ks| && forall i :: 0 <= i < |gaps| ==> gaps[i] == " "
    ensures Separated(ks, gaps)
    decreases |ks|
  {
    if ks != [] {
      SpacesSeparate(ks[1..], gaps[1..]);
      assert IsGap(' ');
      GapEndsWord(ks[0], gaps[0] + Print(ks[1..], gaps[1..]));
    }
  }

  function Render(n: Node): string {
    Print(YieldOr(Canon(n)), Spaces(|YieldOr(Canon(n))|))
  }

  /** The trees Parse can return are exactly the sane ones. */
  lemma ParseImageIff(rd: Reader, n: Node)
    ensures (exists src :: Parse(rd, src) == Ok(n)) <==> Sane(rd, n)
  {
    hide Parse, Sane, YieldOr, Canon, Print;
    if src :| Parse(rd, src) == Ok(n) {
      ParsedIsSane(rd, src, n);
    }
    if Sane(rd, n) {
      SpacesSeparate(YieldOr(Canon(n)), Spaces(|YieldOr(Canon(n))|));
      PrintParses(rd, n, Spaces(|YieldOr(Canon(n))|));
      assert Parse(rd, Render(n)) == Ok(n);
    }
  }

  /** Any condition may be rewritten in canonical form, with any spacing, without changing how
      it is read. */
  lemma RewritingIsFaithful(rd: Reader, src: string, gaps: seq<string>)
    requires Parse(rd, src).Ok?
    requires var ks := YieldOr(Canon(Parse(rd, src).value));
             |gaps| == |ks| && Separated(ks, gaps)
    ensures Parse(rd, Print(YieldOr(Canon(Parse(rd, src).value)), gaps)) == Parse(rd, src)
  {
    hide Parse, Sane, YieldOr, Canon, Print, Separated;
    ParsedIsSane(rd, src, Parse(rd, src).value);
    PrintParses(rd, Parse(rd, src).value, gaps);
  }
}
