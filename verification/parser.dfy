/** internal/abac/parse.go, the parser: recursive descent over tokens with one mutable cursor. */
module Parser {
  import opened Text
  import opened Conditions
  import opened Lexer

  /** Success with the cursor after it, or failure. */
  datatype Parsed<+T> = Good(value: T, next: nat) | Fail(error: ParseError)

  /** One EOF token, at the end: the cursor can never leave the list. */
  ghost predicate Framed(toks: seq<Token>) {
    && toks != [] && toks[|toks| - 1].kind.EOF?
    && forall i :: 0 <= i < |toks| - 1 ==> !toks[i].kind.EOF?
  }

  predicate IsKeyword(t: Token, word: string) {
    t.kind.Ident? && EqualFold(t.kind.text, word)
  }

  predicate IsPunct(t: Token, ch: char) {
    t.kind == Punct(ch)
  }

  // ---- what the parser computes, as functions of the cursor ----

  function ExpectPunct(toks: seq<Token>, i: nat, ch: char): (r: Parsed<()>)
    requires Framed(toks) && i < |toks|
    ensures r.Good? ==> r.next == i + 1 < |toks|
  {
    if IsPunct(toks[i], ch) then Good((), i + 1) else Fail(ParseError(toks[i].pos, Complaint.ExpectedPunct(ch)))
  }

  function ParseLiteral(rd: Reader, toks: seq<Token>, i: nat): (r: Parsed<Literal>)
    requires Framed(toks) && i < |toks|
    ensures r.Good? ==> r.next == i + 1 < |toks|
  {
    match toks[i].kind
    case Quoted(t) => Good(StringLit(t), i + 1)
    case Number(t) =>
      if rd.number(t).Some? then Good(NumberLit(t), i + 1) else Fail(ParseError(toks[i].pos, NotANumber))
    case _ =>
      if IsKeyword(toks[i], "true") || IsKeyword(toks[i], "false") then
        Good(BoolLit(IsKeyword(toks[i], "true")), i + 1)
      else Fail(ParseError(toks[i].pos, ExpectedValue))
  }

  /** The comma-separated values from i, after those already read. */
  function ParseItems(rd: Reader, toks: seq<Token>, i: nat, values: seq<Literal>): (r: Parsed<seq<Literal>>)
    requires Framed(toks) && i < |toks|
    ensures r.Good? ==> i < r.next < |toks| && |r.value| > |values|
    decreases |toks| - i
  {
    match ParseLiteral(rd, toks, i)
    case Fail(e) => Fail(e)
    case Good(lit, j) =>
      if IsPunct(toks[j], ',') then ParseItems(rd, toks, j + 1, values + [lit])
      else Good(values + [lit], j)
  }

  function ParseValues(rd: Reader, toks: seq<Token>, i: nat): (r: Parsed<(bool, seq<Literal>)>)
    requires Framed(toks) && i < |toks|
    ensures r.Good? ==> i < r.next < |toks| && |r.value.1| > 0
  {
    if IsPunct(toks[i], '{') then
      match ParseItems(rd, toks, i + 1, [])
      case Fail(e) => Fail(e)
      case Good(values, j) =>
        match ExpectPunct(toks, j, '}') case Fail(e) => Fail(e) case Good(_, k) => Good((true, values), k)
    else
      match ParseLiteral(rd, toks, i) case Fail(e) => Fail(e) case Good(lit, j) => Good((false, [lit]), j)
  }

  /** An optional `Quantifier:` before the operator. */
  function ParseQuantifier(toks: seq<Token>, i: nat): (r: Parsed<Quantifier>)
    requires Framed(toks) && i < |toks|
    ensures r.Good? ==> i <= r.next < |toks|
  {
    var q := if toks[i].kind.Ident? then QuantifierOf(Lower(toks[i].kind.text)) else NoQuantifier;
    if q.NoQuantifier? then Good(q, i)
    else match ExpectPunct(toks, i + 1, ':') case Fail(e) => Fail(e) case Good(_, j) => Good(q, j)
  }

  function ParseComparison(rd: Reader, toks: seq<Token>, i: nat): (r: Parsed<Node>)
    requires Framed(toks) && i < |toks|
    ensures r.Good? ==> i < r.next < |toks|
  {
    if !toks[i].kind.Attr? then Fail(ParseError(toks[i].pos, ExpectedAttribute))
    else
      match ParseQuantifier(toks, i + 1)
      case Fail(e) => Fail(e)
      case Good(q, j) =>
        var op := if toks[j].kind.Ident? then OperatorOf(Lower(toks[j].kind.text)) else None;
        if op.None? then Fail(ParseError(toks[j].pos, ExpectedOperator))
        else
          match ParseValues(rd, toks, j + 1)
          case Fail(e) => Fail(e)
          case Good((braces, values), k) =>
            if !q.NoQuantifier? && !braces then Fail(ParseError(toks[j].pos, QuantifierNeedsSet))
            else Good(Compare(Ref(toks[i].kind.src, toks[i].kind.key), q, op.value, values, braces), k)
  }

  function ParseMatches(toks: seq<Token>, i: nat): (r: Parsed<Node>)
    requires Framed(toks) && i < |toks| && toks[i].kind.Ident?
    ensures r.Good? ==> i < r.next < |toks|
  {
    match ExpectPunct(toks, i + 1, '{')
    case Fail(e) => Fail(e)
    case Good(_, j) =>
      if !toks[j].kind.Quoted? then Fail(ParseError(toks[j].pos, MatchesNeedsString))
      else
        match ExpectPunct(toks, j + 1, '}')
        case Fail(e) => Fail(e)
        case Good(_, k) => Good(Action(toks[j].kind.text, IsKeyword(toks[i], "SubOperationMatches")), k)
  }

  function ParsePredicate(rd: Reader, toks: seq<Token>, i: nat): (r: Parsed<Node>)
    requires Framed(toks) && i < |toks|
    ensures r.Good? ==> i < r.next < |toks|
  {
    var t := toks[i];
    if t.kind.Ident? then
      if IsKeyword(t, "ActionMatches") || IsKeyword(t, "SubOperationMatches") then ParseMatches(toks, i)
      else if IsKeyword(t, "Exists") then
        var a := toks[i + 1];
        if a.kind.Attr? then Good(Exists(Ref(a.kind.src, a.kind.key)), i + 2)
        else Fail(ParseError(a.pos, ExistsNeedsAttribute))
      else if !QuantifierOf(Lower(t.kind.text)).NoQuantifier? then Fail(ParseError(t.pos, QuantifierBelongsAfter))
      else Fail(ParseError(t.pos, UnknownKeyword))
    else ParseComparison(rd, toks, i)
  }

  /** `( … )` with the cursor already past the opening parenthesis. */
  function ParseClosed(rd: Reader, toks: seq<Token>, i: nat): (r: Parsed<Node>)
    requires Framed(toks) && i < |toks|
    ensures r.Good? ==> i < r.next < |toks|
    decreases |toks| - i, 4
  {
    match ParseOr(rd, toks, i)
    case Fail(e) => Fail(e)
    case Good(inner, j) =>
      match ExpectPunct(toks, j, ')') case Fail(e) => Fail(e) case Good(_, k) => Good(inner, k)
  }

  function ParseUnary(rd: Reader, toks: seq<Token>, i: nat): (r: Parsed<Node>)
    requires Framed(toks) && i < |toks|
    ensures r.Good? ==> i < r.next < |toks|
    decreases |toks| - i, 1
  {
    if IsPunct(toks[i], '!') then
      match ExpectPunct(toks, i + 1, '(')
      case Fail(e) => Fail(e)
      case Good(_, j) =>
        match ParseClosed(rd, toks, j) case Fail(e) => Fail(e) case Good(inner, k) => Good(Not(inner), k)
    else if IsPunct(toks[i], '(') then ParseClosed(rd, toks, i + 1)
    else ParsePredicate(rd, toks, i)
  }

  function ParseAnd(rd: Reader, toks: seq<Token>, i: nat): (r: Parsed<Node>)
    requires Framed(toks) && i < |toks|
    ensures r.Good? ==> i < r.next < |toks|
    decreases |toks| - i, 2
  {
    match ParseUnary(rd, toks, i) case Fail(e) => Fail(e) case Good(left, j) => AndTail(rd, toks, j, left)
  }

  function AndTail(rd: Reader, toks: seq<Token>, j: nat, left: Node): (r: Parsed<Node>)
    requires Framed(toks) && j < |toks|
    ensures r.Good? ==> j <= r.next < |toks|
    decreases |toks| - j, 0
  {
    if IsKeyword(toks[j], "AND") then
      match ParseUnary(rd, toks, j + 1)
      case Fail(e) => Fail(e)
      case Good(right, k) => AndTail(rd, toks, k, And(left, right))
    else Good(left, j)
  }

  function ParseOr(rd: Reader, toks: seq<Token>, i: nat): (r: Parsed<Node>)
    requires Framed(toks) && i < |toks|
    ensures r.Good? ==> i < r.next < |toks|
    decreases |toks| - i, 3
  {
    match ParseAnd(rd, toks, i) case Fail(e) => Fail(e) case Good(left, j) => OrTail(rd, toks, j, left)
  }

  function OrTail(rd: Reader, toks: seq<Token>, j: nat, left: Node): (r: Parsed<Node>)
    requires Framed(toks) && j < |toks|
    ensures r.Good? ==> j <= r.next < |toks|
    decreases |toks| - j, 0
  {
    if IsKeyword(toks[j], "OR") then
      match ParseAnd(rd, toks, j + 1)
      case Fail(e) => Fail(e)
      case Good(right, k) => OrTail(rd, toks, k, Or(left, right))
    else Good(left, j)
  }

  function ParseTokens(rd: Reader, toks: seq<Token>): Result<Node>
    requires Framed(toks)
  {
    match ParseOr(rd, toks, 0)
    case Fail(e) => Err(e)
    case Good(root, j) => if toks[j].kind.EOF? then Ok(root) else Err(ParseError(toks[j].pos, TrailingInput))
  }

  function Parse(rd: Reader, src: string): Result<Node> {
    if TrimSpace(src) == "" then Err(ParseError(0, EmptyCondition))
    else match Lex(src)
      case Err(e) => Err(e)
      case Ok(toks) =>
        LexWellFormed(src);
        ParseTokens(rd, toks)
  }
}
