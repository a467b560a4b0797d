/** What a refused condition is told: the complaint stands at the first word no condition could go
    on with, and names one that could. */
module ParseErrors {
  import opened Text
  import opened Conditions
  import opened Lexer
  import opened Grammar
  import opened Parser
  import opened Parsing
  import opened ConditionText
  import opened Rendering
  import opened Joining

  // ---- parsing looks no further than the word after what it took ----

  ghost predicate Agree(toks: seq<Token>, other: seq<Token>, n: nat) {
    n <= |toks| && n <= |other| && forall j :: 0 <= j < n ==> toks[j] == other[j]
  }

  lemma {:induction false} ItemsSame(rd: Reader, toks: seq<Token>, other: seq<Token>, i: nat, values: seq<Literal>)
    requires Framed(toks) && Framed(other) && i < |toks| && ParseItems(rd, toks, i, values).Good?
    requires Agree(toks, other, ParseItems(rd, toks, i, values).next + 1)
    ensures i < |other| && ParseItems(rd, other, i, values) == ParseItems(rd, toks, i, values)
    decreases |toks| - i
  {
    hide EqualFold;
    assert ParseLiteral(rd, toks, i) == ParseLiteral(rd, other, i);
    if IsPunct(toks[i + 1], ',') {
      ItemsSame(rd, toks, other, i + 2, values + [ParseLiteral(rd, toks, i).value]);
    }
  }

  lemma ValuesSame(rd: Reader, toks: seq<Token>, other: seq<Token>, i: nat)
    requires Framed(toks) && Framed(other) && i < |toks| && ParseValues(rd, toks, i).Good?
    requires Agree(toks, other, ParseValues(rd, toks, i).next + 1)
    ensures i < |other| && ParseValues(rd, other, i) == ParseValues(rd, toks, i)
  {
    hide EqualFold, ParseItems;
    if IsPunct(toks[i], '{') {
      ItemsSame(rd, toks, other, i + 1, []);
    }
  }

  lemma ComparisonSame(rd: Reader, toks: seq<Token>, other: seq<Token>, i: nat)
    requires Framed(toks) && Framed(other) && i < |toks| && ParseComparison(rd, toks, i).Good?
    requires Agree(toks, other, ParseComparison(rd, toks, i).next + 1)
    ensures i < |other| && ParseComparison(rd, other, i) == ParseComparison(rd, toks, i)
  {
    hide ParseValues, OperatorOf, QuantifierOf, Lower;
    var j := ParseQuantifier(toks, i + 1).next;
    assert ParseQuantifier(other, i + 1) == ParseQuantifier(toks, i + 1);
    ValuesSame(rd, toks, other, j + 1);
  }

  lemma PredicateSame(rd: Reader, toks: seq<Token>, other: seq<Token>, i: nat)
    requires Framed(toks) && Framed(other) && i < |toks| && ParsePredicate(rd, toks, i).Good?
    requires Agree(toks, other, ParsePredicate(rd, toks, i).next + 1)
    ensures i < |other| && ParsePredicate(rd, other, i) == ParsePredicate(rd, toks, i)
  {
    hide ParseComparison, EqualFold, QuantifierOf, Lower;
    if !toks[i].kind.Ident? {
      ComparisonSame(rd, toks, other, i);
    }
  }

  lemma {:induction false} ClosedSame(rd: Reader, toks: seq<Token>, other: seq<Token>, i: nat)
    requires Framed(toks) && Framed(other) && i < |toks| && ParseClosed(rd, toks, i).Good?
    requires Agree(toks, other, ParseClosed(rd, toks, i).next + 1)
    ensures i < |other| && ParseClosed(rd, other, i) == ParseClosed(rd, toks, i)
    decreases |toks| - i, 4
  {
    hide ParseOr;
    OrSame(rd, toks, other, i);
  }

  lemma {:induction false} UnarySame(rd: Reader, toks: seq<Token>, other: seq<Token>, i: nat)
    requires Framed(toks) && Framed(other) && i < |toks| && ParseUnary(rd, toks, i).Good?
    requires Agree(toks, other, ParseUnary(rd, toks, i).next + 1)
    ensures i < |other| && ParseUnary(rd, other, i) == ParseUnary(rd, toks, i)
    decreases |toks| - i, 1
  {
    hide ParseClosed, ParsePredicate;
    if IsPunct(toks[i], '!') {
      ClosedSame(rd, toks, other, i + 2);
    } else if IsPunct(toks[i], '(') {
      ClosedSame(rd, toks, other, i + 1);
    } else {
      PredicateSame(rd, toks, other, i);
    }
  }

  lemma {:induction false} AndTailSame(rd: Reader, toks: seq<Token>, other: seq<Token>, j: nat, left: Node)
    requires Framed(toks) && Framed(other) && j < |toks| && AndTail(rd, toks, j, left).Good?
    requires Agree(toks, other, AndTail(rd, toks, j, left).next + 1)
    ensures j < |other| && AndTail(rd, other, j, left) == AndTail(rd, toks, j, left)
    decreases |toks| - j, 0
  {
    hide ParseUnary, EqualFold;
    if IsKeyword(toks[j], "AND") {
      var k := ParseUnary(rd, toks, j + 1).next;
      AndTailSame(rd, toks, other, k, And(left, ParseUnary(rd, toks, j + 1).value));
      UnarySame(rd, toks, other, j + 1);
    }
  }

  lemma {:induction false} AndSame(rd: Reader, toks: seq<Token>, other: seq<Token>, i: nat)
    requires Framed(toks) && Framed(other) && i < |toks| && ParseAnd(rd, toks, i).Good?
    requires Agree(toks, other, ParseAnd(rd, toks, i).next + 1)
    ensures i < |other| && ParseAnd(rd, other, i) == ParseAnd(rd, toks, i)
    decreases |toks| - i, 2
  {
    hide ParseUnary, AndTail;
    var j := ParseUnary(rd, toks, i).next;
    AndTailSame(rd, toks, other, j, ParseUnary(rd, toks, i).value);
    UnarySame(rd, toks, other, i);
  }

  lemma {:induction false} OrTailSame(rd: Reader, toks: seq<Token>, other: seq<Token>, j: nat, left: Node)
    requires Framed(toks) && Framed(other) && j < |toks| && OrTail(rd, toks, j, left).Good?
    requires Agree(toks, other, OrTail(rd, toks, j, left).next + 1)
    ensures j < |other| && OrTail(rd, other, j, left) == OrTail(rd, toks, j, left)
    decreases |toks| - j, 0
  {
    hide ParseAnd, EqualFold;
    if IsKeyword(toks[j], "OR") {
      var k := ParseAnd(rd, toks, j + 1).next;
      OrTailSame(rd, toks, other, k, Or(left, ParseAnd(rd, toks, j + 1).value));
      AndSame(rd, toks, other, j + 1);
    }
  }

  lemma {:induction false} OrSame(rd: Reader, toks: seq<Token>, other: seq<Token>, i: nat)
    requires Framed(toks) && Framed(other) && i < |toks| && ParseOr(rd, toks, i).Good?
    requires Agree(toks, other, ParseOr(rd, toks, i).next + 1)
    ensures i < |other| && ParseOr(rd, other, i) == ParseOr(rd, toks, i)
    decreases |toks| - i, 3
  {
    hide ParseAnd, OrTail;
    var j := ParseAnd(rd, toks, i).next;
    OrTailSame(rd, toks, other, j, ParseAnd(rd, toks, i).value);
    AndSame(rd, toks, other, i);
  }

  // ---- where it gets stuck, and on what ----

  /** What a complaint asks for. */
  predicate Wanted(what: Complaint, k: Kind) {
    match what
    case ExpectedPunct(c) => k == Punct(c)
    case QuantifierNeedsSet => k == Punct('{')
    case ExpectedOperator => k.Ident? && OperatorOf(Lower(k.text)).Some?
    case ExistsNeedsAttribute => k.Attr?
    case ExpectedAttribute => k.Attr?
    case QuantifierBelongsAfter => k.Attr?
    case UnknownKeyword => k.Attr?
    case MatchesNeedsString => k.Quoted?
    case ExpectedValue => k.Quoted? || k == Punct('{')
    case NotANumber => k.Quoted? || k == Punct('{')
    case TrailingInput => k.EOF?
    case _ => false
  }

  predicate OperatorAt(toks: seq<Token>, j: nat) {
    j < |toks| && toks[j].kind.Ident? && OperatorOf(Lower(toks[j].kind.text)).Some?
  }

  predicate IsMatcher(k: Kind) {
    k.Ident? && (EqualFold(k.text, "ActionMatches") || EqualFold(k.text, "SubOperationMatches"))
  }

  /** What the n-th token is when it draws the complaint. */
  predicate Unwanted(rd: Reader, toks: seq<Token>, n: nat, what: Complaint)
    requires n < |toks|
  {
    var k := toks[n].kind;
    match what
    case ExpectedPunct(c) => k != Punct(c)
    case QuantifierNeedsSet =>
      k != Punct('{') && n >= 2 && toks[n - 2].kind == Punct(':') && OperatorAt(toks, n - 1)
    case ExpectedOperator =>
      !OperatorAt(toks, n) && n >= 1 && (toks[n - 1].kind.Attr? || toks[n - 1].kind == Punct(':'))
    case ExistsNeedsAttribute =>
      !k.Attr? && n >= 1 && toks[n - 1].kind.Ident? && EqualFold(toks[n - 1].kind.text, "Exists")
    case ExpectedAttribute => !k.Attr? && !k.Ident? && k != Punct('!') && k != Punct('(')
    case QuantifierBelongsAfter => k.Ident? && !QuantifierOf(Lower(k.text)).NoQuantifier?
    case UnknownKeyword =>
      && k.Ident? && !IsMatcher(k) && !EqualFold(k.text, "Exists") && QuantifierOf(Lower(k.text)).NoQuantifier?
    case MatchesNeedsString => !k.Quoted? && n >= 2 && toks[n - 1].kind == Punct('{') && IsMatcher(toks[n - 2].kind)
    case ExpectedValue => !IsValue(rd, k) && !k.Number?
    case NotANumber => k.Number? && !IsValue(rd, k)
    case TrailingInput => !k.EOF?
    case _ => false
  }

  /** The words ks begin as the tokens from i up to the n-th do, and go on with what the complaint
      about the n-th asks for. */
  ghost predicate Stuck(rd: Reader, toks: seq<Token>, i: nat, n: nat, ks: seq<Kind>, e: ParseError) {
    && i <= n < |toks| && n - i < |ks|
    && (forall j :: 0 <= j < n - i ==> toks[i + j].kind == ks[j])
    && Wanted(e.what, ks[n - i]) && Unwanted(rd, toks, n, e.what)
    && (if e.what.QuantifierNeedsSet? then n >= 1 && e.pos == toks[n - 1].pos else e.pos == toks[n].pos)
  }

  lemma StuckAfter(rd: Reader, toks: seq<Token>, i: nat, a: seq<Kind>, n: nat, ks: seq<Kind>, e: ParseError)
    requires At(toks, i, a) && Stuck(rd, toks, i + |a|, n, ks, e)
    ensures i <= n < |toks| && Stuck(rd, toks, i, n, a + ks, e)
  {
    hide Wanted, Unwanted;
    forall j | 0 <= j < n - i ensures toks[i + j].kind == (a + ks)[j] {
      if j >= |a| {
        assert toks[i + |a| + (j - |a|)].kind == ks[j - |a|];
      }
    }
  }

  lemma StuckBefore(rd: Reader, toks: seq<Token>, i: nat, n: nat, ks: seq<Kind>, rest: seq<Kind>, e: ParseError)
    requires Stuck(rd, toks, i, n, ks, e)
    ensures Stuck(rd, toks, i, n, ks + rest, e)
  {
    hide Wanted, Unwanted;
  }

  lemma StuckHere(rd: Reader, toks: seq<Token>, i: nat, ks: seq<Kind>, what: Complaint)
    requires i < |toks| && |ks| > 0 && Wanted(what, ks[0]) && Unwanted(rd, toks, i, what) && !what.QuantifierNeedsSet?
    ensures Stuck(rd, toks, i, i, ks, ParseError(toks[i].pos, what))
  {}

  const SOME := Quoted("")

  /** Any operator will do. */
  const TEST := OperatorName(Flag(false))

  lemma SomeIsValue(rd: Reader)
    ensures IsValue(rd, SOME) && OperatorOf(Lower(TEST)).Some?
  {
    OperatorRoundTrip(Flag(false));
    hide OperatorOf, OperatorName, Lower;
  }

  lemma LiteralStuck(rd: Reader, toks: seq<Token>, i: nat, rest: seq<Kind>)
    requires Framed(toks) && i < |toks| && ParseLiteral(rd, toks, i).Fail?
    ensures Stuck(rd, toks, i, i, [SOME] + rest, ParseLiteral(rd, toks, i).error)
    ensures forall other :: Framed(other) && Agree(toks, other, i + 1) ==> ParseLiteral(rd, other, i).Fail?
  {
    hide EqualFold;
    assert ([SOME] + rest)[0] == SOME;
  }

  lemma YieldOne(k: Kind)
    ensures YieldItems([k]) == [k]
  {}

  lemma YieldCons(k: Kind, rest: seq<Kind>)
    requires |rest| >= 1
    ensures YieldItems([k] + rest) == [k, Punct(',')] + YieldItems(rest)
  {
    assert ([k] + rest)[1..] == rest;
  }

  lemma ItemsStep(rd: Reader, toks: seq<Token>, i: nat, n: nat, rest: seq<Kind>, e: ParseError)
    requires i + 2 < |toks| && IsPunct(toks[i + 1], ',') && |rest| >= 1
    requires Stuck(rd, toks, i + 2, n, YieldItems(rest), e)
    ensures i <= n < |toks| && Stuck(rd, toks, i, n, YieldItems([toks[i].kind] + rest), e)
  {
    hide Stuck, YieldItems, At;
    var k := toks[i].kind;
    YieldCons(k, rest);
    AtPair(toks, i, k, Punct(','));
    StuckAfter(rd, toks, i, [k, Punct(',')], n, YieldItems(rest), e);
  }

  lemma ItemsUnfold(rd: Reader, toks: seq<Token>, i: nat, values: seq<Literal>)
    requires Framed(toks) && i < |toks|
    ensures match ParseLiteral(rd, toks, i)
            case Fail(e) => ParseItems(rd, toks, i, values) == Fail(e)
            case Good(lit, j) =>
              && j == i + 1
              && (IsPunct(toks[j], ',') ==>
                    i + 2 < |toks| && ParseItems(rd, toks, i, values) == ParseItems(rd, toks, i + 2, values + [lit]))
              && (!IsPunct(toks[j], ',') ==> ParseItems(rd, toks, i, values).Good?)
  {
    hide ParseLiteral;
  }

  lemma ItemsHere(rd: Reader, toks: seq<Token>, i: nat, values: seq<Literal>)
    requires Framed(toks) && i < |toks| && ParseLiteral(rd, toks, i).Fail?
    ensures ParseItems(rd, toks, i, values).Fail?
    ensures Stuck(rd, toks, i, i, YieldItems([SOME]), ParseItems(rd, toks, i, values).error)
    ensures forall other :: Framed(other) && Agree(toks, other, i + 1) ==> ParseItems(rd, other, i, values).Fail?
  {
    hide ParseItems, ParseLiteral, Stuck, YieldItems;
    YieldOne(SOME);
    ItemsUnfold(rd, toks, i, values);
    LiteralStuck(rd, toks, i, []);
    assert [SOME] + [] == [SOME];
    forall other | Framed(other) && Agree(toks, other, i + 1) ensures ParseItems(rd, other, i, values).Fail? {
      ItemsUnfold(rd, other, i, values);
    }
  }

  lemma ItemsOther(rd: Reader, toks: seq<Token>, other: seq<Token>, i: nat, values: seq<Literal>, n: nat)
    requires Framed(toks) && Framed(other) && i + 2 <= n < |toks| && Agree(toks, other, n + 1)
    requires ParseLiteral(rd, toks, i).Good? && IsPunct(toks[i + 1], ',')
    requires ParseItems(rd, other, i + 2, values + [ParseLiteral(rd, toks, i).value]).Fail?
    ensures ParseItems(rd, other, i, values).Fail?
  {
    hide ParseLiteral, ParseItems;
    LiteralSame(rd, toks, other, i);
    ItemsUnfold(rd, other, i, values);
  }

  lemma {:induction false} ItemsStuck(rd: Reader, toks: seq<Token>, i: nat, values: seq<Literal>)
    returns (n: nat, items: seq<Kind>)
    requires Framed(toks) && i < |toks| && ParseItems(rd, toks, i, values).Fail?
    ensures |items| >= 1 && forall j :: 0 <= j < |items| ==> IsValue(rd, items[j])
    ensures i <= n < |toks| && Stuck(rd, toks, i, n, YieldItems(items), ParseItems(rd, toks, i, values).error)
    ensures forall other :: Framed(other) && Agree(toks, other, n + 1) ==> ParseItems(rd, other, i, values).Fail?
    decreases |toks| - i
  {
    hide ParseItems, ParseLiteral, IsValue, Stuck, At, YieldItems, Framed;
    SomeIsValue(rd);
    ItemsUnfold(rd, toks, i, values);
    if ParseLiteral(rd, toks, i).Fail? {
      n, items := i, [SOME];
      ItemsHere(rd, toks, i, values);
    } else {
      var rest: seq<Kind>;
      n, rest := ItemsStuck(rd, toks, i + 2, values + [ParseLiteral(rd, toks, i).value]);
      ValueSound(rd, toks, i);
      items := [toks[i].kind] + rest;
      ItemsStep(rd, toks, i, n, rest, ParseItems(rd, toks, i, values).error);
      forall other | Framed(other) && Agree(toks, other, n + 1) ensures ParseItems(rd, other, i, values).Fail? {
        ItemsOther(rd, toks, other, i, values, n);
      }
    }
  }

  lemma AgreeBefore(toks: seq<Token>, other: seq<Token>, n: nat, i: nat)
    requires Agree(toks, other, n) && i < n
    ensures i < |toks| && i < |other| && toks[i] == other[i] && Agree(toks, other, i + 1)
  {}

  lemma LiteralSame(rd: Reader, toks: seq<Token>, other: seq<Token>, i: nat)
    requires Framed(toks) && Framed(other) && i < |toks| && Agree(toks, other, i + 1)
    ensures i < |other| && ParseLiteral(rd, other, i) == ParseLiteral(rd, toks, i)
  {}

  lemma ValuesStuck(rd: Reader, toks: seq<Token>, i: nat) returns (n: nat, items: seq<Kind>)
    requires Framed(toks) && i < |toks| && ParseValues(rd, toks, i).Fail?
    ensures |items| >= 1 && forall j :: 0 <= j < |items| ==> IsValue(rd, items[j])
    ensures !IsPunct(toks[i], '{') ==> n == i && |items| == 1
    ensures i <= n < |toks|
    ensures Stuck(rd, toks, i, n, YieldValues(IsPunct(toks[i], '{'), items), ParseValues(rd, toks, i).error)
    ensures forall other :: Framed(other) && Agree(toks, other, n + 1) ==> ParseValues(rd, other, i).Fail?
  {
    hide ParseItems, ParseLiteral, IsValue, Stuck, YieldItems;
    SomeIsValue(rd);
    if IsPunct(toks[i], '{') {
      n, items := BracesStuck(rd, toks, i);
      forall other | Framed(other) && Agree(toks, other, n + 1) ensures ParseValues(rd, other, i).Fail? {
        AgreeBefore(toks, other, n + 1, i);
      }
    } else {
      n, items := i, [SOME];
      LiteralStuck(rd, toks, i, []);
      assert [SOME] + [] == [SOME];
      forall other | Framed(other) && Agree(toks, other, n + 1) ensures ParseValues(rd, other, i).Fail? {
        AgreeBefore(toks, other, n + 1, i);
      }
    }
  }

  lemma BracesStuck(rd: Reader, toks: seq<Token>, i: nat) returns (n: nat, items: seq<Kind>)
    requires Framed(toks) && i < |toks| && ParseValues(rd, toks, i).Fail? && IsPunct(toks[i], '{')
    ensures |items| >= 1 && forall j :: 0 <= j < |items| ==> IsValue(rd, items[j])
    ensures i < n < |toks| && Stuck(rd, toks, i, n, YieldValues(true, items), ParseValues(rd, toks, i).error)
    ensures forall other :: Framed(other) && Agree(toks, other, n + 1) ==>
              ParseItems(rd, other, i + 1, []).Fail?
              || ExpectPunct(other, ParseItems(rd, other, i + 1, []).next, '}').Fail?
  {
    hide ParseItems, IsValue, Stuck, YieldItems, At;
    AtOne(toks, i, Punct('{'));
    var e := ParseValues(rd, toks, i).error;
    if ParseItems(rd, toks, i + 1, []).Fail? {
      n, items := ItemsStuck(rd, toks, i + 1, []);
      StuckBefore(rd, toks, i + 1, n, YieldItems(items), [Punct('}')], e);
    } else {
      items := ItemsSound(rd, toks, i + 1, []);
      n := i + 1 + |YieldItems(items)|;
      CloserStuck(rd, toks, n, '}');
      StuckAfter(rd, toks, i + 1, YieldItems(items), n, [Punct('}')], e);
      forall other | Framed(other) && Agree(toks, other, n + 1)
        ensures ParseItems(rd, other, i + 1, []).Good? && ExpectPunct(other, n, '}').Fail?
                && ParseItems(rd, other, i + 1, []).next == n
      {
        AgreeBefore(toks, other, n + 1, n);
        ItemsSame(rd, toks, other, i + 1, []);
      }
    }
    StuckAfter(rd, toks, i, [Punct('{')], n, YieldItems(items) + [Punct('}')], e);
  }

  lemma CloserStuck(rd: Reader, toks: seq<Token>, n: nat, c: char)
    requires Framed(toks) && n < |toks| && ExpectPunct(toks, n, c).Fail?
    ensures Stuck(rd, toks, n, n, [Punct(c)], ExpectPunct(toks, n, c).error)
  {}

  lemma QuantifierStuck(rd: Reader, toks: seq<Token>, i: nat)
    requires Framed(toks) && i < |toks| && ParseQuantifier(toks, i).Fail?
    ensures i + 1 < |toks| && toks[i].kind.Ident? && !QuantifierOf(Lower(toks[i].kind.text)).NoQuantifier?
    ensures Stuck(rd, toks, i, i + 1, [toks[i].kind, Punct(':')], ParseQuantifier(toks, i).error)
    ensures forall other :: Framed(other) && Agree(toks, other, i + 2) ==> ParseQuantifier(other, i).Fail?
  {
    hide QuantifierOf, Lower;
  }

  /** A comparison from its attribute on, with a set of one text at the end. */
  function Completed(src: Source, key: string, quant: Option<string>, op: string): Predicate {
    Comparison(src, key, quant, op, true, [SOME])
  }

  lemma ComparisonStuck(rd: Reader, toks: seq<Token>, i: nat) returns (n: nat, p: Predicate)
    requires Framed(toks) && i < |toks| && !toks[i].kind.Ident? && !IsPunct(toks[i], '!') && !IsPunct(toks[i], '(')
    requires ParseComparison(rd, toks, i).Fail?
    ensures i <= n < |toks| && ValidPredicate(rd, p)
    ensures Stuck(rd, toks, i, n, YieldPredicate(p), ParseComparison(rd, toks, i).error)
    ensures forall other :: Framed(other) && Agree(toks, other, n + 1) ==> ParseComparison(rd, other, i).Fail?
  {
    hide ParseQuantifier, ParseValues, Stuck, Lower, OperatorOf, QuantifierOf, IsValue;
    SomeIsValue(rd);
    var e := ParseComparison(rd, toks, i).error;
    if !toks[i].kind.Attr? {
      n, p := i, Completed(Resource, "k", None, TEST);
      StuckHere(rd, toks, i, YieldPredicate(p), ExpectedAttribute);
    } else {
      var src, key := toks[i].kind.src, toks[i].kind.key;
      AtOne(toks, i, Attr(src, key));
      if ParseQuantifier(toks, i + 1).Fail? {
        QuantifierStuck(rd, toks, i + 1);
        n, p := i + 2, Completed(src, key, Some(toks[i + 1].kind.text), TEST);
        var tail := [Ident(TEST)] + YieldValues(true, [SOME]);
        StuckBefore(rd, toks, i + 1, n, [toks[i + 1].kind, Punct(':')], tail, e);
        StuckAfter(rd, toks, i, [Attr(src, key)], n, [toks[i + 1].kind, Punct(':')] + tail, e);
      } else {
        n, p := OperandStuck(rd, toks, i);
      }
    }
  }

  lemma QuantifierSame(toks: seq<Token>, other: seq<Token>, i: nat)
    requires Framed(toks) && Framed(other) && i < |toks| && ParseQuantifier(toks, i).Good?
    requires Agree(toks, other, ParseQuantifier(toks, i).next + 1)
    ensures i < |other| && ParseQuantifier(other, i) == ParseQuantifier(toks, i)
  {
    hide QuantifierOf, Lower;
  }

  /** Past the attribute and the quantifier. */
  lemma OperandStuck(rd: Reader, toks: seq<Token>, i: nat) returns (n: nat, p: Predicate)
    requires Framed(toks) && i < |toks| && toks[i].kind.Attr? && ParseQuantifier(toks, i + 1).Good?
    requires ParseComparison(rd, toks, i).Fail?
    ensures i <= n < |toks| && ValidPredicate(rd, p)
    ensures Stuck(rd, toks, i, n, YieldPredicate(p), ParseComparison(rd, toks, i).error)
    ensures forall other :: Framed(other) && Agree(toks, other, n + 1) ==> ParseComparison(rd, other, i).Fail?
  {
    hide ParseQuantifier, ParseValues, Stuck, Lower, OperatorOf, QuantifierOf, IsValue, YieldQuantifier, YieldValues;
    SomeIsValue(rd);
    var e, src, key := ParseComparison(rd, toks, i).error, toks[i].kind.src, toks[i].kind.key;
    var quant := QuantifierSound(toks, i + 1);
    var j := ParseQuantifier(toks, i + 1).next;
    var q := YieldQuantifier(quant);
    AtCons(toks, i, Attr(src, key), q);
    var head := [Attr(src, key)] + q;
    forall other | Framed(other) && Agree(toks, other, j + 1)
      ensures ParseQuantifier(other, i + 1) == ParseQuantifier(toks, i + 1) && other[j] == toks[j]
    {
      QuantifierSame(toks, other, i + 1);
    }
    var op := toks[j].kind;
    if !OperatorAt(toks, j) {
      n, p := j, Completed(src, key, quant, TEST);
      var tail := [Ident(TEST)] + YieldValues(true, [SOME]);
      OperatorPlace(toks, i, quant);
      StuckHere(rd, toks, j, tail, ExpectedOperator);
      StuckAfter(rd, toks, i, head, n, tail, e);
      assert head + tail == YieldPredicate(p);
    } else {
      AtCons(toks, j, op, []);
      assert [op] + [] == [op];
      AtAppend(toks, i, head, [op]);
      var braces, items: seq<Kind>;
      n, braces, items := ValuesOrSetStuck(rd, toks, i, j, quant);
      p := Comparison(src, key, quant, op.text, braces, items);
      StuckAfter(rd, toks, i, head + [op], n, YieldValues(braces, items), e);
      assert head + [op] + YieldValues(braces, items) == YieldPredicate(p);
    }
  }

  lemma OperatorPlace(toks: seq<Token>, i: nat, quant: Option<string>)
    requires i < |toks| && toks[i].kind.Attr? && At(toks, i + 1, YieldQuantifier(quant))
    ensures var j := i + 1 + |YieldQuantifier(quant)|;
            1 <= j < |toks| && (toks[j - 1].kind.Attr? || toks[j - 1].kind == Punct(':'))
    ensures quant.Some? ==> toks[i + 1 + |YieldQuantifier(quant)| - 1].kind == Punct(':')
  {
    if quant.Some? {
      AtPair(toks, i + 1, Ident(quant.value), Punct(':'));
    }
  }

  /** Where a set is needed, a bad single value is reported as a bad value. */
  lemma SetStuck(rd: Reader, toks: seq<Token>, i: nat)
    requires Framed(toks) && i < |toks| && ParseValues(rd, toks, i).Fail? && !IsPunct(toks[i], '{')
    ensures Stuck(rd, toks, i, i, YieldValues(true, [SOME]), ParseValues(rd, toks, i).error)
  {
    hide EqualFold;
    assert YieldValues(true, [SOME])[0] == Punct('{');
  }

  lemma MissingSet(rd: Reader, toks: seq<Token>, j: nat)
    requires j + 1 < |toks| && !IsPunct(toks[j + 1], '{') && OperatorAt(toks, j)
    requires j >= 1 && toks[j - 1].kind == Punct(':')
    ensures Stuck(rd, toks, j + 1, j + 1, YieldValues(true, [SOME]), ParseError(toks[j].pos, QuantifierNeedsSet))
  {
    assert YieldValues(true, [SOME])[0] == Punct('{');
  }

  lemma NoBraces(rd: Reader, toks: seq<Token>, i: nat)
    requires Framed(toks) && i < |toks| && ParseValues(rd, toks, i).Good?
    ensures ParseValues(rd, toks, i).value.0 == IsPunct(toks[i], '{')
  {
    hide ParseItems, ParseLiteral;
  }

  lemma ValuesOrSetStuck(rd: Reader, toks: seq<Token>, i: nat, j: nat, quant: Option<string>)
    returns (n: nat, braces: bool, items: seq<Kind>)
    requires Framed(toks) && i < |toks| && toks[i].kind.Attr? && ParseQuantifier(toks, i + 1).Good?
    requires At(toks, i + 1, YieldQuantifier(quant)) && j == i + 1 + |YieldQuantifier(quant)|
    requires ParseQuantifier(toks, i + 1).next == j
    requires quant.Some? <==> !ParseQuantifier(toks, i + 1).value.NoQuantifier?
    requires OperatorAt(toks, j) && ParseComparison(rd, toks, i).Fail?
    ensures j < n < |toks| && |items| >= 1 && (quant.Some? ==> braces) && (!braces ==> |items| == 1)
    ensures forall k :: 0 <= k < |items| ==> IsValue(rd, items[k])
    ensures Stuck(rd, toks, j + 1, n, YieldValues(braces, items), ParseComparison(rd, toks, i).error)
    ensures forall other :: Framed(other) && Agree(toks, other, n + 1) ==> ParseComparison(rd, other, i).Fail?
  {
    hide ParseQuantifier, ParseValues, Stuck, Lower, OperatorOf, QuantifierOf, IsValue, YieldQuantifier, YieldItems;
    SomeIsValue(rd);
    OperatorPlace(toks, i, quant);
    braces := IsPunct(toks[j + 1], '{');
    if ParseValues(rd, toks, j + 1).Fail? {
      n, items := ValuesStuck(rd, toks, j + 1);
      forall other | Framed(other) && Agree(toks, other, n + 1) ensures ParseComparison(rd, other, i).Fail? {
        QuantifierSame(toks, other, i + 1);
      }
      if !braces && quant.Some? {
        braces, items := true, [SOME];
        SetStuck(rd, toks, j + 1);
      }
    } else {
      n, braces, items := j + 1, true, [SOME];
      NoBraces(rd, toks, j + 1);
      MissingSet(rd, toks, j);
      forall other | Framed(other) && Agree(toks, other, n + 1) ensures ParseComparison(rd, other, i).Fail? {
        QuantifierSame(toks, other, i + 1);
        if ParseValues(rd, other, j + 1).Good? {
          NoBraces(rd, other, j + 1);
        }
      }
    }
  }

  lemma MatchesStuck(rd: Reader, toks: seq<Token>, i: nat) returns (n: nat, p: Predicate)
    requires Framed(toks) && i < |toks| && IsMatcher(toks[i].kind) && ParseMatches(toks, i).Fail?
    ensures i <= n < |toks| && ValidPredicate(rd, p)
    ensures Stuck(rd, toks, i, n, YieldPredicate(p), ParseMatches(toks, i).error)
    ensures forall other :: Framed(other) && Agree(toks, other, n + 1) ==> ParseMatches(other, i).Fail?
  {
    hide EqualFold, Stuck, At;
    var kw, e := toks[i].kind.text, ParseMatches(toks, i).error;
    AtOne(toks, i, Ident(kw));
    if !IsPunct(toks[i + 1], '{') {
      n, p := i + 1, Matching(kw, "");
      CloserStuck(rd, toks, i + 1, '{');
      StuckAfter(rd, toks, i, [Ident(kw)], n, [Punct('{')], e);
      StuckBefore(rd, toks, i, n, [Ident(kw)] + [Punct('{')], [Quoted(""), Punct('}')], e);
      assert [Ident(kw)] + [Punct('{')] + [Quoted(""), Punct('}')] == YieldPredicate(p);
    } else if !toks[i + 2].kind.Quoted? {
      n, p := i + 2, Matching(kw, "");
      AtPair(toks, i, Ident(kw), Punct('{'));
      NotQuotedStuck(rd, toks, i + 2);
      StuckAfter(rd, toks, i, [Ident(kw), Punct('{')], n, [Quoted(""), Punct('}')], e);
      assert [Ident(kw), Punct('{')] + [Quoted(""), Punct('}')] == YieldPredicate(p);
    } else {
      var pattern := toks[i + 2].kind.text;
      n, p := i + 3, Matching(kw, pattern);
      AtPair(toks, i, Ident(kw), Punct('{'));
      AtOne(toks, i + 2, Quoted(pattern));
      CloserStuck(rd, toks, i + 3, '}');
      StuckAfter(rd, toks, i + 2, [Quoted(pattern)], n, [Punct('}')], e);
      StuckAfter(rd, toks, i, [Ident(kw), Punct('{')], n, [Quoted(pattern)] + [Punct('}')], e);
      assert [Ident(kw), Punct('{')] + ([Quoted(pattern)] + [Punct('}')]) == YieldPredicate(p);
    }
  }

  lemma NotQuotedStuck(rd: Reader, toks: seq<Token>, n: nat)
    requires 2 <= n < |toks| && !toks[n].kind.Quoted? && IsPunct(toks[n - 1], '{') && IsMatcher(toks[n - 2].kind)
    ensures Stuck(rd, toks, n, n, [Quoted(""), Punct('}')], ParseError(toks[n].pos, MatchesNeedsString))
  {}

  lemma PredicateStuck(rd: Reader, toks: seq<Token>, i: nat) returns (n: nat, p: Predicate)
    requires Framed(toks) && i < |toks| && !IsPunct(toks[i], '!') && !IsPunct(toks[i], '(')
    requires ParsePredicate(rd, toks, i).Fail?
    ensures i <= n < |toks| && ValidPredicate(rd, p)
    ensures Stuck(rd, toks, i, n, YieldPredicate(p), ParsePredicate(rd, toks, i).error)
    ensures forall other :: Framed(other) && Agree(toks, other, n + 1) ==> ParsePredicate(rd, other, i).Fail?
  {
    hide ParseMatches, ParseComparison, Stuck, EqualFold, QuantifierOf, OperatorOf, Lower, IsValue;
    if !toks[i].kind.Ident? {
      n, p := ComparisonStuck(rd, toks, i);
    } else if IsMatcher(toks[i].kind) {
      n, p := MatchesStuck(rd, toks, i);
    } else {
      n, p := WordStuck(rd, toks, i);
    }
  }

  lemma WordStuck(rd: Reader, toks: seq<Token>, i: nat) returns (n: nat, p: Predicate)
    requires Framed(toks) && i < |toks| && toks[i].kind.Ident? && !IsMatcher(toks[i].kind)
    requires ParsePredicate(rd, toks, i).Fail?
    ensures i <= n < |toks| && ValidPredicate(rd, p)
    ensures Stuck(rd, toks, i, n, YieldPredicate(p), ParsePredicate(rd, toks, i).error)
    ensures forall other :: Framed(other) && Agree(toks, other, n + 1) ==> ParsePredicate(rd, other, i).Fail?
  {
    SomeIsValue(rd);
    hide ParseMatches, ParseComparison, EqualFold, QuantifierOf, OperatorOf, Lower, IsValue;
    if EqualFold(toks[i].kind.text, "Exists") {
      n, p := i + 1, Existence(toks[i].kind.text, Resource, "k");
    } else {
      n, p := i, Completed(Resource, "k", None, TEST);
      assert YieldPredicate(p)[0] == Attr(Resource, "k");
    }
  }

  lemma {:induction false} ClosedStuck(rd: Reader, toks: seq<Token>, i: nat) returns (n: nat, d: OrExpr)
    requires Framed(toks) && i < |toks| && ParseClosed(rd, toks, i).Fail?
    ensures i <= n < |toks| && ValidOr(rd, d)
    ensures Stuck(rd, toks, i, n, YieldOr(d) + [Punct(')')], ParseClosed(rd, toks, i).error)
    ensures forall other :: Framed(other) && Agree(toks, other, n + 1) ==> ParseClosed(rd, other, i).Fail?
    decreases |toks| - i, 4
  {
    hide ParseOr, Stuck, YieldOr, ValidOr, TreeOr;
    var e := ParseClosed(rd, toks, i).error;
    if ParseOr(rd, toks, i).Fail? {
      n, d := OrStuck(rd, toks, i);
      StuckBefore(rd, toks, i, n, YieldOr(d), [Punct(')')], e);
    } else {
      d := OrSound(rd, toks, i);
      n := i + |YieldOr(d)|;
      CloserStuck(rd, toks, n, ')');
      StuckAfter(rd, toks, i, YieldOr(d), n, [Punct(')')], e);
      forall other | Framed(other) && Agree(toks, other, n + 1) ensures ParseClosed(rd, other, i).Fail? {
        OrSame(rd, toks, other, i);
      }
    }
  }

  /** Some condition, for when nothing is left to go on. */
  function SomeOr(): OrExpr {
    OneAnd(OneUnary(Leaf(Completed(Resource, "k", None, TEST))))
  }

  lemma SomeOrValid(rd: Reader)
    ensures ValidOr(rd, SomeOr())
  {
    SomeIsValue(rd);
    hide OperatorOf, Lower, IsValue;
    Lift(rd, Leaf(Completed(Resource, "k", None, TEST)));
  }

  lemma {:induction false} UnaryStuck(rd: Reader, toks: seq<Token>, i: nat) returns (n: nat, d: Unary)
    requires Framed(toks) && i < |toks| && ParseUnary(rd, toks, i).Fail?
    ensures i <= n < |toks| && ValidUnary(rd, d)
    ensures Stuck(rd, toks, i, n, YieldUnary(d), ParseUnary(rd, toks, i).error)
    ensures forall other :: Framed(other) && Agree(toks, other, n + 1) ==> ParseUnary(rd, other, i).Fail?
    decreases |toks| - i, 1
  {
    hide ParseClosed, ParsePredicate, Stuck, YieldOr, ValidOr, ValidPredicate, YieldPredicate;
    var e := ParseUnary(rd, toks, i).error;
    if IsPunct(toks[i], '!') {
      AtOne(toks, i, Punct('!'));
      var or: OrExpr;
      if IsPunct(toks[i + 1], '(') {
        n, or := ClosedStuck(rd, toks, i + 2);
        AtOne(toks, i + 1, Punct('('));
        StuckAfter(rd, toks, i + 1, [Punct('(')], n, YieldOr(or) + [Punct(')')], e);
      } else {
        n, or := i + 1, SomeOr();
        SomeOrValid(rd);
        CloserStuck(rd, toks, i + 1, '(');
        StuckBefore(rd, toks, i + 1, n, [Punct('(')], YieldOr(or) + [Punct(')')], e);
      }
      StuckAfter(rd, toks, i, [Punct('!')], n, [Punct('(')] + (YieldOr(or) + [Punct(')')]), e);
      d := Negation(or);
    } else if IsPunct(toks[i], '(') {
      var or: OrExpr;
      n, or := ClosedStuck(rd, toks, i + 1);
      AtOne(toks, i, Punct('('));
      StuckAfter(rd, toks, i, [Punct('(')], n, YieldOr(or) + [Punct(')')], e);
      d := Group(or);
    } else {
      var p: Predicate;
      n, p := PredicateStuck(rd, toks, i);
      d := Leaf(p);
    }
  }

  lemma {:induction false} AndTailStuck(rd: Reader, toks: seq<Token>, i: nat, j: nat, d: AndExpr)
    returns (n: nat, whole: AndExpr)
    requires Framed(toks) && ValidAnd(rd, d) && At(toks, i, YieldAnd(d)) && j == i + |YieldAnd(d)|
    requires AndTail(rd, toks, j, TreeAnd(d)).Fail?
    ensures i <= j <= n < |toks| && ValidAnd(rd, whole)
    ensures Stuck(rd, toks, i, n, YieldAnd(whole), AndTail(rd, toks, j, TreeAnd(d)).error)
    ensures forall other :: Framed(other) && Agree(toks, other, n + 1) ==> AndTail(rd, other, j, TreeAnd(d)).Fail?
    decreases |toks| - j, 0
  {
    hide ParseUnary, YieldUnary, TreeUnary, ValidUnary, EqualFold, Stuck;
    var kw, e := toks[j].kind.text, AndTail(rd, toks, j, TreeAnd(d)).error;
    if ParseUnary(rd, toks, j + 1).Fail? {
      var u: Unary;
      n, u := UnaryStuck(rd, toks, j + 1);
      whole := MoreAnd(d, kw, u);
      AtOne(toks, j, Ident(kw));
      StuckAfter(rd, toks, j, [Ident(kw)], n, YieldUnary(u), e);
      StuckAfter(rd, toks, i, YieldAnd(d), n, [Ident(kw)] + YieldUnary(u), e);
    } else {
      var u := UnarySound(rd, toks, j + 1);
      var longer, k := MoreAnd(d, kw, u), j + 1 + |YieldUnary(u)|;
      AtCons(toks, j, Ident(kw), YieldUnary(u));
      AtAppend(toks, i, YieldAnd(d), [Ident(kw)] + YieldUnary(u));
      AndTurn(rd, toks, j, TreeAnd(d), TreeUnary(u), k, AndTail(rd, toks, k, TreeAnd(longer)));
      n, whole := AndTailStuck(rd, toks, i, k, longer);
      forall other | Framed(other) && Agree(toks, other, n + 1) ensures AndTail(rd, other, j, TreeAnd(d)).Fail? {
        UnarySame(rd, toks, other, j + 1);
        AndTurn(rd, other, j, TreeAnd(d), TreeUnary(u), k, AndTail(rd, other, k, TreeAnd(longer)));
      }
    }
  }

  lemma {:induction false} AndStuck(rd: Reader, toks: seq<Token>, i: nat) returns (n: nat, d: AndExpr)
    requires Framed(toks) && i < |toks| && ParseAnd(rd, toks, i).Fail?
    ensures i <= n < |toks| && ValidAnd(rd, d)
    ensures Stuck(rd, toks, i, n, YieldAnd(d), ParseAnd(rd, toks, i).error)
    ensures forall other :: Framed(other) && Agree(toks, other, n + 1) ==> ParseAnd(rd, other, i).Fail?
    decreases |toks| - i, 2
  {
    hide ParseUnary, AndTail, YieldUnary, TreeUnary, ValidUnary, Stuck;
    if ParseUnary(rd, toks, i).Fail? {
      var u: Unary;
      n, u := UnaryStuck(rd, toks, i);
      d := OneUnary(u);
    } else {
      var u := UnarySound(rd, toks, i);
      n, d := AndTailStuck(rd, toks, i, i + |YieldUnary(u)|, OneUnary(u));
      forall other | Framed(other) && Agree(toks, other, n + 1) ensures ParseAnd(rd, other, i).Fail? {
        UnarySame(rd, toks, other, i);
      }
    }
  }

  lemma {:induction false} OrTailStuck(rd: Reader, toks: seq<Token>, i: nat, j: nat, d: OrExpr)
    returns (n: nat, whole: OrExpr)
    requires Framed(toks) && ValidOr(rd, d) && At(toks, i, YieldOr(d)) && j == i + |YieldOr(d)|
    requires OrTail(rd, toks, j, TreeOr(d)).Fail?
    ensures i <= j <= n < |toks| && ValidOr(rd, whole)
    ensures Stuck(rd, toks, i, n, YieldOr(whole), OrTail(rd, toks, j, TreeOr(d)).error)
    ensures forall other :: Framed(other) && Agree(toks, other, n + 1) ==> OrTail(rd, other, j, TreeOr(d)).Fail?
    decreases |toks| - j, 0
  {
    hide ParseAnd, YieldAnd, TreeAnd, ValidAnd, EqualFold, Stuck;
    var kw, e := toks[j].kind.text, OrTail(rd, toks, j, TreeOr(d)).error;
    if ParseAnd(rd, toks, j + 1).Fail? {
      var a: AndExpr;
      n, a := AndStuck(rd, toks, j + 1);
      whole := MoreOr(d, kw, a);
      AtOne(toks, j, Ident(kw));
      StuckAfter(rd, toks, j, [Ident(kw)], n, YieldAnd(a), e);
      StuckAfter(rd, toks, i, YieldOr(d), n, [Ident(kw)] + YieldAnd(a), e);
    } else {
      var a := AndSound(rd, toks, j + 1);
      var longer, k := MoreOr(d, kw, a), j + 1 + |YieldAnd(a)|;
      AtCons(toks, j, Ident(kw), YieldAnd(a));
      AtAppend(toks, i, YieldOr(d), [Ident(kw)] + YieldAnd(a));
      OrTurn(rd, toks, j, TreeOr(d), TreeAnd(a), k);
      n, whole := OrTailStuck(rd, toks, i, k, longer);
      forall other | Framed(other) && Agree(toks, other, n + 1) ensures OrTail(rd, other, j, TreeOr(d)).Fail? {
        AndSame(rd, toks, other, j + 1);
        OrTurn(rd, other, j, TreeOr(d), TreeAnd(a), k);
      }
    }
  }

  lemma {:induction false} OrStuck(rd: Reader, toks: seq<Token>, i: nat) returns (n: nat, d: OrExpr)
    requires Framed(toks) && i < |toks| && ParseOr(rd, toks, i).Fail?
    ensures i <= n < |toks| && ValidOr(rd, d)
    ensures Stuck(rd, toks, i, n, YieldOr(d), ParseOr(rd, toks, i).error)
    ensures forall other :: Framed(other) && Agree(toks, other, n + 1) ==> ParseOr(rd, other, i).Fail?
    decreases |toks| - i, 3
  {
    hide ParseAnd, OrTail, YieldAnd, TreeAnd, ValidAnd, Stuck;
    if ParseAnd(rd, toks, i).Fail? {
      var a: AndExpr;
      n, a := AndStuck(rd, toks, i);
      d := OneAnd(a);
    } else {
      var a := AndSound(rd, toks, i);
      n, d := OrTailStuck(rd, toks, i, i + |YieldAnd(a)|, OneAnd(a));
      forall other | Framed(other) && Agree(toks, other, n + 1) ensures ParseOr(rd, other, i).Fail? {
        AndSame(rd, toks, other, i);
      }
    }
  }

  // ---- the first word that no condition goes on with ----

  /** Some condition's words, the end of the text counted, begin like this. */
  ghost predicate Begins(rd: Reader, ks: seq<Kind>) {
    exists d :: ValidOr(rd, d) && ks <= YieldOr(d) + [EOF]
  }

  lemma TokensStuck(rd: Reader, toks: seq<Token>) returns (n: nat, d: OrExpr)
    requires Framed(toks) && ParseTokens(rd, toks).Err?
    ensures n < |toks| && ValidOr(rd, d)
    ensures Stuck(rd, toks, 0, n, YieldOr(d) + [EOF], ParseTokens(rd, toks).error)
    ensures forall other :: Framed(other) && Agree(toks, other, n + 1) ==> ParseTokens(rd, other).Err?
  {
    hide ParseOr, Stuck, YieldOr, ValidOr, TreeOr;
    var e := ParseTokens(rd, toks).error;
    if ParseOr(rd, toks, 0).Fail? {
      n, d := OrStuck(rd, toks, 0);
      StuckBefore(rd, toks, 0, n, YieldOr(d), [EOF], e);
    } else {
      d := OrSound(rd, toks, 0);
      n := |YieldOr(d)|;
      StuckHere(rd, toks, n, [EOF], TrailingInput);
      StuckAfter(rd, toks, 0, YieldOr(d), n, [EOF], e);
      forall other | Framed(other) && Agree(toks, other, n + 1) ensures ParseTokens(rd, other).Err? {
        OrSame(rd, toks, other, 0);
      }
    }
  }

  lemma {:induction false} YieldsNoEOF(rd: Reader, d: OrExpr)
    requires ValidOr(rd, d)
    ensures EOF !in YieldOr(d)
    decreases d
  {
    hide ValidAnd, YieldAnd;
    match d {
      case OneAnd(a) => AndNoEOF(rd, a);
      case MoreOr(init, _, a) =>
        YieldsNoEOF(rd, init);
        AndNoEOF(rd, a);
    }
  }

  lemma {:induction false} AndNoEOF(rd: Reader, d: AndExpr)
    requires ValidAnd(rd, d)
    ensures EOF !in YieldAnd(d)
    decreases d
  {
    hide ValidUnary, YieldUnary;
    match d {
      case OneUnary(u) => UnaryNoEOF(rd, u);
      case MoreAnd(start, _, u) =>
        AndNoEOF(rd, start);
        UnaryNoEOF(rd, u);
    }
  }

  lemma {:induction false} UnaryNoEOF(rd: Reader, d: Unary)
    requires ValidUnary(rd, d)
    ensures EOF !in YieldUnary(d)
    decreases d
  {
    hide ValidOr, YieldOr, ValidPredicate, YieldPredicate;
    match d {
      case Negation(e) => YieldsNoEOF(rd, e);
      case Group(e) => YieldsNoEOF(rd, e);
      case Leaf(p) => PredicateNoEOF(rd, p);
    }
  }

  lemma {:induction false} ItemsNoEOF(items: seq<Kind>)
    requires EOF !in items
    ensures EOF !in YieldItems(items)
  {
    if |items| > 1 {
      ItemsNoEOF(items[1..]);
    }
  }

  lemma PredicateNoEOF(rd: Reader, p: Predicate)
    requires ValidPredicate(rd, p)
    ensures EOF !in YieldPredicate(p)
  {
    hide YieldItems, EqualFold, OperatorOf, QuantifierOf, Lower;
    if p.Comparison? {
      assert forall i :: 0 <= i < |p.items| ==> p.items[i] != EOF;
      ItemsNoEOF(p.items);
    }
  }

  /** The tokens up to the n-th, and then any positions for the rest of the words. */
  function Continued(toks: seq<Token>, n: nat, ks: seq<Kind>): (r: seq<Token>)
    requires n <= |toks| && n <= |ks|
    ensures |r| == |ks| && forall i :: 0 <= i < |ks| ==> r[i] == if i < n then toks[i] else Token(ks[i], 0)
  {
    seq(|ks|, i requires 0 <= i < |ks| => if i < n then toks[i] else Token(ks[i], 0))
  }

  lemma NeverGoesOn(rd: Reader, toks: seq<Token>, n: nat, d: OrExpr)
    requires Framed(toks) && n < |toks| && ValidOr(rd, d)
    requires forall other :: Framed(other) && Agree(toks, other, n + 1) ==> ParseTokens(rd, other).Err?
    ensures !(KindsOf(toks)[..n + 1] <= YieldOr(d) + [EOF])
  {
    hide ParseTokens, YieldOr, ValidOr, TreeOr;
    var ks := YieldOr(d) + [EOF];
    YieldsNoEOF(rd, d);
    if KindsOf(toks)[..n + 1] <= ks {
      var other := Continued(toks, n + 1, ks);
      assert forall i :: 0 <= i < n + 1 ==> KindsOf(toks)[..n + 1][i] == ks[i];
      assert forall i :: 0 <= i < |ks| ==> other[i].kind == ks[i];
      assert forall i :: 0 <= i < |YieldOr(d)| ==> other[0 + i].kind == YieldOr(d)[i];
      assert Derives(rd, d, other);
      ParseTokensIff(rd, other, TreeOr(d));
    }
  }

  /** A text that lexes and is refused: there is a first word with which no condition goes on, the
      words before it do begin one, and go on with what the complaint asks for; the complaint stands
      at that word, or, when a quantifier has no set after its operator, at that operator. */
  lemma ErrorAtFirstBadWord(rd: Reader, src: string) returns (n: nat, wanted: Kind)
    requires Parse(rd, src).Err? && Lex(src).Ok? && !White(src)
    ensures var toks, e := Lex(src).value, Parse(rd, src).error;
            && n < |toks| && !Begins(rd, KindsOf(toks)[..n + 1]) && Begins(rd, KindsOf(toks)[..n] + [wanted])
            && Wanted(e.what, wanted) && Unwanted(rd, toks, n, e.what)
            && (if e.what.QuantifierNeedsSet? then n >= 1 && e.pos == toks[n - 1].pos else e.pos == toks[n].pos)
  {
    hide ParseTokens, LexFrom, TrimSpace, YieldOr, ValidOr, Wanted, Unwanted;
    BlankIff(src);
    LexWellFormed(src);
    var toks := Lex(src).value;
    var d: OrExpr;
    n, d := TokensStuck(rd, toks);
    var ks := YieldOr(d) + [EOF];
    wanted := ks[n];
    assert KindsOf(toks)[..n] + [wanted] <= ks by {
      assert forall i :: 0 <= i < n ==> toks[0 + i].kind == ks[i];
    }
    forall x | ValidOr(rd, x) ensures !(KindsOf(toks)[..n + 1] <= YieldOr(x) + [EOF]) {
      NeverGoesOn(rd, toks, n, x);
    }
  }

  // ---- texts that do not lex ----

  /** Tokens and white space fill the text from `from` to p. */
  ghost predicate TilesUpTo(s: string, from: nat, p: nat, toks: seq<Token>)
    decreases |toks|
  {
    from <= p <= |s| &&
    if toks == [] then forall i :: from <= i < p ==> IsGap(s[i])
    else
      && from <= toks[0].pos && (forall i :: from <= i < toks[0].pos && i < |s| ==> IsGap(s[i]))
      && exists end: nat :: TokenAt(s, toks[0], end) && TilesUpTo(s, end, p, toks[1..])
  }

  /** No token begins the text. */
  ghost predicate NothingBegins(x: string) {
    forall kind, w: nat :: !(0 < w <= |x| && Spells(x[..w], kind) && Munched(kind, x[w..]))
  }

  predicate KnownSource(a: string) {
    Lower(TrimSpace(a)) in {"resource", "request", "principal", "environment"}
  }

  predicate Character(c: char) {
    || 'a' <= c <= 'z' || 'A' <= c <= 'Z' || '0' <= c <= '9'
    || c in {'_', '.', '/', '-', '(', ')', '[', ']', '{', '}', ',', ':', '!', '@', '\'', '"', ' ', '\t', '\n', '\r'}
  }

  /** What a text that no token begins must look like to draw the complaint. */
  ghost predicate Draws(x: string, what: Complaint) {
    x != "" &&
    match what
    case UnexpectedCharacter => !Character(x[0])
    case UnterminatedString => (x[0] == '\'' || x[0] == '"') && x[0] !in x[1..]
    case AttributeNeedsBracket => x[0] == '@' && '[' !in x
    case UnknownSource => exists a, rest :: x == "@" + a + "[" + rest && '[' !in a && !KnownSource(a)
    case AttributeNeedsClosing =>
      exists a, rest :: x == "@" + a + "[" + rest && '[' !in a && KnownSource(a) && ']' !in rest
    case EmptyKey =>
      exists a, b, rest :: x == "@" + a + "[" + b + "]" + rest && '[' !in a && ']' !in b && KnownSource(a) && White(b)
    case _ => false
  }

  lemma KnownSources(a: string)
    ensures SourceOf(Lower(TrimSpace(a))).Some? <==> KnownSource(a)
  {
    hide TrimSpace, Lower;
  }

  lemma HeadSplit(x: string, j: nat)
    requires 1 <= j < |x| && x[0] == '@' && x[j] == '[' && '[' !in x[..j]
    ensures x == "@" + x[1..j] + "[" + x[j + 1..] && '[' !in x[1..j]
    ensures forall c :: c in x[j..] <==> c == '[' || c in x[j + 1..]
  {
    assert x[..j] == "@" + x[1..j];
    assert x[j..] == "[" + x[j + 1..];
  }

  lemma KeySplit(x: string, j: nat, k: nat)
    requires 1 <= j && 1 <= k && j + k < |x|
    requires x[0] == '@' && x[j] == '[' && '[' !in x[..j] && x[j..][k] == ']' && ']' !in x[j..][..k]
    ensures x == "@" + x[1..j] + "[" + x[j + 1..j + k] + "]" + x[j + k + 1..]
    ensures '[' !in x[1..j] && ']' !in x[j + 1..j + k]
  {
    BracketSplit(x, j, k);
    assert x == x[..j + k + 1] + x[j + k + 1..];
  }

  lemma AttributeDraws(x: string, what: Complaint)
    requires x != "" && x[0] == '@' && ScanAttribute(x) == Bad(what)
    ensures Draws(x, what)
  {
    hide TrimSpace, Lower, SourceOf, IndexByte, KnownSource, White;
    if IndexByte(x, '[').Some? {
      var j := IndexByte(x, '[').value;
      HeadSplit(x, j);
      KnownSources(x[1..j]);
      if IndexByte(x[j..], ']').Some? {
        var k := IndexByte(x[j..], ']').value;
        KeySplit(x, j, k);
        BlankIff(x[j + 1..j + k]);
      }
    }
  }

  lemma ScanDraws(x: string, what: Complaint)
    requires x != "" && Scan(x) == Bad(what)
    ensures Draws(x, what) && NothingBegins(x) && !IsGap(x[0])
  {
    hide ScanAttribute;
    forall kind, w: nat ensures !(0 < w <= |x| && Spells(x[..w], kind) && Munched(kind, x[w..])) {
      ScanExact(x, kind, w);
    }
    if x[0] == '@' {
      AttributeDraws(x, what);
    }
  }

  lemma {:induction false} LexErrorFrom(s: string, i: nat) returns (toks: seq<Token>)
    requires i <= |s| && LexFrom(s, i).Err?
    ensures var e := LexFrom(s, i).error;
            e.pos < |s| && TilesUpTo(s, i, e.pos, toks) && NothingBegins(s[e.pos..]) && Draws(s[e.pos..], e.what)
    decreases |s| - i
  {
    hide Scan, Spells, Munched, Draws, NothingBegins, TokenAt, IsGap;
    match Scan(s[i..]) {
      case Gap =>
        toks := LexErrorFrom(s, i + 1);
        assert s[i..][0] == s[i];
        GapThenTiles(s, i, LexFrom(s, i).error.pos, toks);
      case Lexeme(kind, w) =>
        var rest := LexErrorFrom(s, i + w);
        toks := [Token(kind, i)] + rest;
        TokenAtExact(s, Token(kind, i), i + w);
        assert toks[1..] == rest;
      case Bad(what) =>
        toks := [];
        ScanDraws(s[i..], what);
    }
  }

  lemma GapThenTiles(s: string, i: nat, p: nat, toks: seq<Token>)
    requires i < |s| && IsGap(s[i]) && TilesUpTo(s, i + 1, p, toks)
    ensures TilesUpTo(s, i, p, toks)
  {
    hide TokenAt;
  }

  /** A text is refused by the lexer at the end of what tokens and white space fill from the start,
      where no token begins, with the complaint the rest of the text draws. */
  lemma LexErrorAtFirstBadCharacter(s: string) returns (toks: seq<Token>)
    requires Lex(s).Err?
    ensures var e := Lex(s).error;
            e.pos < |s| && TilesUpTo(s, 0, e.pos, toks) && NothingBegins(s[e.pos..]) && Draws(s[e.pos..], e.what)
  {
    hide LexFrom, TilesUpTo, NothingBegins, Draws;
    toks := LexErrorFrom(s, 0);
  }

  lemma BracketAt(x: string, a: string, rest: string)
    requires x == "@" + a + "[" + rest && '[' !in a
    ensures IndexByte(x, '[') == Some(|a| + 1) && a == x[1..|a| + 1] && rest == x[|a| + 2..]
  {
    assert x[..|a| + 1] == "@" + a;
    IndexByteIs(x, '[', |a| + 1);
  }

  /** The complaint about an attribute, told by the first '[' alone. */
  lemma BracketTells(x: string, what: Complaint)
    requires Draws(x, what) && what in {UnknownSource, AttributeNeedsClosing, EmptyKey}
    ensures x[0] == '@' && IndexByte(x, '[').Some?
    ensures var j := IndexByte(x, '[').value;
            && 1 <= j && (what.UnknownSource? <==> !KnownSource(x[1..j]))
            && (what.AttributeNeedsClosing? ==> ']' !in x[j + 1..]) && (what.EmptyKey? ==> ']' in x[j + 1..])
  {
    hide TrimSpace, Lower, KnownSource, White, IndexByte;
    if what.EmptyKey? {
      var a, b, rest :| x == "@" + a + "[" + b + "]" + rest && '[' !in a && ']' !in b && KnownSource(a) && White(b);
      assert x == "@" + a + "[" + (b + "]" + rest);
      BracketAt(x, a, b + "]" + rest);
      assert (b + "]" + rest)[|b|] == ']';
    } else if what.UnknownSource? {
      var a, rest :| x == "@" + a + "[" + rest && '[' !in a && !KnownSource(a);
      BracketAt(x, a, rest);
    } else {
      var a, rest :| x == "@" + a + "[" + rest && '[' !in a && KnownSource(a) && ']' !in rest;
      BracketAt(x, a, rest);
    }
  }

  /** A text draws one complaint at most. */
  lemma DrawsOne(x: string, what: Complaint, other: Complaint)
    requires Draws(x, what) && Draws(x, other)
    ensures what == other
  {
    hide TrimSpace, Lower, KnownSource, White, IndexByte;
    if what in {UnknownSource, AttributeNeedsClosing, EmptyKey} {
      BracketTells(x, what);
    }
    if other in {UnknownSource, AttributeNeedsClosing, EmptyKey} {
      BracketTells(x, other);
    }
  }

  /** Every complaint points into the text: at a character the lexer stopped on, at a token, or (for a
      blank condition) at its start. */
  lemma ParseErrorInText(rd: Reader, src: string)
    requires Parse(rd, src).Err?
    ensures Parse(rd, src).error.pos <= |src|
    ensures !White(src) && Lex(src).Err? ==> Parse(rd, src) == Err(Lex(src).error)
    ensures !White(src) && Lex(src).Ok? ==> exists t :: t in Lex(src).value && t.pos == Parse(rd, src).error.pos
  {
    hide ParseTokens, LexFrom, TrimSpace, White, Begins, Wanted, Unwanted;
    BlankIff(src);
    if !White(src) {
      if Lex(src).Ok? {
        LexWellFormed(src);
        var n, _ := ErrorAtFirstBadWord(rd, src);
      } else {
        LexErrorInText(src, 0);
      }
    }
  }
}
