/** What a condition decides, from its text: every documented operator and quantifier by its name. */
module ConditionMeanings {
  import opened Text
  import opened Wildcard
  import opened Conditions
  import opened Lexer
  import opened Grammar
  import opened Parser
  import opened Rendering
  import opened Joining
  import opened Evaluator
  import opened Dependencies
  import opened Decisions

  // ---- attributes ----

  predicate Writable(r: Ref) {
    Printable(Attr(r.src, r.key))
  }

  /** The context holds this attribute for the reference. */
  predicate Supplied(c: Context, r: Ref, a: Attribute) {
    AttrKey(RefName(r)) in c.attributes && c.attributes[AttrKey(RefName(r))] == a
  }

  lemma {:induction false} NoSpacesRemoved(s: string)
    requires ' ' !in s
    ensures RemoveSpaces(s) == s
  {
    if s != "" {
      NoSpacesRemoved(s[1..]);
    }
  }

  lemma {:induction false} OneSpaceRemoved(s: string, t: string)
    ensures RemoveSpaces(s + (" " + t)) == RemoveSpaces(s + t)
  {
    if s == "" {
      assert s + (" " + t) == " " + t && (" " + t)[1..] == t && s + t == t;
    } else {
      assert (s + (" " + t))[1..] == s[1..] + (" " + t) && (s + t)[1..] == s[1..] + t;
      OneSpaceRemoved(s[1..], t);
    }
  }

  /** Attribute keys ignore spaces and case, and nothing else. */
  lemma KeysTellApartIff(k: string, l: string, s: string, t: string)
    ensures ' ' !in k && ' ' !in l ==> (AttrKey(k) == AttrKey(l) <==> EqualFold(k, l))
    ensures AttrKey(s + (" " + t)) == AttrKey(s + t)
  {
    if ' ' !in k && ' ' !in l {
      NoSpacesRemoved(k);
      NoSpacesRemoved(l);
    }
    OneSpaceRemoved(s, t);
  }

  // ---- one comparison ----

  /** `@Source[key] Operator operand`. */
  function Written(r: Ref, word: string, operand: string): string {
    "@" + SourceName(r.src) + "[" + r.key + "] " + (word + (" " + operand))
  }

  lemma PrintFirst(k: Kind, gap: string, ks: seq<Kind>, gaps: seq<string>)
    requires |gaps| == |ks|
    ensures Print([k] + ks, [gap] + gaps) == Spell(k) + gap + Print(ks, gaps)
  {
    hide Spell;
    assert ([k] + ks)[1..] == ks && ([gap] + gaps)[1..] == gaps;
  }

  lemma WrittenPrints(r: Ref, word: string, k: Kind)
    ensures Written(r, word, Spell(k)) == Print([Attr(r.src, r.key), Ident(word), k], [" ", " ", ""])
  {
    hide SourceName, Print;
    var head := Attr(r.src, r.key);
    PrintFirst(k, "", [], []);
    PrintFirst(Ident(word), " ", [k], [""]);
    PrintFirst(head, " ", [Ident(word), k], [" ", ""]);
    NothingPrints();
    assert [k] + [] == [k] && [Ident(word)] + [k] == [Ident(word), k];
    assert [head] + [Ident(word), k] == [head, Ident(word), k];
    assert [""] + [] == [""] && [" "] + [""] == [" ", ""] && [" "] + [" ", ""] == [" ", " ", ""];
    assert Print([k], [""]) == Spell(k);
    assert Print([Ident(word), k], [" ", ""]) == word + " " + Spell(k) == word + (" " + Spell(k));
    hide Spell;
    AttributeThen(r, word + (" " + Spell(k)));
  }

  lemma AttributeThen(r: Ref, rest: string)
    ensures Spell(Attr(r.src, r.key)) + " " + rest == "@" + SourceName(r.src) + "[" + r.key + "] " + rest
  {
    hide SourceName;
  }

  lemma NothingPrints()
    ensures Print([], []) == ""
  {}

  lemma LastSeparates(k: Kind)
    ensures Separated([k], [""])
  {
    assert [k][1..] == [] && [""][1..] == [];
  }

  lemma SpaceSeparates(k: Kind, ks: seq<Kind>, gaps: seq<string>)
    requires |gaps| == |ks| && Separated(ks, gaps)
    ensures Separated([k] + ks, [" "] + gaps)
  {
    assert ([k] + ks)[1..] == ks && ([" "] + gaps)[1..] == gaps;
    assert IsGap(' ');
    GapEndsWord(k, " " + Print(ks, gaps));
  }

  lemma WrittenSeparates(x: Kind, y: Kind, z: Kind)
    ensures Separated([x, y, z], [" ", " ", ""])
  {
    LastSeparates(z);
    SpaceSeparates(y, [z], [""]);
    assert [y] + [z] == [y, z] && [" "] + [""] == [" ", ""];
    SpaceSeparates(x, [y, z], [" ", ""]);
    assert [x] + [y, z] == [x, y, z] && [" "] + [" ", ""] == [" ", " ", ""];
    hide Separated;
  }

  lemma FoldedLetters(word: string, name: string)
    requires EqualFold(word, name) && Letters(name) && name != ""
    ensures Letters(word) && Printable(Ident(word))
  {
    forall i | 0 <= i < |word| ensures 'a' <= word[i] <= 'z' || 'A' <= word[i] <= 'Z' {
      assert |Lower(word)| == |Lower(name)|;
      assert LowerChar(word[i]) == Lower(word)[i] == Lower(name)[i] == LowerChar(name[i]);
    }
    LettersPrint(word);
  }

  function ComparisonOf(r: Ref, quant: Option<string>, word: string, braces: bool, items: seq<Kind>): OrExpr {
    OneAnd(OneUnary(Leaf(Comparison(r.src, r.key, quant, word, braces, items))))
  }

  /** A comparison as written is decided by its operator on the one value its attribute has. */
  lemma Decided(rd: Reader, r: Ref, word: string, op: Operator, k: Kind, c: Context)
    requires Writable(r) && EqualFold(word, OperatorName(op)) && Printable(k) && IsValue(rd, k)
    ensures var vs := Lookup(c, r);
            ConditionHolds(rd, Written(r, word, Spell(k)), c) <==>
            vs.Some? && |vs.value| == 1 && CompareOne(rd, op, vs.value[0], ValueOf(k))
  {
    hide OperatorOf, OperatorName, Printable, IsValue, ValueOf, EqualFold, Spell, Letters, Parse, CompareOne, Lookup,
      Written, Print;
    OperatorLetters(op);
    FoldedLetters(word, OperatorName(op));
    OperatorExactIff(word, op);
    var d, ks := ComparisonOf(r, None, word, false, [k]), [Attr(r.src, r.key), Ident(word), k];
    Lift(rd, Leaf(d.a.u.p));
    assert YieldOr(d) == ks && AllPrintable(ks);
    var root := Compare(r, NoQuantifier, op, [ValueOf(k)], false);
    assert TreeOr(d) == root by {
      assert Values([k]) == [ValueOf(k)];
    }
    WrittenSeparates(ks[0], ks[1], ks[2]);
    WrittenPrints(r, word, k);
    DerivationParses(rd, d, [" ", " ", ""]);
    WrittenSome(r, word, Spell(k));
  }

  lemma WrittenSome(r: Ref, word: string, operand: string)
    ensures Written(r, word, operand) != ""
  {}

  /** Every string operator, by its documented name in any case, on one string value. */
  lemma StringOperators(rd: Reader, r: Ref, word: string, v: string, a: string, c: Context)
    requires Writable(r) && '\'' !in v && Supplied(c, r, One(StringVal(a)))
    ensures var holds := ConditionHolds(rd, Written(r, word, "'" + v + "'"), c);
            && (EqualFold(word, "StringEquals") ==> holds == (a == v))
            && (EqualFold(word, "StringNotEquals") ==> holds == (a != v))
            && (EqualFold(word, "StringEqualsIgnoreCase") ==> holds == (Lower(a) == Lower(v)))
            && (EqualFold(word, "StringNotEqualsIgnoreCase") ==> holds == (Lower(a) != Lower(v)))
            && (EqualFold(word, "StringStartsWith") ==> holds == (v <= a))
            && (EqualFold(word, "StringNotStartsWith") ==> holds == !(v <= a))
            && (EqualFold(word, "StringLike") && '*' !in a ==> holds == Matches(GLOB, Lower(v), Lower(a)))
            && (EqualFold(word, "StringNotLike") && '*' !in a ==> holds == !Matches(GLOB, Lower(v), Lower(a)))
            && (EqualFold(word, "GuidEquals") ==> holds == (Lower(a) == Lower(v)))
            && (EqualFold(word, "GuidNotEquals") ==> holds == (Lower(a) != Lower(v)))
  {
    hide Printable, Parse, AttrKey, Lower, Written, ConditionHolds, Matches, OperatorName, CompareOne;
    forall op: Operator | (op.Text? || op.Guid?) && EqualFold(word, OperatorName(op))
      ensures ConditionHolds(rd, Written(r, word, "'" + v + "'"), c) ==
              CompareOne(rd, op, StringVal(a), StringLit(v))
    {
      QuotedPrints(v);
      Decided(rd, r, word, op, Quoted(v), c);
    }
    EqualsNames();
    EqualsIgnoreCaseName();
    NotEqualsIgnoreCaseName();
    StartsWithNames();
    LikeNames();
    GuidNames();
    TextCompares(rd, a, v);
  }

  lemma TextCompares(rd: Reader, a: string, v: string)
    ensures forall negated ::
              && CompareOne(rd, Operator.Text(negated, Equals), StringVal(a), StringLit(v)) == ((a == v) != negated)
              && CompareOne(rd, Operator.Text(negated, EqualsIgnoreCase), StringVal(a), StringLit(v)) ==
                 ((Lower(a) == Lower(v)) != negated)
              && CompareOne(rd, Operator.Text(negated, StartsWith), StringVal(a), StringLit(v)) == ((v <= a) != negated)
              && ('*' !in a ==> CompareOne(rd, Operator.Text(negated, Like), StringVal(a), StringLit(v)) ==
                                (Matches(GLOB, Lower(v), Lower(a)) != negated))
              && CompareOne(rd, Operator.Guid(negated), StringVal(a), StringLit(v)) ==
                 ((Lower(a) == Lower(v)) != negated)
  {
    hide Lower, Matches, GlobMatch;
    LowerKeeps(a, '*');
    GlobMeaning(Lower(v), Lower(a));
  }

  lemma QuotedPrints(v: string)
    requires '\'' !in v
    ensures Printable(Quoted(v)) && Spell(Quoted(v)) == "'" + v + "'"
  {}

  lemma EqualsNames()
    ensures OperatorName(Operator.Text(false, Equals)) == "StringEquals"
    ensures OperatorName(Operator.Text(true, Equals)) == "StringNotEquals"
  {}

  lemma EqualsIgnoreCaseName()
    ensures OperatorName(Operator.Text(false, EqualsIgnoreCase)) == "StringEqualsIgnoreCase"
  {}

  lemma NotEqualsIgnoreCaseName()
    ensures OperatorName(Operator.Text(true, EqualsIgnoreCase)) == "StringNotEqualsIgnoreCase"
  {}

  lemma StartsWithNames()
    ensures OperatorName(Operator.Text(false, StartsWith)) == "StringStartsWith"
    ensures OperatorName(Operator.Text(true, StartsWith)) == "StringNotStartsWith"
  {}

  lemma LikeNames()
    ensures OperatorName(Operator.Text(false, Like)) == "StringLike"
    ensures OperatorName(Operator.Text(true, Like)) == "StringNotLike"
  {}

  lemma GuidNames()
    ensures OperatorName(Operator.Guid(false)) == "GuidEquals" && OperatorName(Operator.Guid(true)) == "GuidNotEquals"
  {}

  lemma NumericEqualNames()
    ensures OperatorName(Numeric(Equal)) == "NumericEquals" && OperatorName(Numeric(NotEqual)) == "NumericNotEquals"
  {}

  lemma NumericGreaterNames()
    ensures OperatorName(Numeric(Greater)) == "NumericGreaterThan"
    ensures OperatorName(Numeric(GreaterOrEqual)) == "NumericGreaterThanOrEquals"
  {}

  lemma NumericLessNames()
    ensures OperatorName(Numeric(Less)) == "NumericLessThan"
    ensures OperatorName(Numeric(LessOrEqual)) == "NumericLessThanOrEquals"
  {}

  lemma DateTimeEqualNames()
    ensures OperatorName(DateTime(Equal)) == "DateTimeEquals" && OperatorName(DateTime(NotEqual)) == "DateTimeNotEquals"
  {}

  lemma DateTimeGreaterNames()
    ensures OperatorName(DateTime(Greater)) == "DateTimeGreaterThan"
    ensures OperatorName(DateTime(GreaterOrEqual)) == "DateTimeGreaterThanOrEquals"
  {}

  lemma DateTimeLessNames()
    ensures OperatorName(DateTime(Less)) == "DateTimeLessThan"
    ensures OperatorName(DateTime(LessOrEqual)) == "DateTimeLessThanOrEquals"
  {}

  predicate Digits(s: string) {
    s != "" && forall i :: 0 <= i < |s| ==> '0' <= s[i] <= '9'
  }

  /** Whole numbers and decimals, with or without a minus sign, are number literals. */
  lemma DecimalsAreNumbers(whole: string, fraction: string)
    requires Digits(whole) && Digits(fraction)
    ensures Printable(Number(whole)) && Printable(Number("-" + whole))
    ensures Printable(Number(whole + "." + fraction)) && Printable(Number("-" + (whole + "." + fraction)))
  {
    var d := whole + "." + fraction;
    assert ("-" + whole)[1..] == whole && ("-" + d)[1..] == d;
    assert forall i :: 0 <= i < |d| ==> IsNumberChar(d[i]);
  }

  /** Every numeric operator against a number, on a value that is a number or reads as one. */
  lemma NumericOperators(rd: Reader, r: Ref, word: string, digits: string, x: real, y: real, v: Value, c: Context)
    requires Writable(r) && Printable(Number(digits)) && rd.number(digits) == Some(y) && Supplied(c, r, One(v))
    requires v == NumberVal(x) || (v.StringVal? && rd.number(v.s) == Some(x))
    ensures var holds := ConditionHolds(rd, Written(r, word, digits), c);
            && (EqualFold(word, "NumericEquals") ==> holds == (x == y))
            && (EqualFold(word, "NumericNotEquals") ==> holds == (x != y))
            && (EqualFold(word, "NumericGreaterThan") ==> holds == (x > y))
            && (EqualFold(word, "NumericGreaterThanOrEquals") ==> holds == (x >= y))
            && (EqualFold(word, "NumericLessThan") ==> holds == (x < y))
            && (EqualFold(word, "NumericLessThanOrEquals") ==> holds == (x <= y))
  {
    hide Printable, Parse, AttrKey, EqualFold, Written, ConditionHolds, OperatorName;
    forall op: Operator | op.Numeric? && EqualFold(word, OperatorName(op))
      ensures ConditionHolds(rd, Written(r, word, digits), c) == CompareOne(rd, op, v, NumberLit(digits))
    {
      Decided(rd, r, word, op, Number(digits), c);
    }
    NumericEqualNames();
    NumericGreaterNames();
    NumericLessNames();
  }

  /** Every date operator against an instant, on a value that is an instant or reads as one. */
  lemma DateTimeOperators(rd: Reader, r: Ref, word: string, date: string, x: int, y: int, v: Value, c: Context)
    requires Writable(r) && '\'' !in date && rd.instant(date) == Some(y) && Supplied(c, r, One(v))
    requires v == InstantVal(x) || (v.StringVal? && rd.instant(v.s) == Some(x))
    ensures var holds := ConditionHolds(rd, Written(r, word, "'" + date + "'"), c);
            && (EqualFold(word, "DateTimeEquals") ==> holds == (x == y))
            && (EqualFold(word, "DateTimeNotEquals") ==> holds == (x != y))
            && (EqualFold(word, "DateTimeGreaterThan") ==> holds == (x > y))
            && (EqualFold(word, "DateTimeGreaterThanOrEquals") ==> holds == (x >= y))
            && (EqualFold(word, "DateTimeLessThan") ==> holds == (x < y))
            && (EqualFold(word, "DateTimeLessThanOrEquals") ==> holds == (x <= y))
  {
    hide Printable, Parse, AttrKey, EqualFold, Written, ConditionHolds, OperatorName;
    forall op: Operator | op.DateTime? && EqualFold(word, OperatorName(op))
      ensures ConditionHolds(rd, Written(r, word, "'" + date + "'"), c) == CompareOne(rd, op, v, StringLit(date))
    {
      QuotedPrints(date);
      Decided(rd, r, word, op, Quoted(date), c);
    }
    DateTimeEqualNames();
    DateTimeGreaterNames();
    DateTimeLessNames();
  }

  lemma FlagNames()
    ensures OperatorName(Flag(false)) == "BoolEquals" && OperatorName(Flag(true)) == "BoolNotEquals"
  {}

  lemma TruthWords()
    ensures Letters("true") && Letters("false") && Lower("true") == "true" && Lower("false") == "false"
  {}

  /** Both truth operators, on a value that is a truth value or one of the words Go reads as one. */
  lemma BoolOperators(rd: Reader, r: Ref, word: string, x: bool, y: bool, v: Value, c: Context)
    requires Writable(r) && Supplied(c, r, One(v))
    requires || v == BoolVal(x)
             || (v.StringVal? && v.s in if x then ["1", "t", "T", "TRUE", "true", "True"]
                                        else ["0", "f", "F", "FALSE", "false", "False"])
    ensures var holds := ConditionHolds(rd, Written(r, word, if y then "true" else "false"), c);
            && (EqualFold(word, "BoolEquals") ==> holds == (x == y))
            && (EqualFold(word, "BoolNotEquals") ==> holds == (x != y))
  {
    FlagNames();
    TruthWords();
    hide Printable, Parse, AttrKey, Written, ConditionHolds, OperatorName, Lower, Letters;
    LettersPrint("true");
    LettersPrint("false");
    var operand := if y then "true" else "false";
    forall op: Operator | op.Flag? && EqualFold(word, OperatorName(op))
      ensures ConditionHolds(rd, Written(r, word, operand), c) == CompareOne(rd, op, v, BoolLit(y))
    {
      Decided(rd, r, word, op, Ident(operand), c);
    }
  }

  // ---- where a comparison fails, its negated form included ----

  /** Values and operands of the wrong type fail every operator. */
  lemma WrongTypeFails(rd: Reader, r: Ref, word: string, op: Operator, k: Kind, v: Value, c: Context)
    requires Writable(r) && EqualFold(word, OperatorName(op)) && Printable(k) && IsValue(rd, k)
    requires Supplied(c, r, One(v))
    requires match op
             case Text(_, _) => !v.StringVal? || !k.Quoted?
             case Guid(_) => !v.StringVal? || !k.Quoted?
             case Numeric(_) => !k.Number? || !(v.NumberVal? || (v.StringVal? && rd.number(v.s).Some?))
             case DateTime(_) =>
               !k.Quoted? || rd.instant(k.text).None? || !(v.InstantVal? || (v.StringVal? && rd.instant(v.s).Some?))
             case Flag(_) =>
               !k.Ident? || !(v.BoolVal? || (v.StringVal? && Lower(v.s) in ["1", "t", "true", "0", "f", "false"]))
    ensures !ConditionHolds(rd, Written(r, word, Spell(k)), c)
  {
    FoldedTruthWords();
    hide Printable, Parse, AttrKey, Written, ConditionHolds, OperatorName, EqualFold, Lower, Spell;
    Decided(rd, r, word, op, k, c);
  }

  lemma FoldedTruthWords()
    ensures Lower("1") == "1" && Lower("t") == Lower("T") == "t" && Lower("0") == "0" && Lower("f") == Lower("F") == "f"
    ensures Lower("TRUE") == Lower("true") == Lower("True") == "true"
    ensures Lower("FALSE") == Lower("false") == Lower("False") == "false"
  {}

  /** So does an attribute that is absent, or is a list of any length but one. */
  lemma NotOneValueFails(rd: Reader, r: Ref, word: string, op: Operator, k: Kind, c: Context)
    requires Writable(r) && EqualFold(word, OperatorName(op)) && Printable(k) && IsValue(rd, k)
    requires AttrKey(RefName(r)) !in c.attributes || exists vs: seq<Value> :: |vs| != 1 && Supplied(c, r, Many(vs))
    ensures !ConditionHolds(rd, Written(r, word, Spell(k)), c)
  {
    hide Printable, Parse, AttrKey, Written, ConditionHolds, OperatorName, EqualFold, Spell, CompareOne;
    Decided(rd, r, word, op, k, c);
  }

  // ---- quantifiers ----

  /** `@Source[key] Quantifier:Operator {items}`, as words. */
  function QuantifiedWords(r: Ref, quant: string, word: string, items: seq<Kind>): seq<Kind> {
    [Attr(r.src, r.key), Ident(quant), Punct(':'), Ident(word), Punct('{')] + (YieldItems(items) + [Punct('}')])
  }

  lemma QuantifiedYield(r: Ref, quant: string, word: string, items: seq<Kind>)
    ensures YieldOr(ComparisonOf(r, Some(quant), word, true, items)) == QuantifiedWords(r, quant, word, items)
  {
    hide YieldItems;
    var rest, u := YieldItems(items) + [Punct('}')], Leaf(Comparison(r.src, r.key, Some(quant), word, true, items));
    assert YieldOr(OneAnd(OneUnary(u))) == YieldAnd(OneUnary(u)) == YieldUnary(u);
    assert [Attr(r.src, r.key)] + ([Ident(quant), Punct(':')] + ([Ident(word)] + ([Punct('{')] + rest))) ==
           [Attr(r.src, r.key), Ident(quant), Punct(':'), Ident(word), Punct('{')] + rest;
  }

  lemma QuantifiedPrintable(r: Ref, quant: string, word: string, items: seq<Kind>)
    requires Writable(r) && Printable(Ident(quant)) && Printable(Ident(word)) && AllPrintable(items)
    ensures AllPrintable(QuantifiedWords(r, quant, word, items))
  {
    PunctPrints();
    hide Printable;
    ItemsPrintable(items);
    PrintableAppend(YieldItems(items), [Punct('}')]);
    PrintableAppend([Attr(r.src, r.key), Ident(quant), Punct(':'), Ident(word), Punct('{')],
                    YieldItems(items) + [Punct('}')]);
  }

  lemma QuantifiedDecided(rd: Reader, r: Ref, quant: string, q: Quantifier, word: string, op: Operator,
                          items: seq<Kind>, gaps: seq<string>, c: Context)
    requires Writable(r) && !q.NoQuantifier? && EqualFold(quant, QuantifierName(q)) && EqualFold(word, OperatorName(op))
    requires |items| >= 1 && AllPrintable(items) && forall i :: 0 <= i < |items| ==> IsValue(rd, items[i])
    requires var ks := QuantifiedWords(r, quant, word, items); |gaps| == |ks| && Separated(ks, gaps)
    ensures var vs := Lookup(c, r);
            ConditionHolds(rd, Print(QuantifiedWords(r, quant, word, items), gaps), c) <==>
            vs.Some? && |vs.value| >= 1 && Quantified(rd, q, op, vs.value, Values(items))
  {
    hide OperatorOf, OperatorName, QuantifierOf, QuantifierName, Printable, IsValue, ValueOf, EqualFold, Letters, Parse,
      Quantified, Lookup, Print, Separated, QuantifiedWords, AllPrintable, Values;
    OperatorLetters(op);
    FoldedLetters(word, OperatorName(op));
    OperatorExactIff(word, op);
    QuantifierLetters(q);
    FoldedLetters(quant, QuantifierName(q));
    QuantifierExactIff(quant, q);
    var d := ComparisonOf(r, Some(quant), word, true, items);
    QuantifiedYield(r, quant, word, items);
    QuantifiedPrintable(r, quant, word, items);
    Lift(rd, Leaf(d.a.u.p));
    assert TreeOr(d) == Compare(r, q, op, Values(items), true);
    DerivationParses(rd, d, gaps);
    PrintedSome(r, quant, word, items, gaps);
  }

  lemma PrintedSome(r: Ref, quant: string, word: string, items: seq<Kind>, gaps: seq<string>)
    requires |gaps| == |QuantifiedWords(r, quant, word, items)|
    ensures Print(QuantifiedWords(r, quant, word, items), gaps) != ""
  {
    hide YieldItems;
    var ks := QuantifiedWords(r, quant, word, items);
    assert ks[0] == Attr(r.src, r.key);
    assert |Spell(ks[0])| > 0;
  }

  function Quotes(texts: seq<string>): (ks: seq<Kind>)
    ensures |ks| == |texts| && forall i :: 0 <= i < |texts| ==> ks[i] == Quoted(texts[i])
  {
    seq(|texts|, i requires 0 <= i < |texts| => Quoted(texts[i]))
  }

  function StringVals(texts: seq<string>): (vs: seq<Value>)
    ensures |vs| == |texts| && forall i :: 0 <= i < |texts| ==> vs[i] == StringVal(texts[i])
  {
    seq(|texts|, i requires 0 <= i < |texts| => StringVal(texts[i]))
  }

  /** The four quantifiers by name: the first word counts the attribute's values, the second the
      literals of the set. */
  lemma QuantifiersByName(rd: Reader, r: Ref, quant: string, word: string, given: seq<string>, gaps: seq<string>,
                          values: seq<string>, c: Context)
    requires Writable(r) && EqualFold(word, "StringEquals") && |given| >= 1 && |values| >= 1
    requires (forall g :: g in given ==> '\'' !in g) && Supplied(c, r, Many(StringVals(values)))
    requires var ks := QuantifiedWords(r, quant, word, Quotes(given)); |gaps| == |ks| && Separated(ks, gaps)
    ensures var holds := ConditionHolds(rd, Print(QuantifiedWords(r, quant, word, Quotes(given)), gaps), c);
            && (EqualFold(quant, "ForAnyOfAnyValues") ==> holds == exists v :: v in values && v in given)
            && (EqualFold(quant, "ForAllOfAnyValues") ==> holds == forall v :: v in values ==> v in given)
            && (EqualFold(quant, "ForAnyOfAllValues") ==>
                  holds == exists v :: v in values && forall g :: g in given ==> g == v)
            && (EqualFold(quant, "ForAllOfAllValues") ==>
                  holds == forall v, g :: v in values && g in given ==> g == v)
  {
    hide Printable, Parse, AttrKey, Print, Separated, ConditionHolds, OperatorName, EqualFold, QuantifiedWords,
      Quantified;
    EqualsNames();
    forall i | 0 <= i < |given| ensures Printable(Quotes(given)[i]) {
      assert given[i] in given;
      QuotedPrints(given[i]);
    }
    var op := Operator.Text(false, Equals);
    forall q: Quantifier | !q.NoQuantifier? && EqualFold(quant, QuantifierName(q))
      ensures ConditionHolds(rd, Print(QuantifiedWords(r, quant, word, Quotes(given)), gaps), c) ==
              Quantified(rd, q, op, StringVals(values), Values(Quotes(given)))
    {
      QuantifiedDecided(rd, r, quant, q, word, op, Quotes(given), gaps, c);
    }
    QuantifiedEquals(rd, values, given);
  }

  lemma QuantifiedEquals(rd: Reader, values: seq<string>, given: seq<string>)
    requires |given| >= 1
    ensures var op, vs, lits := Operator.Text(false, Equals), StringVals(values), Values(Quotes(given));
            && (Quantified(rd, AnyOfAny, op, vs, lits) == exists v :: v in values && v in given)
            && (Quantified(rd, AllOfAny, op, vs, lits) == forall v :: v in values ==> v in given)
            && (Quantified(rd, AnyOfAll, op, vs, lits) == exists v :: v in values && forall g :: g in given ==> g == v)
            && (Quantified(rd, AllOfAll, op, vs, lits) == forall v, g :: v in values && g in given ==> g == v)
  {
    hide CompareOne, AnyLit, AllLit, Values, Quotes, StringVals;
    var op, vs, lits := Operator.Text(false, Equals), StringVals(values), Values(Quotes(given));
    forall i | 0 <= i < |values|
      ensures AnyLit(rd, op, vs[i], lits) == (values[i] in given)
      ensures AllLit(rd, op, vs[i], lits) == forall g :: g in given ==> g == values[i]
    {
      AnyEquals(rd, values[i], given);
      AllEquals(rd, values[i], given);
    }
  }

  lemma EqualsCompares(rd: Reader, v: string, given: seq<string>)
    ensures |Values(Quotes(given))| == |given|
    ensures forall j :: 0 <= j < |given| ==>
              CompareOne(rd, Operator.Text(false, Equals), StringVal(v), Values(Quotes(given))[j]) == (v == given[j])
  {}

  lemma AnyEquals(rd: Reader, v: string, given: seq<string>)
    ensures AnyLit(rd, Operator.Text(false, Equals), StringVal(v), Values(Quotes(given))) == (v in given)
  {
    hide CompareOne, Values, Quotes;
    EqualsCompares(rd, v, given);
  }

  lemma AllEquals(rd: Reader, v: string, given: seq<string>)
    ensures AllLit(rd, Operator.Text(false, Equals), StringVal(v), Values(Quotes(given))) ==
            forall g :: g in given ==> g == v
  {
    hide CompareOne, Values, Quotes;
    EqualsCompares(rd, v, given);
    if AllLit(rd, Operator.Text(false, Equals), StringVal(v), Values(Quotes(given))) {
      forall g | g in given ensures g == v {
        var j :| 0 <= j < |given| && given[j] == g;
        assert CompareOne(rd, Operator.Text(false, Equals), StringVal(v), Values(Quotes(given))[j]);
      }
    }
    assert forall j :: 0 <= j < |given| ==> given[j] in given;
  }

  // ---- the other predicates, and the connectives ----

  function MatcherWords(word: string, pattern: string): seq<Kind> {
    [Ident(word), Punct('{'), Quoted(pattern), Punct('}')]
  }

  /** ActionMatches looks at the action, SubOperationMatches at the suboperation. */
  lemma MatchersByName(rd: Reader, word: string, pattern: string, gaps: seq<string>, c: Context)
    requires Printable(Quoted(pattern)) && |gaps| == 4 && Separated(MatcherWords(word, pattern), gaps)
    ensures var holds := ConditionHolds(rd, Print(MatcherWords(word, pattern), gaps), c);
            && (EqualFold(word, "ActionMatches") && '*' !in c.action ==>
                  holds == Matches(GLOB, Lower(pattern), Lower(c.action)))
            && (EqualFold(word, "SubOperationMatches") && '*' !in c.subOperation ==>
                  holds == Matches(GLOB, Lower(pattern), Lower(c.subOperation)))
  {
    hide Printable, Parse, Print, Separated, Lower, Matches, Letters, GlobMatch;
    SubIsNotAction();
    MatcherLetters();
    LowerKeeps(c.action, '*');
    LowerKeeps(c.subOperation, '*');
    GlobMeaning(Lower(pattern), Lower(c.action));
    GlobMeaning(Lower(pattern), Lower(c.subOperation));
    if EqualFold(word, "ActionMatches") || EqualFold(word, "SubOperationMatches") {
      FoldedLetters(word, if EqualFold(word, "ActionMatches") then "ActionMatches" else "SubOperationMatches");
      var d := OneAnd(OneUnary(Leaf(Matching(word, pattern))));
      PunctPrints();
      Lift(rd, Leaf(Matching(word, pattern)));
      assert YieldOr(d) == MatcherWords(word, pattern);
      DerivationParses(rd, d, gaps);
      FirstWordPrints(MatcherWords(word, pattern), gaps);
    }
  }

  lemma MatcherLetters()
    ensures Letters("ActionMatches") && Letters("SubOperationMatches") && Letters("Exists")
  {}

  lemma FirstWordPrints(ks: seq<Kind>, gaps: seq<string>)
    requires |gaps| == |ks| && ks != [] && Printable(ks[0])
    ensures Print(ks, gaps) != ""
  {
    SpellSpells(ks[0]);
    hide Spell;
  }

  /** Exists holds of every attribute supplied but the empty list. */
  lemma ExistsByName(rd: Reader, word: string, r: Ref, gaps: seq<string>, c: Context)
    requires Writable(r) && EqualFold(word, "Exists")
    requires |gaps| == 2 && Separated([Ident(word), Attr(r.src, r.key)], gaps)
    ensures ConditionHolds(rd, Print([Ident(word), Attr(r.src, r.key)], gaps), c) <==>
            AttrKey(RefName(r)) in c.attributes && !Supplied(c, r, Many([]))
  {
    hide Printable, Parse, Print, Separated, AttrKey, RefName, EqualFold, Letters;
    MatcherLetters();
    FoldedLetters(word, "Exists");
    var d := OneAnd(OneUnary(Leaf(Existence(word, r.src, r.key))));
    Lift(rd, Leaf(Existence(word, r.src, r.key)));
    assert YieldOr(d) == [Ident(word), Attr(r.src, r.key)];
    DerivationParses(rd, d, gaps);
    FirstWordPrints([Ident(word), Attr(r.src, r.key)], gaps);
  }

  /** `(a) OR (b)` holds when either does, `!(a)` when a does not. */
  lemma ConnectivesMean(rd: Reader, a: string, b: string, c: Context)
    requires Parse(rd, a).Ok? && Parse(rd, b).Ok?
    ensures ConditionHolds(rd, Joined(a, "OR", b), c) <==> ConditionHolds(rd, a, c) || ConditionHolds(rd, b, c)
    ensures ConditionHolds(rd, Joined(a, "AND", b), c) <==> ConditionHolds(rd, a, c) && ConditionHolds(rd, b, c)
    ensures ConditionHolds(rd, NegatedText(a), c) <==> !ConditionHolds(rd, a, c)
  {
    AcceptedIsSome(rd, a);
    AcceptedIsSome(rd, b);
    hide Parse, Sane;
    JoinedParses(rd, a, "OR", b);
    JoinedParses(rd, a, "AND", b);
    NegatedParses(rd, a);
    assert Joined(a, "OR", b) != "" && Joined(a, "AND", b) != "" && NegatedText(a) != "";
    var x, y := Parse(rd, a).value, Parse(rd, b).value;
    ParsedIsSane(rd, a, x);
    ParsedIsSane(rd, b, y);
    SaneIsEvaluable(rd, x);
    SaneIsEvaluable(rd, y);
  }

  lemma AcceptedIsSome(rd: Reader, a: string)
    requires Parse(rd, a).Ok?
    ensures a != ""
  {
    assert TrimSpace("") == "";
  }

  // ---- from a question to what its conditions see ----

  /** The key is one way of writing the reference's name. */
  predicate NamesRef(k: string, r: Ref) {
    SuppliedKey(k) == AttrKey(RefName(r))
  }

  /** A condition sees the question's action and suboperation, and under a reference the attribute
      supplied for it: written as listed, in any case, with or without the at sign, and under no
      other key of the same name. */
  lemma QuestionIsSeen(q: Question, req: Request, r: Ref, k: string)
    requires Poses(q, req)
    ensures req.context.action == q.action && req.context.subOperation == q.subOperation
    ensures k in q.attributes && (EqualFold(k, RefName(r)) || EqualFold(k, "@" + RefName(r)))
            && (forall l :: l in q.attributes && l != k ==> !NamesRef(l, r)) ==>
              Supplied(req.context, r, q.attributes[k])
    ensures (forall l :: l in q.attributes ==> !NamesRef(l, r)) ==> AttrKey(RefName(r)) !in req.context.attributes
  {
    hide SuppliedKey, AttrKey, RefName, EqualFold;
    if k in q.attributes && (EqualFold(k, RefName(r)) || EqualFold(k, "@" + RefName(r))) {
      ListedKeyIsRead(r, k);
    }
  }

  // ---- the listed attributes, read off the text ----

  /** The attributes among the words, as written, in order. */
  function AttributesIn(ks: seq<Kind>): seq<string> {
    if ks == [] then []
    else (if ks[0].Attr? then ["@" + (SourceName(ks[0].src) + "[" + ks[0].key + "]")] else []) + AttributesIn(ks[1..])
  }

  lemma {:induction false} AttributesInConcat(a: seq<Kind>, b: seq<Kind>)
    ensures AttributesIn(a + b) == AttributesIn(a) + AttributesIn(b)
  {
    if a == [] {
      assert a + b == b;
    } else {
      assert (a + b)[1..] == a[1..] + b;
      AttributesInConcat(a[1..], b);
    }
  }

  lemma {:induction false} NoAttributesIn(ks: seq<Kind>)
    requires forall k :: k in ks ==> !k.Attr?
    ensures AttributesIn(ks) == []
  {
    if ks != [] {
      NoAttributesIn(ks[1..]);
    }
  }

  lemma AttributeFirst(r: Ref, rest: seq<Kind>)
    requires forall k :: k in rest ==> !k.Attr?
    ensures AttributesIn([Attr(r.src, r.key)] + rest) == [RefText(r)]
  {
    assert ([Attr(r.src, r.key)] + rest)[1..] == rest;
    NoAttributesIn(rest);
  }

  lemma {:induction false} ItemsHaveNone(rd: Reader, items: seq<Kind>)
    requires forall i :: 0 <= i < |items| ==> IsValue(rd, items[i])
    ensures forall k :: k in YieldItems(items) ==> !k.Attr?
  {
    hide EqualFold;
    if |items| > 1 {
      ItemsHaveNone(rd, items[1..]);
    }
  }

  lemma PredicateRefs(rd: Reader, p: Predicate)
    requires ValidPredicate(rd, p)
    ensures AttributesIn(YieldPredicate(p)) == RefTexts(TreePredicate(p))
  {
    hide AttributesIn, RefText, YieldItems, EqualFold, OperatorOf, QuantifierOf, Lower;
    match p {
      case Matching(_, _) => NoAttributesIn(YieldPredicate(p));
      case Existence(kw, src, key) =>
        AttributesInConcat([Ident(kw)], [Attr(src, key)]);
        NoAttributesIn([Ident(kw)]);
        AttributeFirst(Ref(src, key), []);
        assert [Attr(src, key)] + [] == [Attr(src, key)] && [Ident(kw)] + [Attr(src, key)] == YieldPredicate(p);
      case Comparison(src, key, quant, op, braces, items) =>
        ItemsHaveNone(rd, items);
        AttributeFirst(Ref(src, key), YieldQuantifier(quant) + ([Ident(op)] + YieldValues(braces, items)));
    }
  }

  lemma {:induction false} UnaryRefs(rd: Reader, d: Unary)
    requires ValidUnary(rd, d)
    ensures AttributesIn(YieldUnary(d)) == RefTexts(TreeUnary(d))
    decreases d
  {
    hide AttributesIn, ValidOr, YieldOr, TreeOr, ValidPredicate, YieldPredicate, TreePredicate;
    match d {
      case Negation(e) =>
        OrRefs(rd, e);
        Wrapped([Punct('!')] + [Punct('(')], e);
        assert [Punct('!')] + [Punct('(')] + (YieldOr(e) + [Punct(')')]) == YieldUnary(d);
      case Group(e) =>
        OrRefs(rd, e);
        Wrapped([Punct('(')], e);
      case Leaf(p) => PredicateRefs(rd, p);
    }
  }

  lemma Wrapped(open: seq<Kind>, e: OrExpr)
    requires forall k :: k in open ==> !k.Attr?
    ensures AttributesIn(open + (YieldOr(e) + [Punct(')')])) == AttributesIn(YieldOr(e))
  {
    hide AttributesIn, YieldOr;
    AttributesInConcat(open, YieldOr(e) + [Punct(')')]);
    AttributesInConcat(YieldOr(e), [Punct(')')]);
    NoAttributesIn(open);
    NoAttributesIn([Punct(')')]);
  }

  lemma KeywordBetween(a: seq<Kind>, kw: string, b: seq<Kind>)
    ensures AttributesIn(a + ([Ident(kw)] + b)) == AttributesIn(a) + AttributesIn(b)
  {
    hide AttributesIn;
    AttributesInConcat(a, [Ident(kw)] + b);
    AttributesInConcat([Ident(kw)], b);
    NoAttributesIn([Ident(kw)]);
  }

  lemma {:induction false} AndRefs(rd: Reader, d: AndExpr)
    requires ValidAnd(rd, d)
    ensures AttributesIn(YieldAnd(d)) == RefTexts(TreeAnd(d))
    decreases d
  {
    hide AttributesIn, ValidUnary, YieldUnary, TreeUnary, EqualFold;
    match d {
      case OneUnary(u) => UnaryRefs(rd, u);
      case MoreAnd(start, kw, u) =>
        AndRefs(rd, start);
        UnaryRefs(rd, u);
        KeywordBetween(YieldAnd(start), kw, YieldUnary(u));
    }
  }

  /** The references of the tree are the attributes of the words, in the order they are written. */
  lemma {:induction false} OrRefs(rd: Reader, d: OrExpr)
    requires ValidOr(rd, d)
    ensures AttributesIn(YieldOr(d)) == RefTexts(TreeOr(d))
    decreases d
  {
    hide AttributesIn, ValidAnd, YieldAnd, TreeAnd, EqualFold;
    match d {
      case OneAnd(a) => AndRefs(rd, a);
      case MoreOr(init, kw, a) =>
        OrRefs(rd, init);
        AndRefs(rd, a);
        KeywordBetween(YieldOr(init), kw, YieldAnd(a));
    }
  }

  /** An accepted condition lists the attributes of its text, each once, in the order of their first
      writing. */
  lemma ListedAsWritten(rd: Reader, src: string)
    requires Parse(rd, src).Ok?
    ensures Lex(src).Ok? && AttributesOf(Parse(rd, src).value) == Fresh({}, AttributesIn(KindsOf(Lex(src).value)))
  {
    hide Parse, YieldOr, TreeOr, ValidOr, Tiles, KindsOf, LexFrom, AttributesIn, RefTexts, Fresh;
    var toks, d := Witness(rd, src);
    LexExactIff(src, toks);
    OrRefs(rd, d);
    AttributesInConcat(YieldOr(d), [EOF]);
    NoAttributesIn([EOF]);
    assert AttributesIn(KindsOf(toks)) == AttributesIn(YieldOr(d));
  }

  /** What is listed stands in the order of first writing: a prefix's list begins the whole one. */
  lemma ListGrows(xs: seq<string>, ys: seq<string>)
    ensures Fresh({}, xs) <= Fresh({}, xs + ys)
  {
    FreshAppend({}, xs, ys);
  }
}
