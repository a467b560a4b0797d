/** The parser accepts exactly the grammar, and builds the tree of the derivation. */
module Parsing {
  import opened Text
  import opened Conditions
  import opened Grammar
  import opened Parser

  /** The words ks stand at i, with at least one token after them. */
  ghost predicate At(toks: seq<Token>, i: nat, ks: seq<Kind>) {
    i + |ks| < |toks| && forall k :: 0 <= k < |ks| ==> toks[i + k].kind == ks[k]
  }

  lemma AtAppend(toks: seq<Token>, i: nat, a: seq<Kind>, b: seq<Kind>)
    ensures At(toks, i, a + b) <==> At(toks, i, a) && At(toks, i + |a|, b)
  {
    if At(toks, i, a + b) {
      assert forall k :: 0 <= k < |a| ==> (a + b)[k] == a[k];
      assert forall k :: 0 <= k < |b| ==> (a + b)[|a| + k] == b[k] && toks[i + (|a| + k)].kind == b[k];
    } else if At(toks, i, a) && At(toks, i + |a|, b) {
      forall k | 0 <= k < |a + b| ensures toks[i + k].kind == (a + b)[k] {
        if k >= |a| {
          assert toks[i + |a| + (k - |a|)].kind == b[k - |a|];
        }
      }
    }
  }

  lemma AtCons(toks: seq<Token>, i: nat, k: Kind, ks: seq<Kind>)
    ensures At(toks, i, [k] + ks) <==> i < |toks| && toks[i].kind == k && At(toks, i + 1, ks)
  {
    AtAppend(toks, i, [k], ks);
    if At(toks, i, [k]) {
      assert toks[i + 0].kind == [k][0];
    }
  }

  lemma AtPair(toks: seq<Token>, i: nat, k: Kind, k': Kind)
    ensures At(toks, i, [k, k']) <==> i + 2 < |toks| && toks[i].kind == k && toks[i + 1].kind == k'
  {
    AtCons(toks, i, k, [k']);
    AtCons(toks, i + 1, k', []);
    assert [k'] + [] == [k'] && [k] + [k'] == [k, k'];
  }

  lemma AtOne(toks: seq<Token>, i: nat, k: Kind)
    ensures At(toks, i, [k]) <==> i + 1 < |toks| && toks[i].kind == k
  {
    AtCons(toks, i, k, []);
    assert [k] + [] == [k];
  }

  // ---- completeness: every derivation parses to its tree ----

  lemma ValueComplete(rd: Reader, toks: seq<Token>, i: nat, k: Kind)
    requires Framed(toks) && At(toks, i, [k]) && IsValue(rd, k)
    ensures ParseLiteral(rd, toks, i) == Good(ValueOf(k), i + 1)
    ensures !toks[i].kind.Punct?
  {
    AtOne(toks, i, k);
  }

  lemma {:induction false} ItemsComplete(rd: Reader, toks: seq<Token>, i: nat, items: seq<Kind>, values: seq<Literal>)
    requires Framed(toks) && |items| >= 1 && At(toks, i, YieldItems(items))
    requires forall n :: 0 <= n < |items| ==> IsValue(rd, items[n])
    requires !IsPunct(toks[i + |YieldItems(items)|], ',')
    ensures ParseItems(rd, toks, i, values) == Good(values + Values(items), i + |YieldItems(items)|)
    decreases |items|
  {
    hide ParseLiteral, IsValue, ValueOf;
    if |items| == 1 {
      assert items == [items[0]];
      ValueComplete(rd, toks, i, items[0]);
      assert Values(items) == [ValueOf(items[0])];
    } else {
      AtCons(toks, i, items[0], [Punct(',')] + YieldItems(items[1..]));
      AtCons(toks, i + 1, Punct(','), YieldItems(items[1..]));
      AtOne(toks, i, items[0]);
      ValueComplete(rd, toks, i, items[0]);
      ItemsComplete(rd, toks, i + 2, items[1..], values + [ValueOf(items[0])]);
      assert values + Values(items) == values + [ValueOf(items[0])] + Values(items[1..]);
    }
  }

  lemma ValuesComplete(rd: Reader, toks: seq<Token>, i: nat, braces: bool, items: seq<Kind>)
    requires Framed(toks) && |items| >= 1 && At(toks, i, YieldValues(braces, items))
    requires !braces ==> |items| == 1
    requires forall n :: 0 <= n < |items| ==> IsValue(rd, items[n])
    ensures ParseValues(rd, toks, i) == Good((braces, Values(items)), i + |YieldValues(braces, items)|)
  {
    hide ParseItems, ParseLiteral, IsValue, YieldItems;
    if braces {
      AtCons(toks, i, Punct('{'), YieldItems(items) + [Punct('}')]);
      AtAppend(toks, i + 1, YieldItems(items), [Punct('}')]);
      AtOne(toks, i + 1 + |YieldItems(items)|, Punct('}'));
      ItemsComplete(rd, toks, i + 1, items, []);
      assert [] + Values(items) == Values(items);
    } else {
      assert items == [items[0]];
      AtOne(toks, i, items[0]);
      ValueComplete(rd, toks, i, items[0]);
      assert Values(items) == [ValueOf(items[0])];
    }
  }

  lemma NoOperatorIsQuantifier(lower: string)
    requires OperatorOf(lower).Some?
    ensures QuantifierOf(lower).NoQuantifier?
  {
    assert lower != "" && lower[0] != 'f';
  }

  lemma QuantifierComplete(toks: seq<Token>, i: nat, quant: Option<string>, op: string)
    requires Framed(toks) && At(toks, i, YieldQuantifier(quant) + [Ident(op)])
    requires quant.Some? ==> !QuantifierOf(Lower(quant.value)).NoQuantifier?
    requires OperatorOf(Lower(op)).Some?
    ensures ParseQuantifier(toks, i) ==
            Good(match quant case None => NoQuantifier case Some(w) => QuantifierOf(Lower(w)),
                i + |YieldQuantifier(quant)|)
  {
    hide OperatorOf, QuantifierOf, EqualFold, Lower;
    AtAppend(toks, i, YieldQuantifier(quant), [Ident(op)]);
    match quant {
      case None =>
        AtOne(toks, i, Ident(op));
        NoOperatorIsQuantifier(Lower(op));
      case Some(w) =>
        AtPair(toks, i, Ident(w), Punct(':'));
    }
  }

  lemma ComparisonComplete(rd: Reader, toks: seq<Token>, i: nat, p: Predicate)
    requires Framed(toks) && p.Comparison? && ValidPredicate(rd, p) && At(toks, i, YieldPredicate(p))
    ensures ParseComparison(rd, toks, i) == Good(TreePredicate(p), i + |YieldPredicate(p)|)
  {
    hide ParseQuantifier, ParseValues, YieldQuantifier, YieldValues, OperatorOf, QuantifierOf, IsValue, EqualFold,
      Lower;
    var q, v := YieldQuantifier(p.quant), YieldValues(p.braces, p.items);
    AtCons(toks, i, Attr(p.src, p.key), q + ([Ident(p.op)] + v));
    assert q + ([Ident(p.op)] + v) == (q + [Ident(p.op)]) + v;
    AtAppend(toks, i + 1, q + [Ident(p.op)], v);
    AtAppend(toks, i + 1, q, [Ident(p.op)]);
    QuantifierComplete(toks, i + 1, p.quant, p.op);
    var j := i + 1 + |q|;
    AtOne(toks, j, Ident(p.op));
    ValuesComplete(rd, toks, j + 1, p.braces, p.items);
  }

  lemma Keywords(text: string)
    ensures EqualFold(text, "Exists") ==> !EqualFold(text, "ActionMatches") && !EqualFold(text, "SubOperationMatches")
  {
    assert Lower("Exists") != Lower("ActionMatches") && Lower("Exists") != Lower("SubOperationMatches");
  }

  lemma PredicateComplete(rd: Reader, toks: seq<Token>, i: nat, p: Predicate)
    requires Framed(toks) && ValidPredicate(rd, p) && At(toks, i, YieldPredicate(p))
    ensures ParsePredicate(rd, toks, i) == Good(TreePredicate(p), i + |YieldPredicate(p)|)
    ensures !toks[i].kind.Punct?
  {
    hide ParseComparison, Lower;
    assert toks[i + 0].kind == YieldPredicate(p)[0];
    match p {
      case Matching(kw, pattern) =>
        assert toks[i + 1].kind == YieldPredicate(p)[1] && toks[i + 2].kind == YieldPredicate(p)[2]
            && toks[i + 3].kind == YieldPredicate(p)[3];
      case Existence(kw, src, key) =>
        Keywords(kw);
        assert toks[i + 1].kind == YieldPredicate(p)[1];
      case Comparison(_, _, _, _, _, _) =>
        ComparisonComplete(rd, toks, i, p);
    }
  }

  lemma {:induction false} ClosedComplete(rd: Reader, toks: seq<Token>, i: nat, e: OrExpr)
    requires Framed(toks) && ValidOr(rd, e) && At(toks, i, YieldOr(e) + [Punct(')')])
    ensures ParseClosed(rd, toks, i) == Good(TreeOr(e), i + |YieldOr(e)| + 1)
    decreases e, 4
  {
    hide ParseOr, YieldOr, TreeOr, ValidOr;
    AtAppend(toks, i, YieldOr(e), [Punct(')')]);
    AtOne(toks, i + |YieldOr(e)|, Punct(')'));
    OrComplete(rd, toks, i, e);
  }

  lemma {:induction false} UnaryComplete(rd: Reader, toks: seq<Token>, i: nat, d: Unary)
    requires Framed(toks) && ValidUnary(rd, d) && At(toks, i, YieldUnary(d))
    ensures ParseUnary(rd, toks, i) == Good(TreeUnary(d), i + |YieldUnary(d)|)
    decreases d, 1
  {
    hide ParseClosed, YieldOr, TreeOr, ValidOr, ParsePredicate, YieldPredicate, TreePredicate, ValidPredicate;
    hide ParseOr, YieldOr, TreeOr, ValidOr, EqualFold;
    match d {
      case Negation(e) =>
        AtCons(toks, i, Punct('!'), [Punct('(')] + (YieldOr(e) + [Punct(')')]));
        AtCons(toks, i + 1, Punct('('), YieldOr(e) + [Punct(')')]);
        ClosedComplete(rd, toks, i + 2, e);
      case Group(e) =>
        AtCons(toks, i, Punct('('), YieldOr(e) + [Punct(')')]);
        ClosedComplete(rd, toks, i + 1, e);
      case Leaf(p) =>
        PredicateComplete(rd, toks, i, p);
    }
  }

  lemma AndTurn(rd: Reader, toks: seq<Token>, j: nat, left: Node, right: Node, k: nat, r: Parsed<Node>)
    requires Framed(toks) && j + 1 < |toks| && IsKeyword(toks[j], "AND")
    requires ParseUnary(rd, toks, j + 1) == Good(right, k)
    requires AndTail(rd, toks, k, And(left, right)) == r
    ensures AndTail(rd, toks, j, left) == r
  {}

  lemma OrTurn(rd: Reader, toks: seq<Token>, j: nat, left: Node, right: Node, k: nat)
    requires Framed(toks) && j + 1 < |toks| && IsKeyword(toks[j], "OR")
    requires ParseAnd(rd, toks, j + 1) == Good(right, k)
    ensures OrTail(rd, toks, j, left) == OrTail(rd, toks, k, Or(left, right))
  {}

  lemma AtMoreAnd(toks: seq<Token>, i: nat, d: AndExpr)
    requires d.MoreAnd? && At(toks, i, YieldAnd(d))
    ensures var j := i + |YieldAnd(d.start)|;
            && At(toks, i, YieldAnd(d.start)) && toks[j].kind == Ident(d.kw) && At(toks, j + 1, YieldUnary(d.end))
            && i + |YieldAnd(d)| == j + 1 + |YieldUnary(d.end)|
  {
    hide YieldUnary;
    AtAppend(toks, i, YieldAnd(d.start), [Ident(d.kw)] + YieldUnary(d.end));
    AtCons(toks, i + |YieldAnd(d.start)|, Ident(d.kw), YieldUnary(d.end));
  }

  /** After the words of an AND chain, the parser is where its loop would be. */
  lemma {:induction false} AndComplete(rd: Reader, toks: seq<Token>, i: nat, d: AndExpr, r: Parsed<Node>)
    requires Framed(toks) && ValidAnd(rd, d) && At(toks, i, YieldAnd(d))
    requires AndTail(rd, toks, i + |YieldAnd(d)|, TreeAnd(d)) == r
    ensures ParseAnd(rd, toks, i) == r
    decreases d, 2
  {
    hide ParseUnary, YieldUnary, TreeUnary, ValidUnary, EqualFold;
    match d {
      case OneUnary(u) =>
        UnaryComplete(rd, toks, i, u);
      case MoreAnd(start, _, u) =>
        AtMoreAnd(toks, i, d);
        var j := i + |YieldAnd(start)|;
        UnaryComplete(rd, toks, j + 1, u);
        AndTurn(rd, toks, j, TreeAnd(start), TreeUnary(u), j + 1 + |YieldUnary(u)|, r);
        AndComplete(rd, toks, i, start, r);
    }
  }

  lemma OrIsNotAnd(t: Token)
    requires IsKeyword(t, "OR")
    ensures !IsKeyword(t, "AND")
  {
    assert |Lower(t.kind.text)| == 2;
  }

  lemma {:induction false} OrChainComplete(rd: Reader, toks: seq<Token>, i: nat, d: OrExpr)
    requires Framed(toks) && ValidOr(rd, d) && At(toks, i, YieldOr(d))
    requires !IsKeyword(toks[i + |YieldOr(d)|], "AND")
    ensures ParseOr(rd, toks, i) == OrTail(rd, toks, i + |YieldOr(d)|, TreeOr(d))
    decreases d, 2
  {
    hide ParseAnd, YieldAnd, TreeAnd, ValidAnd, EqualFold;
    match d {
      case OneAnd(a) =>
        AndComplete(rd, toks, i, a, Good(TreeAnd(a), i + |YieldAnd(a)|));
      case MoreOr(init, kw, a) =>
        AtAppend(toks, i, YieldOr(init), [Ident(kw)] + YieldAnd(a));
        var j := i + |YieldOr(init)|;
        AtCons(toks, j, Ident(kw), YieldAnd(a));
        OrIsNotAnd(toks[j]);
        OrChainComplete(rd, toks, i, init);
        AndComplete(rd, toks, j + 1, a, Good(TreeAnd(a), j + 1 + |YieldAnd(a)|));
    }
  }

  lemma {:induction false} OrComplete(rd: Reader, toks: seq<Token>, i: nat, d: OrExpr)
    requires Framed(toks) && ValidOr(rd, d) && At(toks, i, YieldOr(d))
    requires !toks[i + |YieldOr(d)|].kind.Ident?
    ensures ParseOr(rd, toks, i) == Good(TreeOr(d), i + |YieldOr(d)|)
    decreases d, 3
  {
    OrChainComplete(rd, toks, i, d);
  }

  // ---- soundness: every parse has a derivation ----

  lemma ValueSound(rd: Reader, toks: seq<Token>, i: nat)
    requires Framed(toks) && i < |toks| && ParseLiteral(rd, toks, i).Good?
    ensures IsValue(rd, toks[i].kind)
    ensures ParseLiteral(rd, toks, i) == Good(ValueOf(toks[i].kind), i + 1)
    ensures At(toks, i, [toks[i].kind])
  {
    hide EqualFold;
    AtOne(toks, i, toks[i].kind);
  }

  lemma ItemsJoin(toks: seq<Token>, i: nat, rest: seq<Kind>, values: seq<Literal>)
    requires i + 1 < |toks| && toks[i + 1].kind == Punct(',')
    requires |rest| >= 1 && At(toks, i + 2, YieldItems(rest))
    ensures var items := [toks[i].kind] + rest;
            && At(toks, i, YieldItems(items)) && |YieldItems(items)| == 2 + |YieldItems(rest)|
            && values + [ValueOf(toks[i].kind)] + Values(rest) == values + Values(items)
  {
    hide At, ValueOf;
    var k := toks[i].kind;
    assert ([k] + rest)[1..] == rest;
    AtCons(toks, i + 1, Punct(','), YieldItems(rest));
    AtCons(toks, i, k, [Punct(',')] + YieldItems(rest));
  }

  lemma {:induction false} ItemsSound(rd: Reader, toks: seq<Token>, i: nat, values: seq<Literal>)
    returns (items: seq<Kind>)
    requires Framed(toks) && i < |toks| && ParseItems(rd, toks, i, values).Good?
    ensures |items| >= 1 && At(toks, i, YieldItems(items))
    ensures forall n :: 0 <= n < |items| ==> IsValue(rd, items[n])
    ensures ParseItems(rd, toks, i, values) == Good(values + Values(items), i + |YieldItems(items)|)
    decreases |toks| - i
  {
    hide ParseLiteral, IsValue, ValueOf, At;
    var k := toks[i].kind;
    ValueSound(rd, toks, i);
    if IsPunct(toks[i + 1], ',') {
      var rest := ItemsSound(rd, toks, i + 2, values + [ValueOf(k)]);
      items := [k] + rest;
      ItemsJoin(toks, i, rest, values);
    } else {
      items := [k];
      assert Values(items) == [ValueOf(k)];
    }
  }

  lemma ValuesSound(rd: Reader, toks: seq<Token>, i: nat) returns (braces: bool, items: seq<Kind>)
    requires Framed(toks) && i < |toks| && ParseValues(rd, toks, i).Good?
    ensures |items| >= 1 && (!braces ==> |items| == 1) && At(toks, i, YieldValues(braces, items))
    ensures forall n :: 0 <= n < |items| ==> IsValue(rd, items[n])
    ensures ParseValues(rd, toks, i) == Good((braces, Values(items)), i + |YieldValues(braces, items)|)
  {
    hide ParseItems, YieldItems, ParseLiteral, IsValue, ValueOf;
    braces := IsPunct(toks[i], '{');
    if braces {
      items := ItemsSound(rd, toks, i + 1, []);
      AtOne(toks, i + 1 + |YieldItems(items)|, Punct('}'));
      AtAppend(toks, i + 1, YieldItems(items), [Punct('}')]);
      AtCons(toks, i, Punct('{'), YieldItems(items) + [Punct('}')]);
      assert [] + Values(items) == Values(items);
    } else {
      ValueSound(rd, toks, i);
      items := [toks[i].kind];
      assert Values(items) == [ValueOf(toks[i].kind)];
    }
  }

  lemma QuantifierSound(toks: seq<Token>, i: nat) returns (quant: Option<string>)
    requires Framed(toks) && i < |toks| && ParseQuantifier(toks, i).Good?
    ensures quant.Some? ==> !QuantifierOf(Lower(quant.value)).NoQuantifier?
    ensures ParseQuantifier(toks, i) ==
            Good(match quant case None => NoQuantifier case Some(w) => QuantifierOf(Lower(w)),
                i + |YieldQuantifier(quant)|)
    ensures At(toks, i, YieldQuantifier(quant))
  {
    hide OperatorOf, QuantifierOf, EqualFold, Lower;
    if ParseQuantifier(toks, i).value.NoQuantifier? {
      quant := None;
    } else {
      quant := Some(toks[i].kind.text);
      AtPair(toks, i, Ident(quant.value), Punct(':'));
    }
  }

  lemma ComparisonSound(rd: Reader, toks: seq<Token>, i: nat) returns (p: Predicate)
    requires Framed(toks) && i < |toks| && ParseComparison(rd, toks, i).Good?
    ensures ValidPredicate(rd, p) && At(toks, i, YieldPredicate(p))
    ensures ParseComparison(rd, toks, i) == Good(TreePredicate(p), i + |YieldPredicate(p)|)
  {
    hide ParseQuantifier, ParseValues, YieldQuantifier, YieldValues, OperatorOf, QuantifierOf, IsValue, EqualFold,
      Lower;
    var quant := QuantifierSound(toks, i + 1);
    var q, j := YieldQuantifier(quant), ParseQuantifier(toks, i + 1).next;
    var braces, items := ValuesSound(rd, toks, j + 1);
    p := Comparison(toks[i].kind.src, toks[i].kind.key, quant, toks[j].kind.text, braces, items);
    AtCons(toks, j, Ident(p.op), YieldValues(braces, items));
    AtAppend(toks, i + 1, q, [Ident(p.op)] + YieldValues(braces, items));
    AtCons(toks, i, Attr(p.src, p.key), q + ([Ident(p.op)] + YieldValues(braces, items)));
  }

  lemma PredicateSound(rd: Reader, toks: seq<Token>, i: nat) returns (p: Predicate)
    requires Framed(toks) && i < |toks| && ParsePredicate(rd, toks, i).Good?
    ensures ValidPredicate(rd, p) && At(toks, i, YieldPredicate(p))
    ensures ParsePredicate(rd, toks, i) == Good(TreePredicate(p), i + |YieldPredicate(p)|)
  {
    hide ParseComparison, EqualFold, Lower;
    var t := toks[i];
    if t.kind.Ident? {
      if IsKeyword(t, "ActionMatches") || IsKeyword(t, "SubOperationMatches") {
        p := Matching(t.kind.text, toks[i + 2].kind.text);
      } else {
        p := Existence(t.kind.text, toks[i + 1].kind.src, toks[i + 1].kind.key);
      }
    } else {
      p := ComparisonSound(rd, toks, i);
    }
  }

  lemma {:induction false} ClosedSound(rd: Reader, toks: seq<Token>, i: nat) returns (e: OrExpr)
    requires Framed(toks) && i < |toks| && ParseClosed(rd, toks, i).Good?
    ensures ValidOr(rd, e) && At(toks, i, YieldOr(e) + [Punct(')')])
    ensures ParseClosed(rd, toks, i) == Good(TreeOr(e), i + |YieldOr(e)| + 1)
    decreases |toks| - i, 4
  {
    hide ParseOr, YieldOr, TreeOr, ValidOr;
    e := OrSound(rd, toks, i);
    AtOne(toks, i + |YieldOr(e)|, Punct(')'));
    AtAppend(toks, i, YieldOr(e), [Punct(')')]);
  }

  lemma {:induction false} UnarySound(rd: Reader, toks: seq<Token>, i: nat) returns (d: Unary)
    requires Framed(toks) && i < |toks| && ParseUnary(rd, toks, i).Good?
    ensures ValidUnary(rd, d) && At(toks, i, YieldUnary(d))
    ensures ParseUnary(rd, toks, i) == Good(TreeUnary(d), i + |YieldUnary(d)|)
    decreases |toks| - i, 1
  {
    hide ParseClosed, YieldOr, TreeOr, ValidOr, ParsePredicate, YieldPredicate, TreePredicate, ValidPredicate;
    hide ParseAnd, YieldAnd, TreeAnd, ValidAnd, EqualFold;
    if IsPunct(toks[i], '!') {
      var e := ClosedSound(rd, toks, i + 2);
      d := Negation(e);
      AtCons(toks, i + 1, Punct('('), YieldOr(e) + [Punct(')')]);
      AtCons(toks, i, Punct('!'), [Punct('(')] + (YieldOr(e) + [Punct(')')]));
    } else if IsPunct(toks[i], '(') {
      var e := ClosedSound(rd, toks, i + 1);
      d := Group(e);
      AtCons(toks, i, Punct('('), YieldOr(e) + [Punct(')')]);
    } else {
      var p := PredicateSound(rd, toks, i);
      d := Leaf(p);
    }
  }

  lemma {:induction false} AndTailSound(rd: Reader, toks: seq<Token>, i: nat, j: nat, d: AndExpr)
    returns (whole: AndExpr)
    requires Framed(toks) && ValidAnd(rd, d) && At(toks, i, YieldAnd(d)) && j == i + |YieldAnd(d)|
    requires AndTail(rd, toks, j, TreeAnd(d)).Good?
    ensures ValidAnd(rd, whole) && At(toks, i, YieldAnd(whole))
    ensures AndTail(rd, toks, j, TreeAnd(d)) == Good(TreeAnd(whole), i + |YieldAnd(whole)|)
    decreases |toks| - j, 0
  {
    hide ParseUnary, YieldUnary, TreeUnary, ValidUnary, EqualFold;
    if IsKeyword(toks[j], "AND") {
      var u := UnarySound(rd, toks, j + 1);
      var kw := toks[j].kind.text;
      var longer := MoreAnd(d, kw, u);
      AtCons(toks, j, Ident(kw), YieldUnary(u));
      AndTurn(rd, toks, j, TreeAnd(d), TreeUnary(u), j + 1 + |YieldUnary(u)|,
              AndTail(rd, toks, j + 1 + |YieldUnary(u)|, TreeAnd(longer)));
      AtAppend(toks, i, YieldAnd(d), [Ident(kw)] + YieldUnary(u));
      whole := AndTailSound(rd, toks, i, i + |YieldAnd(longer)|, longer);
    } else {
      whole := d;
    }
  }

  lemma {:induction false} AndSound(rd: Reader, toks: seq<Token>, i: nat) returns (d: AndExpr)
    requires Framed(toks) && i < |toks| && ParseAnd(rd, toks, i).Good?
    ensures ValidAnd(rd, d) && At(toks, i, YieldAnd(d))
    ensures ParseAnd(rd, toks, i) == Good(TreeAnd(d), i + |YieldAnd(d)|)
    decreases |toks| - i, 2
  {
    hide ParseUnary, YieldUnary, TreeUnary, ValidUnary, EqualFold;
    var u := UnarySound(rd, toks, i);
    d := AndTailSound(rd, toks, i, i + |YieldUnary(u)|, OneUnary(u));
  }

  lemma {:induction false} OrTailSound(rd: Reader, toks: seq<Token>, i: nat, j: nat, d: OrExpr) returns (whole: OrExpr)
    requires Framed(toks) && ValidOr(rd, d) && At(toks, i, YieldOr(d)) && j == i + |YieldOr(d)|
    requires OrTail(rd, toks, j, TreeOr(d)).Good?
    ensures ValidOr(rd, whole) && At(toks, i, YieldOr(whole))
    ensures OrTail(rd, toks, j, TreeOr(d)) == Good(TreeOr(whole), i + |YieldOr(whole)|)
    decreases |toks| - j, 0
  {
    hide ParseAnd, YieldAnd, TreeAnd, ValidAnd, EqualFold;
    if IsKeyword(toks[j], "OR") {
      var a := AndSound(rd, toks, j + 1);
      var kw := toks[j].kind.text;
      var longer := MoreOr(d, kw, a);
      AtCons(toks, j, Ident(kw), YieldAnd(a));
      OrTurn(rd, toks, j, TreeOr(d), TreeAnd(a), j + 1 + |YieldAnd(a)|);
      AtAppend(toks, i, YieldOr(d), [Ident(kw)] + YieldAnd(a));
      whole := OrTailSound(rd, toks, i, i + |YieldOr(longer)|, longer);
    } else {
      whole := d;
    }
  }

  lemma {:induction false} OrSound(rd: Reader, toks: seq<Token>, i: nat) returns (d: OrExpr)
    requires Framed(toks) && i < |toks| && ParseOr(rd, toks, i).Good?
    ensures ValidOr(rd, d) && At(toks, i, YieldOr(d))
    ensures ParseOr(rd, toks, i) == Good(TreeOr(d), i + |YieldOr(d)|)
    decreases |toks| - i, 3
  {
    var a := AndSound(rd, toks, i);
    d := OrTailSound(rd, toks, i, i + |YieldAnd(a)|, OneAnd(a));
  }

  // ---- the grammar theorem ----

  /** The token list is the yield of d followed by EOF. */
  ghost predicate Derives(rd: Reader, d: OrExpr, toks: seq<Token>) {
    ValidOr(rd, d) && |toks| == |YieldOr(d)| + 1 && At(toks, 0, YieldOr(d)) && toks[|YieldOr(d)|].kind.EOF?
  }

  /** The parser accepts exactly the grammar and yields the tree of the derivation. */
  lemma ParseTokensIff(rd: Reader, toks: seq<Token>, root: Node)
    requires Framed(toks)
    ensures ParseTokens(rd, toks) == Ok(root) <==> exists d :: Derives(rd, d, toks) && TreeOr(d) == root
  {
    hide ParseOr, YieldOr, TreeOr, ValidOr;
    if ParseTokens(rd, toks) == Ok(root) {
      var d := OrSound(rd, toks, 0);
      assert Derives(rd, d, toks);
    } else if exists d :: Derives(rd, d, toks) && TreeOr(d) == root {
      var d :| Derives(rd, d, toks) && TreeOr(d) == root;
      OrComplete(rd, toks, 0, d);
    }
  }

  /** The grammar is unambiguous: one token list, one tree. */
  lemma OneTree(rd: Reader, toks: seq<Token>, d: OrExpr, d': OrExpr)
    requires Framed(toks) && Derives(rd, d, toks) && Derives(rd, d', toks)
    ensures TreeOr(d) == TreeOr(d')
  {
    hide ParseOr, YieldOr, TreeOr, ValidOr;
    OrComplete(rd, toks, 0, d);
    OrComplete(rd, toks, 0, d');
  }
}
