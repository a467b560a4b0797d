/** internal/abac/parse.go, type parser: the methods that move the one cursor, each proved to do
    what the corresponding function of module Parser says. */
module Cursors {
  import opened Text
  import opened Conditions
  import opened Lexer
  import P = Parser

  /** The method returned p's result and, on success, left the cursor where p ends. */
  ghost predicate Agrees<T>(r: Result<T>, i: nat, p: P.Parsed<T>) {
    match p
    case Good(value, next) => r == Ok(value) && i == next
    case Fail(e) => r == Err(e)
  }

  class Cursor {
    const rd: Reader
    const toks: seq<Token>
    var i: nat

    ghost predicate Valid()
      reads this
    {
      P.Framed(toks) && i < |toks|
    }

    constructor (rd: Reader, toks: seq<Token>)
      requires P.Framed(toks)
      ensures Valid() && i == 0 && this.rd == rd && this.toks == toks
    {
      this.rd := rd;
      this.toks := toks;
      i := 0;
    }

    /** The current token; the cursor moves on unless it is EOF. */
    method Next() returns (t: Token)
      requires Valid()
      modifies this
      ensures Valid() && t == toks[old(i)]
      ensures i == if t.kind.EOF? then old(i) else old(i) + 1
    {
      t := toks[i];
      if !t.kind.EOF? {
        i := i + 1;
      }
    }

    method ExpectPunct(ch: char) returns (r: Result<()>)
      requires Valid()
      modifies this
      ensures Valid() && Agrees(r, i, P.ExpectPunct(toks, old(i), ch))
    {
      if !P.IsPunct(toks[i], ch) {
        return Err(ParseError(toks[i].pos, Complaint.ExpectedPunct(ch)));
      }
      var _ := Next();
      return Ok(());
    }

    method ParseLiteral() returns (r: Result<Literal>)
      requires Valid()
      modifies this
      ensures Valid() && Agrees(r, i, P.ParseLiteral(rd, toks, old(i)))
    {
      var t := toks[i];
      if t.kind.Quoted? {
        var _ := Next();
        return Ok(StringLit(t.kind.text));
      } else if t.kind.Number? {
        var _ := Next();
        if rd.number(t.kind.text).None? {
          return Err(ParseError(t.pos, NotANumber));
        }
        return Ok(NumberLit(t.kind.text));
      } else if P.IsKeyword(t, "true") || P.IsKeyword(t, "false") {
        var _ := Next();
        return Ok(BoolLit(P.IsKeyword(t, "true")));
      }
      return Err(ParseError(t.pos, ExpectedValue));
    }

    /** `[Quantifier:]`, then the operator's token. */
    method ParseQuantifier() returns (r: Result<Quantifier>)
      requires Valid()
      modifies this
      ensures Valid() && Agrees(r, i, P.ParseQuantifier(toks, old(i)))
    {
      hide QuantifierOf, Lower, P.ExpectPunct;
      var opTok := toks[i];
      if opTok.kind.Ident? {
        var q := QuantifierOf(Lower(opTok.kind.text));
        if !q.NoQuantifier? {
          var _ := Next();
          var e := ExpectPunct(':');
          if e.Err? {
            return Err(e.error);
          }
          return Ok(q);
        }
      }
      return Ok(NoQuantifier);
    }

    /** A literal, or a comma-separated set of them in braces. */
    method ParseValues() returns (r: Result<(bool, seq<Literal>)>)
      requires Valid()
      modifies this
      ensures Valid() && Agrees(r, i, P.ParseValues(rd, toks, old(i)))
    {
      hide P.ParseLiteral, P.ExpectPunct;
      if P.IsPunct(toks[i], '{') {
        var _ := Next();
        ghost var first := i;
        var values: seq<Literal> := [];
        while true
          invariant Valid() && first <= i
          invariant P.ParseItems(rd, toks, i, values) == P.ParseItems(rd, toks, first, [])
          decreases |toks| - i
        {
          var lit := ParseLiteral();
          if lit.Err? {
            return Err(lit.error);
          }
          values := values + [lit.value];
          if P.IsPunct(toks[i], ',') {
            var _ := Next();
            continue;
          }
          break;
        }
        var e := ExpectPunct('}');
        if e.Err? {
          return Err(e.error);
        }
        return Ok((true, values));
      }
      var lit := ParseLiteral();
      if lit.Err? {
        return Err(lit.error);
      }
      return Ok((false, [lit.value]));
    }

    method ParseComparison() returns (r: Result<Node>)
      requires Valid()
      modifies this
      ensures Valid() && Agrees(r, i, P.ParseComparison(rd, toks, old(i)))
    {
      hide P.ParseQuantifier, P.ParseValues, OperatorOf, Lower;
      var a := toks[i];
      if !a.kind.Attr? {
        return Err(ParseError(a.pos, ExpectedAttribute));
      }
      var _ := Next();
      var quant := ParseQuantifier();
      if quant.Err? {
        return Err(quant.error);
      }
      var opTok := toks[i];
      if !opTok.kind.Ident? || OperatorOf(Lower(opTok.kind.text)).None? {
        return Err(ParseError(opTok.pos, ExpectedOperator));
      }
      var _ := Next();
      var values := ParseValues();
      if values.Err? {
        return Err(values.error);
      }
      if !quant.value.NoQuantifier? && !values.value.0 {
        return Err(ParseError(opTok.pos, QuantifierNeedsSet));
      }
      return Ok(Compare(Ref(a.kind.src, a.kind.key), quant.value, OperatorOf(Lower(opTok.kind.text)).value,
                        values.value.1, values.value.0));
    }

    method ParseMatches() returns (r: Result<Node>)
      requires Valid() && toks[i].kind.Ident?
      modifies this
      ensures Valid() && Agrees(r, i, P.ParseMatches(toks, old(i)))
    {
      hide P.IsKeyword;
      var kw := Next();
      var open := ExpectPunct('{');
      if open.Err? {
        return Err(open.error);
      }
      var v := toks[i];
      if !v.kind.Quoted? {
        return Err(ParseError(v.pos, MatchesNeedsString));
      }
      var _ := Next();
      var close := ExpectPunct('}');
      if close.Err? {
        return Err(close.error);
      }
      return Ok(Action(v.kind.text, P.IsKeyword(kw, "SubOperationMatches")));
    }

    method ParsePredicate() returns (r: Result<Node>)
      requires Valid()
      modifies this
      ensures Valid() && Agrees(r, i, P.ParsePredicate(rd, toks, old(i)))
    {
      hide P.ParseMatches, P.ParseComparison, QuantifierOf, Lower, EqualFold;
      var t := toks[i];
      if t.kind.Ident? {
        if P.IsKeyword(t, "ActionMatches") || P.IsKeyword(t, "SubOperationMatches") {
          r := ParseMatches();
          return;
        } else if P.IsKeyword(t, "Exists") {
          var _ := Next();
          var a := toks[i];
          if !a.kind.Attr? {
            return Err(ParseError(a.pos, ExistsNeedsAttribute));
          }
          var _ := Next();
          return Ok(Exists(Ref(a.kind.src, a.kind.key)));
        }
        if !QuantifierOf(Lower(t.kind.text)).NoQuantifier? {
          return Err(ParseError(t.pos, QuantifierBelongsAfter));
        }
        return Err(ParseError(t.pos, UnknownKeyword));
      }
      r := ParseComparison();
    }

    /** The rest of a parenthesised expression. */
    method ParseClosed() returns (r: Result<Node>)
      requires Valid()
      modifies this
      ensures Valid() && Agrees(r, i, P.ParseClosed(rd, toks, old(i)))
      decreases |toks| - i, 4
    {
      hide P.ParseOr;
      var inner := ParseOr();
      if inner.Err? {
        return inner;
      }
      var close := ExpectPunct(')');
      if close.Err? {
        return Err(close.error);
      }
      return inner;
    }

    method ParseUnary() returns (r: Result<Node>)
      requires Valid()
      modifies this
      ensures Valid() && Agrees(r, i, P.ParseUnary(rd, toks, old(i)))
      decreases |toks| - i, 1
    {
      hide P.ParseClosed, P.ParsePredicate;
      if P.IsPunct(toks[i], '!') {
        var _ := Next();
        var open := ExpectPunct('(');
        if open.Err? {
          return Err(open.error);
        }
        var inner := ParseClosed();
        if inner.Err? {
          return inner;
        }
        return Ok(Not(inner.value));
      } else if P.IsPunct(toks[i], '(') {
        var _ := Next();
        r := ParseClosed();
        return;
      }
      r := ParsePredicate();
    }

    method ParseAnd() returns (r: Result<Node>)
      requires Valid()
      modifies this
      ensures Valid() && Agrees(r, i, P.ParseAnd(rd, toks, old(i)))
      decreases |toks| - i, 2
    {
      hide P.ParseUnary, EqualFold;
      var left := ParseUnary();
      if left.Err? {
        return left;
      }
      ghost var first, leftmost := i, left.value;
      while P.IsKeyword(toks[i], "AND")
        invariant Valid() && first <= i && left.Ok?
        invariant P.AndTail(rd, toks, i, left.value) == P.AndTail(rd, toks, first, leftmost)
        decreases |toks| - i
      {
        var _ := Next();
        var right := ParseUnary();
        if right.Err? {
          return right;
        }
        left := Ok(And(left.value, right.value));
      }
      return left;
    }

    method ParseOr() returns (r: Result<Node>)
      requires Valid()
      modifies this
      ensures Valid() && Agrees(r, i, P.ParseOr(rd, toks, old(i)))
      decreases |toks| - i, 3
    {
      hide P.ParseAnd, EqualFold;
      var left := ParseAnd();
      if left.Err? {
        return left;
      }
      ghost var first, leftmost := i, left.value;
      while P.IsKeyword(toks[i], "OR")
        invariant Valid() && first <= i && left.Ok?
        invariant P.OrTail(rd, toks, i, left.value) == P.OrTail(rd, toks, first, leftmost)
        decreases |toks| - i
      {
        var _ := Next();
        var right := ParseAnd();
        if right.Err? {
          return right;
        }
        left := Ok(Or(left.value, right.value));
      }
      return left;
    }
  }

  /** abac.Parse: lex, then one expression up to the end. */
  method ParseCondition(rd: Reader, src: string) returns (r: Result<Node>)
    ensures r == P.Parse(rd, src)
  {
    hide P.ParseOr, Lex, TrimSpace;
    if TrimSpace(src) == "" {
      return Err(ParseError(0, EmptyCondition));
    }
    var toks := LexLoop(src);
    if toks.Err? {
      return Err(toks.error);
    }
    LexWellFormed(src);
    var p := new Cursor(rd, toks.value);
    var root := p.ParseOr();
    if root.Err? {
      return root;
    }
    if !p.toks[p.i].kind.EOF? {
      return Err(ParseError(p.toks[p.i].pos, TrailingInput));
    }
    return root;
  }
}
