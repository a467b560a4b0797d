/** Whole conditions as text: what Parse accepts, and where its errors point. */
module ConditionText {
  import opened Text
  import opened Conditions
  import opened Lexer
  import opened Grammar
  import opened Parser
  import opened Parsing

  // ---- Parse, end to end ----

  lemma {:induction false} TrimLeftBlank(s: string)
    ensures TrimLeft(s) == "" <==> forall i :: 0 <= i < |s| ==> IsSpace(s[i])
  {
    if s != [] && IsSpace(s[0]) {
      TrimLeftBlank(s[1..]);
      assert forall i :: 1 <= i < |s| ==> s[i] == s[1..][i - 1];
    }
  }

  lemma {:induction false} TrimRightBlank(s: string)
    ensures TrimRight(s) == "" <==> forall i :: 0 <= i < |s| ==> IsSpace(s[i])
  {
    if s != [] && IsSpace(s[|s| - 1]) {
      TrimRightBlank(s[..|s| - 1]);
    }
  }

  lemma TrimBlank(s: string)
    requires TrimSpace(s) == ""
    ensures forall i :: 0 <= i < |s| ==> IsSpace(s[i])
  {
    TrimRightBlank(TrimLeft(s));
    if TrimLeft(s) != "" {
      TrimLeftHead(s);
    }
    TrimLeftBlank(s);
  }

  lemma {:induction false} TrimLeftHead(s: string)
    ensures TrimLeft(s) != "" ==> !IsSpace(TrimLeft(s)[0])
  {
    if s != [] && IsSpace(s[0]) {
      TrimLeftHead(s[1..]);
    }
  }

  /** Spaces, tabs, line ends, vertical tabs and form feeds only. */
  predicate White(s: string) {
    forall i :: 0 <= i < |s| ==> s[i] in [' ', '\t', '\n', '\r', 11 as char, 12 as char]
  }

  /** Go's TrimSpace leaves nothing of exactly those texts. */
  lemma BlankIff(s: string)
    ensures TrimSpace(s) == "" <==> White(s)
  {
    if TrimSpace(s) == "" {
      TrimBlank(s);
    } else if forall i :: 0 <= i < |s| ==> IsSpace(s[i]) {
      TrimLeftBlank(s);
    }
  }

  lemma EmptyIsRefused(rd: Reader, src: string)
    requires White(src)
    ensures Parse(rd, src) == Err(ParseError(0, EmptyCondition))
  {
    hide TrimSpace;
    BlankIff(src);
  }

  /** White space lexes to nothing or (vertical tab, form feed) not at all. */
  lemma {:induction false} BlankLexes(s: string, i: nat)
    requires i <= |s| && forall k :: 0 <= k < |s| ==> IsSpace(s[k])
    ensures LexFrom(s, i).Ok? ==> LexFrom(s, i) == Ok([Token(EOF, |s|)])
    decreases |s| - i
  {
    if i < |s| {
      assert s[i..][0] == s[i] && IsSpace(s[i]);
      if IsGap(s[i]) {
        BlankLexes(s, i + 1);
      } else {
        assert Scan(s[i..]).Bad?;
      }
    }
  }

  lemma OnlyEOFFails(rd: Reader, n: nat)
    ensures ParseTokens(rd, [Token(EOF, n)]).Err?
  {
    var toks := [Token(EOF, n)];
    assert ParseUnary(rd, toks, 0).Fail?;
    assert ParseAnd(rd, toks, 0).Fail?;
  }

  /** Parse accepts src with tree root exactly when src is tiled by tokens that derive root. */
  lemma ParseIff(rd: Reader, src: string, root: Node)
    ensures Parse(rd, src) == Ok(root) <==>
            exists toks, d :: Tiles(src, 0, toks) && Derives(rd, d, toks) && TreeOr(d) == root
  {
    hide Tiles, Derives, TreeOr, ParseTokens, LexFrom, TrimSpace;
    if Parse(rd, src) == Ok(root) {
      var toks := Lex(src).value;
      LexExactIff(src, toks);
      LexWellFormed(src);
      ParseTokensIff(rd, toks, root);
    } else if toks, d :| Tiles(src, 0, toks) && Derives(rd, d, toks) && TreeOr(d) == root {
      LexExactIff(src, toks);
      LexWellFormed(src);
      ParseTokensIff(rd, toks, root);
      if TrimSpace(src) == "" {
        TrimBlank(src);
        BlankLexes(src, 0);
        OnlyEOFFails(rd, |src|);
      }
    }
  }
}
