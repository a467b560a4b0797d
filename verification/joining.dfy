/** Joining condition texts, as callers narrow and guard conditions: the result is in the language
    and means what it says. */
module Joining {
  import opened Text
  import opened Conditions
  import opened Lexer
  import opened Grammar
  import opened Parser
  import opened Parsing
  import opened ConditionText
  import opened Rendering

  /** `(a) KW (b)`. */
  function Joined(a: string, kw: string, b: string): string {
    "(" + (a + (") " + (kw + (" (" + (b + ")")))))
  }

  /** How a caller narrows a condition further: `(a) AND (b)`. */
  function Conjoin(a: string, b: string): string {
    Joined(a, "AND", b)
  }

  /** The guard real conditions open with: `!(ActionMatches{'pattern'}) OR (rest)`. */
  function GuardText(pattern: string, rest: string): string {
    "!" + Joined(MatchText(pattern), "OR", rest)
  }

  function MatchText(pattern: string): string {
    "ActionMatches" + ("{" + (("'" + pattern + "'") + "}"))
  }

  function Moved(t: Token, off: nat): Token {
    t.(pos := t.pos + off)
  }

  /** The tokens but EOF, moved by off. */
  function Shift(toks: seq<Token>, off: nat): (r: seq<Token>)
    requires toks != []
    ensures |r| == |toks| - 1 && forall i :: 0 <= i < |r| ==> r[i] == Moved(toks[i], off)
  {
    if |toks| == 1 then [] else [Moved(toks[0], off)] + Shift(toks[1..], off)
  }

  lemma SliceInside(big: string, off: nat, s: string, lo: nat, hi: nat)
    requires off + |s| <= |big| && big[off..off + |s|] == s && lo <= hi <= |s|
    ensures big[lo + off..hi + off] == s[lo..hi]
  {
    forall k | 0 <= k < hi - lo ensures big[lo + off..hi + off][k] == s[lo..hi][k] {
      assert s[lo + k] == big[off..off + |s|][lo + k];
    }
  }

  lemma TokenEmbeds(big: string, off: nat, s: string, t: Token, end: nat)
    requires off + |s| < |big| && big[off..off + |s|] == s && big[off + |s|] == ')'
    requires TokenAt(s, t, end)
    ensures TokenAt(big, Moved(t, off), end + off)
  {
    hide Spells;
    SliceInside(big, off, s, t.pos, end);
    if end < |s| {
      assert big[off + end] == big[off..off + |s|][end] == s[end];
      assert big[end + off..][0] == s[end..][0];
    } else {
      GapEndsWord(t.kind, big[end + off..]);
    }
  }

  lemma TokenInside(s: string, t: Token, end: nat)
    requires TokenAt(s, t, end)
    ensures t.pos < end <= |s|
  {}

  /** A text tiled by tokens keeps them when it stands inside parentheses. */
  lemma {:induction false} TilesEmbed(big: string, off: nat, s: string, from: nat, toks: seq<Token>, tail: seq<Token>)
    requires off + |s| < |big| && big[off..off + |s|] == s && big[off + |s|] == ')'
    requires from <= |s| && Tiles(s, from, toks)
    requires Tiles(big, off + |s|, tail)
    ensures Tiles(big, off + from, Shift(toks, off) + tail)
    decreases |toks|
  {
    hide TokenAt;
    assert forall i :: 0 <= i < |s| ==> s[i] == big[off..off + |s|][i];
    var t := toks[0];
    if |toks| == 1 {
      assert forall i :: off + from <= i < off + |s| ==> big[i] == s[i - off];
      assert Shift(toks, off) + tail == tail;
      TilesEarlier(big, off + from, off + |s|, tail);
    } else {
      var end: nat :| TokenAt(s, t, end) && Tiles(s, end, toks[1..]);
      TokenInside(s, t, end);
      TokenEmbeds(big, off, s, t, end);
      TilesEmbed(big, off, s, end, toks[1..], tail);
      assert Shift(toks, off) + tail == [Moved(t, off)] + (Shift(toks[1..], off) + tail);
      assert forall i :: off + from <= i < off + t.pos ==> big[i] == s[i - off];
      TilesCons(big, off + from, Moved(t, off), end + off, Shift(toks[1..], off) + tail);
    }
  }

  function KindsOf(toks: seq<Token>): (ks: seq<Kind>)
    ensures |ks| == |toks| && forall i :: 0 <= i < |toks| ==> ks[i] == toks[i].kind
  {
    seq(|toks|, i requires 0 <= i < |toks| => toks[i].kind)
  }

  lemma DerivesKinds(rd: Reader, d: OrExpr, toks: seq<Token>)
    ensures Derives(rd, d, toks) <==> ValidOr(rd, d) && KindsOf(toks) == YieldOr(d) + [EOF]
  {
    hide ValidOr, YieldOr;
    var y := YieldOr(d);
    if Derives(rd, d, toks) {
      assert forall i :: 0 <= i < |y| ==> toks[0 + i].kind == y[i];
    }
  }

  /** A punctuation mark or a word standing in the text, followed by what ends it. */
  lemma PunctTiles(s: string, p: nat, c: char, tail: seq<Token>)
    requires p < |s| && s[p] == c && IsPunctChar(c) && Tiles(s, p + 1, tail)
    ensures Tiles(s, p, [Token(Punct(c), p)] + tail)
  {
    hide Tiles;
    assert s[p..p + 1] == [c];
    TilesCons(s, p, Token(Punct(c), p), p + 1, tail);
  }

  lemma WordTiles(s: string, p: nat, w: string, tail: seq<Token>)
    requires w != "" && Letters(w) && p + |w| < |s| && s[p..p + |w|] == w && IsGap(s[p + |w|])
    requires Tiles(s, p + |w|, tail)
    ensures Tiles(s, p, [Token(Ident(w), p)] + tail)
  {
    hide Tiles, Printable, Letters;
    LettersPrint(w);
    WordIsSpelled(w);
    assert s[p + |w|..][0] == s[p + |w|];
    GapEndsWord(Ident(w), s[p + |w|..]);
    TilesCons(s, p, Token(Ident(w), p), p + |w|, tail);
  }

  lemma WordIsSpelled(w: string)
    requires Printable(Ident(w))
    ensures Spells(w, Ident(w))
  {}

  /** The tokens of `(inner)` opening at p, and then tail. */
  function Enclosed(p: nat, inner: string, toks: seq<Token>, tail: seq<Token>): seq<Token>
    requires toks != []
  {
    [Token(Punct('('), p)] + (Shift(toks, p + 1) + ([Token(Punct(')'), p + 1 + |inner|)] + tail))
  }

  lemma EnclosedTiles(s: string, p: nat, inner: string, toks: seq<Token>, tail: seq<Token>)
    requires p + |inner| + 1 < |s| && s[p] == '(' && s[p + 1..p + 1 + |inner|] == inner
    requires s[p + 1 + |inner|] == ')'
    requires Tiles(inner, 0, toks) && Tiles(s, p + 2 + |inner|, tail)
    ensures Tiles(s, p, Enclosed(p, inner, toks, tail))
  {
    hide Tiles;
    PunctTiles(s, p + 1 + |inner|, ')', tail);
    var rest := [Token(Punct(')'), p + 1 + |inner|)] + tail;
    TilesEmbed(s, p + 1, inner, 0, toks, rest);
    PunctTiles(s, p, '(', Shift(toks, p + 1) + rest);
  }

  lemma ShiftKinds(toks: seq<Token>, off: nat, y: seq<Kind>)
    requires toks != [] && KindsOf(toks) == y + [EOF]
    ensures KindsOf(Shift(toks, off)) == y
  {
    hide Shift;
    assert forall i :: 0 <= i < |y| ==> KindsOf(toks)[i] == y[i];
  }

  lemma KindsAppend(a: seq<Token>, b: seq<Token>)
    ensures KindsOf(a + b) == KindsOf(a) + KindsOf(b)
  {}

  lemma EnclosedKinds(p: nat, inner: string, toks: seq<Token>, tail: seq<Token>, d: OrExpr)
    requires toks != [] && KindsOf(toks) == YieldOr(d) + [EOF]
    ensures KindsOf(Enclosed(p, inner, toks, tail)) == YieldUnary(Group(d)) + KindsOf(tail)
  {
    hide YieldOr, Shift, KindsOf;
    OneKind(Token(Punct('('), p));
    OneKind(Token(Punct(')'), p + 1 + |inner|));
    var close := Token(Punct(')'), p + 1 + |inner|);
    ShiftKinds(toks, p + 1, YieldOr(d));
    KindsAppend([close], tail);
    KindsAppend(Shift(toks, p + 1), [close] + tail);
    KindsAppend([Token(Punct('('), p)], Shift(toks, p + 1) + ([close] + tail));
  }

  /** What follows the first operand of a joined text. */
  function Rest(kw: string, b: string): string {
    kw + (" (" + (b + ")"))
  }

  lemma HeadLayout(s: string, p: nat, a: string, kw: string, b: string)
    requires p <= |s| && s[p..] == Joined(a, kw, b)
    ensures p + |a| + 3 < |s| && s[p] == '(' && s[p + 1..p + 1 + |a|] == a && s[p + 1 + |a|] == ')'
    ensures s[p + |a| + 2] == ' ' && s[p + |a| + 3..] == Rest(kw, b)
  {
    var rest := ") " + Rest(kw, b);
    PieceOf(s, p, "(", a + rest);
    PieceOf(s, p + 1, a, rest);
    PieceOf(s, p + 1 + |a|, ") ", Rest(kw, b));
  }

  lemma RestLayout(s: string, w: nat, kw: string, b: string)
    requires w <= |s| && s[w..] == Rest(kw, b)
    ensures var o := w + |kw| + 1;
            && |s| == o + |b| + 2 && s[w..w + |kw|] == kw && s[w + |kw|] == ' ' && s[o] == '('
            && s[o + 1..o + 1 + |b|] == b && s[o + 1 + |b|] == ')'
  {
    PieceOf(s, w, kw, " (" + (b + ")"));
    PieceOf(s, w + |kw|, " (", b + ")");
    PieceOf(s, w + |kw| + 2, b, ")");
    PieceOf(s, w + |kw| + 2 + |b|, ")", "");
  }

  /** The tokens of a joined text at p, in a text of length n. */
  function JoinedTokens(p: nat, n: nat, a: string, kw: string, b: string, ta: seq<Token>, tb: seq<Token>): seq<Token>
    requires ta != [] && tb != []
  {
    Enclosed(p, a, ta, RestTokens(p + |a| + 3, n, kw, b, tb))
  }

  function RestTokens(w: nat, n: nat, kw: string, b: string, tb: seq<Token>): seq<Token>
    requires tb != []
  {
    [Token(Ident(kw), w)] + Enclosed(w + |kw| + 1, b, tb, [Token(EOF, n)])
  }

  lemma BlankTiles(s: string, p: nat, toks: seq<Token>)
    requires p < |s| && s[p] == ' ' && Tiles(s, p + 1, toks)
    ensures Tiles(s, p, toks)
  {
    TilesEarlier(s, p, p + 1, toks);
  }

  predicate Connective(kw: string) {
    kw == "AND" || kw == "OR"
  }

  lemma ConnectivesAreWords(kw: string)
    requires Connective(kw)
    ensures kw != "" && Letters(kw) && IsGap(' ') && Printable(Ident(kw))
  {}

  lemma RestTiles(s: string, w: nat, kw: string, b: string, tb: seq<Token>)
    requires w <= |s| && s[w..] == Rest(kw, b) && Connective(kw)
    requires tb != [] && Tiles(b, 0, tb)
    ensures Tiles(s, w, RestTokens(w, |s|, kw, b, tb))
  {
    hide Rest, Enclosed, Tiles, Letters, IsGap, Connective;
    RestLayout(s, w, kw, b);
    EndTiles(s);
    ConnectivesAreWords(kw);
    var o := w + |kw| + 1;
    var second := Enclosed(o, b, tb, [Token(EOF, |s|)]);
    EnclosedTiles(s, o, b, tb, [Token(EOF, |s|)]);
    BlankTiles(s, w + |kw|, second);
    WordTiles(s, w, kw, second);
  }

  lemma JoinedTiles(s: string, p: nat, a: string, kw: string, b: string, ta: seq<Token>, tb: seq<Token>)
    requires p <= |s| && s[p..] == Joined(a, kw, b) && Connective(kw)
    requires ta != [] && tb != [] && Tiles(a, 0, ta) && Tiles(b, 0, tb)
    ensures Tiles(s, p, JoinedTokens(p, |s|, a, kw, b, ta, tb))
  {
    hide Joined, Rest, Enclosed, RestTokens, Tiles;
    HeadLayout(s, p, a, kw, b);
    var rest := RestTokens(p + |a| + 3, |s|, kw, b, tb);
    RestTiles(s, p + |a| + 3, kw, b, tb);
    BlankTiles(s, p + |a| + 2, rest);
    EnclosedTiles(s, p, a, ta, rest);
  }

  lemma JoinedKinds(p: nat, n: nat, a: string, kw: string, b: string, ta: seq<Token>, tb: seq<Token>, x: OrExpr,
                    y: OrExpr)
    requires ta != [] && KindsOf(ta) == YieldOr(x) + [EOF]
    requires tb != [] && KindsOf(tb) == YieldOr(y) + [EOF]
    ensures KindsOf(JoinedTokens(p, n, a, kw, b, ta, tb)) ==
            (YieldUnary(Group(x)) + ([Ident(kw)] + YieldUnary(Group(y)))) + [EOF]
  {
    hide YieldOr, YieldUnary, Enclosed, KindsOf;
    var end, word, o := Token(EOF, n), Token(Ident(kw), p + |a| + 3), p + |a| + 3 + |kw| + 1;
    EnclosedKinds(o, b, tb, [end], y);
    KindsAppend([word], Enclosed(o, b, tb, [end]));
    EnclosedKinds(p, a, ta, RestTokens(p + |a| + 3, n, kw, b, tb), x);
    OneKind(end);
    OneKind(word);
  }

  lemma OneKind(t: Token)
    ensures KindsOf([t]) == [t.kind]
  {}

  lemma TilesSome(s: string, from: nat, toks: seq<Token>)
    requires Tiles(s, from, toks)
    ensures toks != []
  {}

  /** An accepted text and what shows that it is one. */
  lemma Witness(rd: Reader, src: string) returns (toks: seq<Token>, d: OrExpr)
    requires Parse(rd, src).Ok?
    ensures toks != [] && Tiles(src, 0, toks) && ValidOr(rd, d) && TreeOr(d) == Parse(rd, src).value
    ensures KindsOf(toks) == YieldOr(d) + [EOF]
  {
    hide Parse, YieldOr, TreeOr, ValidOr, Tiles, KindsOf, Derives;
    ParseIff(rd, src, Parse(rd, src).value);
    toks, d :| Tiles(src, 0, toks) && Derives(rd, d, toks) && TreeOr(d) == Parse(rd, src).value;
    DerivesKinds(rd, d, toks);
    TilesSome(src, 0, toks);
  }

  /** Two accepted texts joined by a connective parse to what joins their trees. */
  lemma JoinedParses(rd: Reader, a: string, kw: string, b: string)
    requires Parse(rd, a).Ok? && Parse(rd, b).Ok? && Connective(kw)
    ensures var x, y := Parse(rd, a).value, Parse(rd, b).value;
            Parse(rd, Joined(a, kw, b)) == Ok(if kw == "AND" then And(x, y) else Or(x, y))
  {
    hide Parse, Joined, YieldOr, TreeOr, ValidOr, Tiles, YieldUnary, KindsOf, Derives, JoinedTokens, Both, Either;
    var ta, x := Witness(rd, a);
    var tb, y := Witness(rd, b);
    var s := Joined(a, kw, b);
    assert s[0..] == s;
    JoinedTiles(s, 0, a, kw, b, ta, tb);
    JoinedKinds(0, |s|, a, kw, b, ta, tb, x, y);
    BothFaithful(rd, x, y);
    EitherFaithful(rd, x, y);
    var d := if kw == "AND" then Both(x, y) else Either(x, y);
    DerivesKinds(rd, d, JoinedTokens(0, |s|, a, kw, b, ta, tb));
    ParseIff(rd, s, TreeOr(d));
  }

  /** Conjoining two conditions as text parses to the conjunction of their trees. */
  lemma ConjoinParses(rd: Reader, a: string, b: string)
    requires Parse(rd, a).Ok? && Parse(rd, b).Ok?
    ensures Parse(rd, Conjoin(a, b)) == Ok(And(Parse(rd, a).value, Parse(rd, b).value))
  {
    hide Parse, Joined;
    JoinedParses(rd, a, "AND", b);
  }

  // ---- the guard, as text ----

  function MatchTokens(pattern: string): seq<Token> {
    [Token(Ident("ActionMatches"), 0), Token(Punct('{'), 13), Token(Quoted(pattern), 14),
     Token(Punct('}'), 16 + |pattern|), Token(EOF, 17 + |pattern|)]
  }

  function MatchDerivation(pattern: string): OrExpr {
    OneAnd(OneUnary(Leaf(Matching("ActionMatches", pattern))))
  }

  lemma WordBefore(s: string, p: nat, w: string, tail: seq<Token>)
    requires w != "" && Letters(w) && p + |w| < |s| && s[p..p + |w|] == w && !IsIdentChar(s[p + |w|])
    requires Tiles(s, p + |w|, tail)
    ensures Tiles(s, p, [Token(Ident(w), p)] + tail)
  {
    hide Tiles, Letters, IsIdentChar, Printable;
    LettersPrint(w);
    WordIsSpelled(w);
    assert s[p + |w|..][0] == s[p + |w|];
    TilesCons(s, p, Token(Ident(w), p), p + |w|, tail);
  }

  lemma QuotedTiles(s: string, p: nat, t: string, tail: seq<Token>)
    requires '\'' !in t && p + |t| + 2 <= |s| && s[p..p + |t| + 2] == "'" + t + "'" && Tiles(s, p + |t| + 2, tail)
    ensures Tiles(s, p, [Token(Quoted(t), p)] + tail)
  {
    hide Tiles;
    assert ['\''] == "'";
    TilesCons(s, p, Token(Quoted(t), p), p + |t| + 2, tail);
  }

  lemma MatchLetters()
    ensures Letters("ActionMatches") && |"ActionMatches"| == 13 && !IsIdentChar('{')
  {}

  lemma MatchLayout(pattern: string)
    ensures var s, n := MatchText(pattern), |pattern|;
            && |s| == 17 + n && s[0..13] == "ActionMatches" && s[13] == '{'
            && s[14..16 + n] == "'" + pattern + "'" && s[16 + n] == '}'
  {
    var s, q := MatchText(pattern), "'" + pattern + "'";
    assert s[0..] == s;
    PieceOf(s, 0, "ActionMatches", "{" + (q + "}"));
    PieceOf(s, 13, "{", q + "}");
    PieceOf(s, 14, q, "}");
    PieceOf(s, 16 + |pattern|, "}", "");
  }

  lemma MatchTiles(pattern: string)
    requires '\'' !in pattern
    ensures Tiles(MatchText(pattern), 0, MatchTokens(pattern))
  {
    hide Tiles, Letters, IsIdentChar, MatchText;
    MatchLetters();
    MatchLayout(pattern);
    var s, n := MatchText(pattern), |pattern|;
    EndTiles(s);
    var close := [Token(Punct('}'), 16 + n)] + [Token(EOF, 17 + n)];
    PunctTiles(s, 16 + n, '}', [Token(EOF, 17 + n)]);
    var quoted := [Token(Quoted(pattern), 14)] + close;
    QuotedTiles(s, 14, pattern, close);
    var open := [Token(Punct('{'), 13)] + quoted;
    PunctTiles(s, 13, '{', quoted);
    WordBefore(s, 0, "ActionMatches", open);
    assert [Token(Ident("ActionMatches"), 0)] + open == MatchTokens(pattern);
  }

  lemma MatchMeans(rd: Reader, pattern: string)
    ensures var d := MatchDerivation(pattern);
            && ValidOr(rd, d) && TreeOr(d) == Action(pattern, false)
            && KindsOf(MatchTokens(pattern)) == YieldOr(d) + [EOF]
  {
    SubIsNotAction();
    SameFold("ActionMatches");
    hide EqualFold;
    Lift(rd, Leaf(Matching("ActionMatches", pattern)));
    assert YieldUnary(Leaf(Matching("ActionMatches", pattern))) ==
           [Ident("ActionMatches"), Punct('{'), Quoted(pattern), Punct('}')];
  }

  /** A negated group before an OR. */
  function NotOr(x: OrExpr, y: OrExpr): OrExpr {
    MoreOr(OneAnd(OneUnary(Negation(x))), "OR", OneUnary(Group(y)))
  }

  lemma NotOrFaithful(rd: Reader, x: OrExpr, y: OrExpr)
    requires ValidOr(rd, x) && ValidOr(rd, y)
    ensures ValidOr(rd, NotOr(x, y)) && TreeOr(NotOr(x, y)) == Or(Not(TreeOr(x)), TreeOr(y))
    ensures YieldOr(NotOr(x, y)) == [Punct('!')] + (YieldUnary(Group(x)) + ([Ident("OR")] + YieldUnary(Group(y))))
  {
    SameFold("OR");
    GroupMeans(rd, x);
    GroupMeans(rd, y);
    Lift(rd, Negation(x));
    Lift(rd, Group(y));
    assert YieldUnary(Negation(x)) == [Punct('!')] + YieldUnary(Group(x));
    hide YieldUnary, ValidUnary, TreeUnary, EqualFold, YieldAnd, ValidAnd, TreeAnd;
    assert [Punct('!')] + YieldUnary(Group(x)) + ([Ident("OR")] + YieldUnary(Group(y))) ==
           [Punct('!')] + (YieldUnary(Group(x)) + ([Ident("OR")] + YieldUnary(Group(y))));
  }

  /** The guard as written parses to the guard as meant. */
  lemma GuardParses(rd: Reader, pattern: string, rest: string)
    requires '\'' !in pattern && Parse(rd, rest).Ok?
    ensures Parse(rd, GuardText(pattern, rest)) == Ok(Or(Not(Action(pattern, false)), Parse(rd, rest).value))
  {
    hide Parse, Joined, YieldOr, TreeOr, ValidOr, Tiles, YieldUnary, KindsOf, Derives, JoinedTokens, NotOr,
      MatchText, MatchTokens, MatchDerivation;
    var tb, y := Witness(rd, rest);
    var a, ta, x, s := MatchText(pattern), MatchTokens(pattern), MatchDerivation(pattern), GuardText(pattern, rest);
    MatchTiles(pattern);
    MatchMeans(rd, pattern);
    TilesSome(a, 0, ta);
    assert s[1..] == Joined(a, "OR", rest);
    JoinedTiles(s, 1, a, "OR", rest, ta, tb);
    var inner := JoinedTokens(1, |s|, a, "OR", rest, ta, tb);
    PunctTiles(s, 0, '!', inner);
    JoinedKinds(1, |s|, a, "OR", rest, ta, tb, x, y);
    OneKind(Token(Punct('!'), 0));
    KindsAppend([Token(Punct('!'), 0)], inner);
    NotOrFaithful(rd, x, y);
    DerivesKinds(rd, NotOr(x, y), [Token(Punct('!'), 0)] + inner);
    ParseIff(rd, s, TreeOr(NotOr(x, y)));
  }

  // ---- a negated text ----

  function NegatedText(a: string): string {
    "!(" + (a + ")")
  }

  /** An accepted text in parentheses after `!` parses to the negation of its tree. */
  lemma NegatedParses(rd: Reader, a: string)
    requires Parse(rd, a).Ok?
    ensures Parse(rd, NegatedText(a)) == Ok(Not(Parse(rd, a).value))
  {
    hide Parse, YieldOr, TreeOr, ValidOr, Tiles, YieldUnary, KindsOf, Derives, Enclosed, NegatedText;
    var ta, x := Witness(rd, a);
    var s := NegatedText(a);
    NegatedLayout(a);
    EndTiles(s);
    EnclosedTiles(s, 1, a, ta, [Token(EOF, |s|)]);
    var inner := Enclosed(1, a, ta, [Token(EOF, |s|)]);
    PunctTiles(s, 0, '!', inner);
    OneKind(Token(EOF, |s|));
    OneKind(Token(Punct('!'), 0));
    EnclosedKinds(1, a, ta, [Token(EOF, |s|)], x);
    KindsAppend([Token(Punct('!'), 0)], inner);
    GroupMeans(rd, x);
    Lift(rd, Negation(x));
    NegatedYield(x);
    var d := OneAnd(OneUnary(Negation(x)));
    DerivesKinds(rd, d, [Token(Punct('!'), 0)] + inner);
    ParseIff(rd, s, TreeOr(d));
  }

  lemma NegatedLayout(a: string)
    ensures var s := NegatedText(a);
            && |s| == |a| + 3 && s[0] == '!' && s[1] == '(' && s[2..2 + |a|] == a && s[2 + |a|] == ')'
  {
    var s := NegatedText(a);
    assert s[0..] == s;
    PieceOf(s, 0, "!(", a + ")");
    PieceOf(s, 2, a, ")");
  }

  lemma NegatedYield(x: OrExpr)
    ensures YieldUnary(Negation(x)) + [EOF] == [Punct('!')] + (YieldUnary(Group(x)) + [EOF])
  {
    hide YieldOr;
  }
}
