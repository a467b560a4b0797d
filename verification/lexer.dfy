/** internal/abac/parse.go, lex: condition text to tokens. */
module Lexer {
  import opened Text
  import opened Conditions

  predicate IsGap(c: char) {
    c in " \t\n\r"
  }

  predicate IsDigit(c: char) {
    '0' <= c <= '9'
  }

  predicate IsNumberChar(c: char) {
    IsDigit(c) || c == '.'
  }

  predicate IsIdentChar(c: char) {
    'a' <= c <= 'z' || 'A' <= c <= 'Z' || IsDigit(c) || c in "_./-"
  }

  predicate IsPunctChar(c: char) {
    c in "()[]{},:!"
  }

  /** A digit, or a minus sign with a digit after it. */
  predicate StartsNumber(x: string) {
    x != "" && (IsDigit(x[0]) || (x[0] == '-' && |x| > 1 && IsDigit(x[1])))
  }

  /** Length of the longest prefix of x whose characters all satisfy f. */
  function Span(f: char -> bool, x: string): (n: nat)
    ensures n <= |x|
    ensures forall i :: 0 <= i < n ==> f(x[i])
    ensures n < |x| ==> !f(x[n])
  {
    if x != "" && f(x[0]) then 1 + Span(f, x[1..]) else 0
  }

  /** One turn of the lexer's loop on the rest of the text. */
  datatype Scanned = Gap | Lexeme(kind: Kind, width: nat) | Bad(what: Complaint)

  function ScanAttribute(x: string): (r: Scanned)
    requires x != "" && x[0] == '@'
    ensures r.Lexeme? ==> 0 < r.width <= |x|
  {
    match IndexByte(x, '[')
    case None => Bad(AttributeNeedsBracket)
    case Some(j) =>
      match SourceOf(Lower(TrimSpace(x[1..j])))
      case None => Bad(UnknownSource)
      case Some(src) =>
        match IndexByte(x[j..], ']')
        case None => Bad(AttributeNeedsClosing)
        case Some(k) =>
          var key := TrimSpace(x[j + 1..j + k]);
          if key == "" then Bad(EmptyKey) else Lexeme(Attr(src, key), j + k + 1)
  }

  function Scan(x: string): (r: Scanned)
    requires x != ""
    ensures r.Lexeme? ==> 0 < r.width <= |x|
    ensures r.Gap? <==> IsGap(x[0])
  {
    var c := x[0];
    if IsGap(c) then Gap
    else if c == '@' then ScanAttribute(x)
    else if c == '\'' || c == '"' then
      match IndexByte(x[1..], c)
      case None => Bad(UnterminatedString)
      case Some(j) => Lexeme(Quoted(x[1..1 + j]), j + 2)
    else if StartsNumber(x) then
      var n := 1 + Span(IsNumberChar, x[1..]);
      Lexeme(Number(x[..n]), n)
    else if IsIdentChar(c) then
      var n := Span(IsIdentChar, x);
      Lexeme(Ident(x[..n]), n)
    else if IsPunctChar(c) then Lexeme(Punct(c), 1)
    else Bad(UnexpectedCharacter)
  }

  function LexFrom(s: string, i: nat): Result<seq<Token>>
    requires i <= |s|
    decreases |s| - i
  {
    if i == |s| then Ok([Token(EOF, |s|)])
    else match Scan(s[i..])
      case Bad(what) => Err(ParseError(i, what))
      case Gap => LexFrom(s, i + 1)
      case Lexeme(kind, width) =>
        match LexFrom(s, i + width)
        case Err(e) => Err(e)
        case Ok(rest) => Ok([Token(kind, i)] + rest)
  }

  function Lex(s: string): Result<seq<Token>> {
    LexFrom(s, 0)
  }

  // ---- what a token list must be, said without the scanner ----

  /** The text is a way of writing the token. */
  ghost predicate Spells(text: string, kind: Kind) {
    match kind
    case EOF => false
    case Ident(t) => text == t && t != "" && !StartsNumber(t) && forall i :: 0 <= i < |t| ==> IsIdentChar(t[i])
    case Number(t) => text == t && StartsNumber(t) && forall i :: 1 <= i < |t| ==> IsNumberChar(t[i])
    case Quoted(t) => exists q :: q in ['\'', '"'] && q !in t && text == [q] + t + [q]
    case Attr(src, key) => exists a, b :: SpellsAttribute(text, src, key, a, b)
    case Punct(c) => text == [c] && IsPunctChar(c)
  }

  ghost predicate SpellsAttribute(text: string, src: Source, key: string, a: string, b: string) {
    && text == "@" + a + "[" + b + "]" && '[' !in a && ']' !in b
    && SourceOf(Lower(TrimSpace(a))) == Some(src) && TrimSpace(b) == key && key != ""
  }

  /** Words and numbers run as far as they can. */
  ghost predicate Munched(kind: Kind, rest: string) {
    && (kind.Ident? ==> rest == "" || !IsIdentChar(rest[0]))
    && (kind.Number? ==> rest == "" || !IsNumberChar(rest[0]))
  }

  /** The tokens tile s from `from` to its end: each spelled where it says it is, nothing but
      white space between them, and one EOF at the end. */
  ghost predicate Tiles(s: string, from: nat, toks: seq<Token>)
    decreases |toks|
  {
    && toks != [] && from <= toks[0].pos <= |s|
    && (forall i :: from <= i < toks[0].pos ==> IsGap(s[i]))
    && if |toks| == 1 then toks[0] == Token(EOF, |s|)
       else exists end: nat :: TokenAt(s, toks[0], end) && Tiles(s, end, toks[1..])
  }

  ghost predicate TokenAt(s: string, t: Token, end: nat) {
    t.pos < end <= |s| && Spells(s[t.pos..end], t.kind) && Munched(t.kind, s[end..])
  }

  // ---- the scanner against that description ----

  lemma SpanIs(f: char -> bool, x: string, n: nat)
    requires n <= |x| && (forall i :: 0 <= i < n ==> f(x[i])) && (n < |x| ==> !f(x[n]))
    ensures Span(f, x) == n
  {
    var m := Span(f, x);
    assert m == n;
  }

  lemma IndexByteIs(x: string, c: char, n: nat)
    requires n < |x| && x[n] == c && c !in x[..n]
    ensures IndexByte(x, c) == Some(n)
  {
    assert IndexByte(x, c).value == n;
  }

  /** The text up to a first '[' and on to the next ']'. */
  lemma BracketSplit(x: string, j: nat, k: nat)
    requires 1 <= j && 1 <= k && j + k < |x|
    requires x[0] == '@' && x[j] == '[' && '[' !in x[..j] && x[j..][k] == ']' && ']' !in x[j..][..k]
    ensures x[..j + k + 1] == "@" + x[1..j] + "[" + x[j + 1..j + k] + "]"
    ensures '[' !in x[1..j] && ']' !in x[j + 1..j + k]
  {
    assert x[..j] == "@" + x[1..j];
    assert x[j..][..k] == "[" + x[j + 1..j + k];
  }

  lemma ScanAttributeSound(x: string, kind: Kind, w: nat)
    requires x != "" && x[0] == '@' && ScanAttribute(x) == Lexeme(kind, w)
    ensures 0 < w <= |x| && Spells(x[..w], kind) && kind.Attr?
  {
    hide TrimSpace, Lower, SourceOf, IndexByte;
    var j := IndexByte(x, '[').value;
    var k := IndexByte(x[j..], ']').value;
    BracketSplit(x, j, k);
    assert SpellsAttribute(x[..w], kind.src, kind.key, x[1..j], x[j + 1..j + k]);
  }

  lemma ScanAttributeComplete(x: string, src: Source, key: string, w: nat, a: string, b: string)
    requires 0 < w <= |x| && x[0] == '@' && SpellsAttribute(x[..w], src, key, a, b)
    ensures ScanAttribute(x) == Lexeme(Attr(src, key), w)
  {
    hide TrimSpace, Lower, SourceOf, IndexByte;
    var j, k := |a| + 1, |b| + 1;
    var text := x[..w];
    assert text[j] == '[' && text[j + k] == ']';
    assert x[j] == text[j] && x[j + k] == text[j + k];
    assert x[..j] == "@" + a;
    IndexByteIs(x, '[', j);
    assert x[j..][..k] == "[" + b;
    IndexByteIs(x[j..], ']', k);
    assert x[1..j] == a && x[j + 1..j + k] == b;
  }

  lemma ScanSound(x: string, kind: Kind, w: nat)
    requires x != "" && Scan(x) == Lexeme(kind, w)
    ensures 0 < w <= |x| && Spells(x[..w], kind) && Munched(kind, x[w..])
  {
    var c := x[0];
    if c == '@' {
      ScanAttributeSound(x, kind, w);
    } else if c == '\'' || c == '"' {
      var j := IndexByte(x[1..], c).value;
      assert x[1..][j] == x[j + 1] && x[1..][..j] == x[1..1 + j];
      assert x[..w] == [c] + kind.text + [c];
    } else if StartsNumber(x) {
      assert forall i :: 1 <= i < w ==> x[i] == x[1..][i - 1];
      assert w < |x| ==> x[w] == x[1..][w - 1];
    }
  }

  lemma ScanIdentComplete(x: string, kind: Kind, w: nat)
    requires x != "" && 0 < w <= |x| && kind.Ident? && Spells(x[..w], kind) && Munched(kind, x[w..])
    ensures Scan(x) == Lexeme(kind, w)
  {
    var t := x[..w];
    assert w < |x| ==> x[w..][0] == x[w];
    assert IsIdentChar(t[0]);
    if w == 1 && |x| > 1 && x[0] == '-' {
      assert !IsIdentChar(x[1]);
    } else if w > 1 {
      assert t[1] == x[1];
    }
    SpanIs(IsIdentChar, x, w);
  }

  lemma ScanNumberComplete(x: string, kind: Kind, w: nat)
    requires x != "" && 0 < w <= |x| && kind.Number? && Spells(x[..w], kind) && Munched(kind, x[w..])
    ensures Scan(x) == Lexeme(kind, w)
  {
    var t := x[..w];
    assert w < |x| ==> x[w..][0] == x[w];
    assert forall i :: 0 <= i < w - 1 ==> x[1..][i] == t[i + 1];
    SpanIs(IsNumberChar, x[1..], w - 1);
  }

  lemma ScanQuotedComplete(x: string, t: string, w: nat)
    requires 0 < w <= |x| && Spells(x[..w], Quoted(t))
    ensures Scan(x) == Lexeme(Quoted(t), w)
  {
    var q :| q in ['\'', '"'] && q !in t && x[..w] == [q] + t + [q];
    assert w == |t| + 2;
    assert x[0] == x[..w][0] == q && x[w - 1] == x[..w][w - 1] == q;
    assert x[1..][..w - 2] == x[..w][1..w - 1] == t;
    IndexByteIs(x[1..], q, w - 2);
  }

  lemma ScanAttrComplete(x: string, src: Source, key: string, w: nat)
    requires 0 < w <= |x| && Spells(x[..w], Attr(src, key))
    ensures Scan(x) == Lexeme(Attr(src, key), w)
  {
    hide ScanAttribute;
    var a, b :| SpellsAttribute(x[..w], src, key, a, b);
    assert x[0] == x[..w][0] == '@';
    ScanAttributeComplete(x, src, key, w, a, b);
  }

  lemma ScanPunctComplete(x: string, c: char, w: nat)
    requires 0 < w <= |x| && Spells(x[..w], Punct(c))
    ensures Scan(x) == Lexeme(Punct(c), w)
  {
    assert x[0] == x[..w][0];
  }

  lemma EOFHasNoSpelling(text: string)
    ensures !Spells(text, EOF)
  {}

  lemma ScanComplete(x: string, kind: Kind, w: nat)
    requires x != "" && 0 < w <= |x| && Spells(x[..w], kind) && Munched(kind, x[w..])
    ensures Scan(x) == Lexeme(kind, w)
  {
    hide Spells, Munched, Scan;
    EOFHasNoSpelling(x[..w]);
    match kind {
      case Quoted(t) => ScanQuotedComplete(x, t, w);
      case Attr(src, key) => ScanAttrComplete(x, src, key, w);
      case Punct(c) => ScanPunctComplete(x, c, w);
      case Ident(_) => ScanIdentComplete(x, kind, w);
      case _ => ScanNumberComplete(x, kind, w);
    }
  }

  /** The scanner emits exactly the longest spelling at the head of the text. */
  lemma ScanExact(x: string, kind: Kind, w: nat)
    requires x != ""
    ensures Scan(x) == Lexeme(kind, w) <==> 0 < w <= |x| && Spells(x[..w], kind) && Munched(kind, x[w..])
  {
    hide Spells, Munched, Scan;
    if Scan(x) == Lexeme(kind, w) {
      ScanSound(x, kind, w);
    } else if 0 < w <= |x| && Spells(x[..w], kind) && Munched(kind, x[w..]) {
      ScanComplete(x, kind, w);
    }
  }

  lemma TokenAtExact(s: string, t: Token, end: nat)
    requires t.pos < end <= |s|
    ensures Scan(s[t.pos..]) == Lexeme(t.kind, end - t.pos) <==> TokenAt(s, t, end)
  {
    var x, w := s[t.pos..], end - t.pos;
    assert s[t.pos..end] == x[..w] && s[end..] == x[w..];
    ScanExact(x, t.kind, w);
  }

  lemma NotEOF(s: string, t: Token, end: nat)
    requires TokenAt(s, t, end)
    ensures !t.kind.EOF?
  {}

  lemma TilesCons(s: string, from: nat, t: Token, end: nat, rest: seq<Token>)
    requires from <= t.pos && forall i :: from <= i < t.pos && i < |s| ==> IsGap(s[i])
    requires TokenAt(s, t, end) && Tiles(s, end, rest)
    ensures Tiles(s, from, [t] + rest)
  {
    hide Spells, Munched;
    NotEOF(s, t, end);
    assert ([t] + rest)[1..] == rest;
  }

  lemma {:induction false} LexTiles(s: string, i: nat)
    requires i <= |s| && LexFrom(s, i).Ok?
    ensures Tiles(s, i, LexFrom(s, i).value)
    decreases |s| - i
  {
    hide Spells, Munched, Scan;
    if i < |s| {
      match Scan(s[i..]) {
        case Gap =>
          LexTiles(s, i + 1);
        case Lexeme(kind, w) =>
          TokenAtExact(s, Token(kind, i), i + w);
          LexTiles(s, i + w);
          TilesCons(s, i, Token(kind, i), i + w, LexFrom(s, i + w).value);
        case Bad(_) =>
      }
    }
  }

  lemma GapScan(s: string, i: nat)
    requires i < |s| && IsGap(s[i])
    ensures LexFrom(s, i) == LexFrom(s, i + 1)
  {
    hide ScanAttribute;
    assert s[i..][0] == s[i];
  }

  lemma {:induction false} GapsScan(s: string, i: nat, j: nat)
    requires i <= j <= |s| && forall k :: i <= k < j ==> IsGap(s[k])
    ensures LexFrom(s, i) == LexFrom(s, j)
    decreases j - i
  {
    hide LexFrom, Scan, IsGap;
    if i < j {
      GapScan(s, i);
      GapsScan(s, i + 1, j);
    }
  }

  lemma LexFromLexeme(s: string, t: Token, end: nat, rest: seq<Token>)
    requires t.pos < end <= |s| && Scan(s[t.pos..]) == Lexeme(t.kind, end - t.pos)
    requires LexFrom(s, end) == Ok(rest)
    ensures LexFrom(s, t.pos) == Ok([t] + rest)
  {
    hide Scan;
  }

  lemma {:induction false} TilesLex(s: string, i: nat, toks: seq<Token>)
    requires i <= |s| && Tiles(s, i, toks)
    ensures LexFrom(s, i) == Ok(toks)
    decreases |toks|
  {
    hide Spells, Munched, Scan;
    var t, rest := toks[0], toks[1..];
    GapsScan(s, i, t.pos);
    assert toks == [t] + rest;
    if |toks| > 1 {
      var end: nat :| TokenAt(s, t, end) && Tiles(s, end, rest);
      TokenAtExact(s, t, end);
      TilesLex(s, end, rest);
      LexFromLexeme(s, t, end, rest);
    } else {
      assert toks == [Token(EOF, |s|)];
    }
  }

  /** Lexing is loss-free and unambiguous: it yields toks exactly when toks tile the text. */
  lemma LexExactIff(s: string, toks: seq<Token>)
    ensures Lex(s) == Ok(toks) <==> Tiles(s, 0, toks)
  {
    hide LexFrom, Tiles;
    if Lex(s) == Ok(toks) {
      LexTiles(s, 0);
    } else if Tiles(s, 0, toks) {
      TilesLex(s, 0, toks);
    }
  }

  /** What the parser relies on: one EOF, at the end, and positions that only rise. */
  ghost predicate WellFormed(toks: seq<Token>, n: nat) {
    && toks != [] && toks[|toks| - 1] == Token(EOF, n)
    && (forall i :: 0 <= i < |toks| - 1 ==> !toks[i].kind.EOF?)
    && (forall i, j :: 0 <= i < j < |toks| ==> toks[i].pos < toks[j].pos <= n)
  }

  lemma {:induction false} TilesWellFormed(s: string, from: nat, toks: seq<Token>)
    requires from <= |s| && Tiles(s, from, toks)
    ensures WellFormed(toks, |s|)
    ensures forall i :: 0 <= i < |toks| ==> from <= toks[i].pos
    decreases |toks|
  {
    hide Spells, Munched, Scan;
    if |toks| > 1 {
      var end: nat :| TokenAt(s, toks[0], end) && Tiles(s, end, toks[1..]);
      NotEOF(s, toks[0], end);
      TilesWellFormed(s, end, toks[1..]);
      assert forall i :: 1 <= i < |toks| ==> toks[i] == toks[1..][i - 1];
    }
  }

  lemma LexWellFormed(s: string)
    requires Lex(s).Ok?
    ensures WellFormed(Lex(s).value, |s|)
  {
    hide LexFrom, Tiles;
    LexTiles(s, 0);
    TilesWellFormed(s, 0, Lex(s).value);
  }

  lemma {:induction false} LexErrorInText(s: string, i: nat)
    requires i <= |s| && LexFrom(s, i).Err?
    ensures i <= LexFrom(s, i).error.pos < |s|
    decreases |s| - i
  {
    hide Scan;
    match Scan(s[i..]) {
      case Gap => LexErrorInText(s, i + 1);
      case Lexeme(kind, w) =>
        LexErrorInText(s, i + w);
      case Bad(_) =>
    }
  }

  function Prepend(out: seq<Token>, r: Result<seq<Token>>): Result<seq<Token>> {
    match r
    case Err(e) => Err(e)
    case Ok(rest) => Ok(out + rest)
  }

  /** One turn of the loop, seen from the whole text. */
  lemma Turn(s: string, i: nat, out: seq<Token>)
    requires i < |s|
    ensures match Scan(s[i..])
            case Bad(what) => Prepend(out, LexFrom(s, i)) == Err(ParseError(i, what))
            case Gap => Prepend(out, LexFrom(s, i)) == Prepend(out, LexFrom(s, i + 1))
            case Lexeme(kind, w) =>
              && 0 < w <= |s| - i
              && Prepend(out, LexFrom(s, i)) == Prepend(out + [Token(kind, i)], LexFrom(s, i + w))
  {
    hide Scan;
    match Scan(s[i..]) {
      case Lexeme(kind, w) =>
        if LexFrom(s, i + w).Ok? {
          var rest := LexFrom(s, i + w).value;
          assert out + ([Token(kind, i)] + rest) == (out + [Token(kind, i)]) + rest;
        }
      case _ =>
    }
  }

  lemma QuotedTurn(s: string, start: nat)
    requires start < |s| && (s[start] == '\'' || s[start] == '"')
    ensures Scan(s[start..]) == match IndexByte(s[start + 1..], s[start])
                                case None => Bad(UnterminatedString)
                                case Some(j) => Lexeme(Quoted(s[start + 1..start + 1 + j]), j + 2)
  {
    assert s[start..][1..] == s[start + 1..];
    var j := IndexByte(s[start + 1..], s[start]);
    if j.Some? {
      assert s[start..][1..1 + j.value] == s[start + 1..start + 1 + j.value];
    }
  }

  lemma NumberTurn(s: string, start: nat, end: nat)
    requires start < end <= |s| && StartsNumber(s[start..])
    requires forall k :: start < k < end ==> IsNumberChar(s[k])
    requires end < |s| ==> !IsNumberChar(s[end])
    ensures Scan(s[start..]) == Lexeme(Number(s[start..end]), end - start)
  {
    var rest := s[start..][1..];
    assert forall k :: 0 <= k < |rest| ==> rest[k] == s[start + 1 + k];
    SpanIs(IsNumberChar, rest, end - start - 1);
    assert s[start..][..end - start] == s[start..end];
  }

  lemma IdentTurn(s: string, start: nat, end: nat)
    requires start < end <= |s| && !StartsNumber(s[start..])
    requires forall k :: start <= k < end ==> IsIdentChar(s[k])
    requires end < |s| ==> !IsIdentChar(s[end])
    ensures Scan(s[start..]) == Lexeme(Ident(s[start..end]), end - start)
  {
    SpanIs(IsIdentChar, s[start..], end - start);
    assert s[start..][..end - start] == s[start..end];
  }

  /** The switch in the loop's body, from the character at `start`. */
  method ScanAt(s: string, start: nat) returns (turn: Scanned)
    requires start < |s|
    ensures turn == Scan(s[start..])
  {
    var c := s[start];
    if IsGap(c) {
      return Gap;
    } else if c == '@' {
      return ScanAttribute(s[start..]);
    } else if c == '\'' || c == '"' {
      QuotedTurn(s, start);
      var j := IndexByte(s[start + 1..], c);
      if j.None? {
        return Bad(UnterminatedString);
      }
      return Lexeme(Quoted(s[start + 1..start + 1 + j.value]), j.value + 2);
    } else if IsDigit(c) || (c == '-' && start + 1 < |s| && IsDigit(s[start + 1])) {
      var i := start + 1;
      while i < |s| && IsNumberChar(s[i])
        invariant start < i <= |s|
        invariant forall k :: start < k < i ==> IsNumberChar(s[k])
      {
        i := i + 1;
      }
      NumberTurn(s, start, i);
      return Lexeme(Number(s[start..i]), i - start);
    } else if IsIdentChar(c) {
      var i := start;
      while i < |s| && IsIdentChar(s[i])
        invariant start <= i <= |s|
        invariant forall k :: start <= k < i ==> IsIdentChar(s[k])
      {
        i := i + 1;
      }
      IdentTurn(s, start, i);
      return Lexeme(Ident(s[start..i]), i - start);
    } else if IsPunctChar(c) {
      return Lexeme(Punct(c), 1);
    } else {
      return Bad(UnexpectedCharacter);
    }
  }

  method LexLoop(s: string) returns (r: Result<seq<Token>>)
    ensures r == Lex(s)
  {
    hide Scan, IsGap;
    var out: seq<Token>, i := [], 0;
    assert Lex(s).Ok? ==> out + Lex(s).value == Lex(s).value;
    while i < |s|
      invariant i <= |s|
      invariant Lex(s) == Prepend(out, LexFrom(s, i))
    {
      Turn(s, i, out);
      var turn := ScanAt(s, i);
      match turn {
        case Gap =>
          i := i + 1;
        case Lexeme(kind, width) =>
          out := out + [Token(kind, i)];
          i := i + width;
        case Bad(what) =>
          return Err(ParseError(i, what));
      }
    }
    return Ok(out + [Token(EOF, |s|)]);
  }
}
