/** internal/arm/denyassignments.go, actionMatches: split on '*', then prefix, leftmost search
    for each middle piece, and suffix. */
module ActionPatterns {
  import opened Text
  import opened Wildcard

  /** The meaning both sides of an authorization rule should give a pattern. */
  predicate Covers(pattern: string, action: string) {
    Matches(ACTION, Lower(pattern), Lower(action))
  }

  predicate AnyCovers(patterns: seq<string>, action: string) {
    exists i :: 0 <= i < |patterns| && Covers(patterns[i], action)
  }

  function SplitStar(p: string): (parts: seq<string>)
    ensures |parts| >= 1
    ensures forall i :: 0 <= i < |parts| ==> '*' !in parts[i]
    ensures |parts| == 1 ==> parts[0] == p
    ensures JoinStar(parts) == p
    decreases |p|
  {
    match IndexByte(p, '*')
    case None => [p]
    case Some(k) =>
      var rest := SplitStar(p[k + 1..]);
      assert ([p[..k]] + rest)[1..] == rest;
      assert p == p[..k] + ['*'] + p[k + 1..];
      [p[..k]] + rest
  }

  function JoinStar(parts: seq<string>): string
    requires |parts| >= 1
  {
    if |parts| == 1 then parts[0] else parts[0] + ['*'] + JoinStar(parts[1..])
  }

  lemma {:induction false} MatchesLiteral(p: string, s: string)
    requires '*' !in p
    ensures Matches(ACTION, p, s) <==> p == s
  {
    assert p + "" == p;
    MatchesPiece(ACTION, p, "", s);
  }

  lemma FitsIsPrefix(piece: string, s: string)
    ensures Fits(ACTION, piece, s) <==> piece <= s
  {}

  /** The piece lies at k and the rest of the pattern takes what follows it. */
  predicate PlacedAt(mid: string, q: string, s: string, k: nat) {
    k <= |s| && mid <= s[k..] && Matches(ACTION, q, s[k + |mid|..])
  }

  lemma PieceAt(mid: string, q: string, s: string, k: nat)
    requires '*' !in mid && k <= |s|
    ensures Matches(ACTION, mid + q, s[k..]) <==> PlacedAt(mid, q, s, k)
  {
    hide Matches;
    MatchesPiece(ACTION, mid, q, s[k..]);
    FitsIsPrefix(mid, s[k..]);
    if mid <= s[k..] {
      assert s[k..][|mid|..] == s[k + |mid|..];
    }
  }

  lemma RunThen(rest: string, s: string)
    ensures Matches(ACTION, ['*'] + rest, s) <==> exists k: nat :: k <= |s| && Matches(ACTION, rest, s[k..])
  {
    assert (['*'] + rest)[1..] == rest;
  }

  lemma EarlierPlaceServes(mid: string, q: string, s: string, k: nat)
    requires q != [] && q[0] == '*' && PlacedAt(mid, q, s, k)
    ensures Index(s, mid).Some? && PlacedAt(mid, q, s, Index(s, mid).value)
  {
    hide Matches, Index;
    var i := Index(s, mid).value;
    assert s[i + |mid|..][k - i..] == s[k + |mid|..];
    RunAbsorbs(ACTION, q, s[i + |mid|..], k - i);
  }

  /** Searching a middle piece leftmost loses nothing, since a run follows it. */
  lemma LeftmostPiece(mid: string, q: string, s: string)
    requires '*' !in mid
    requires q != [] && q[0] == '*'
    ensures Matches(ACTION, ['*'] + (mid + q), s) <==>
            Index(s, mid).Some? && Matches(ACTION, q, s[Index(s, mid).value + |mid|..])
  {
    hide Matches, Index;
    RunThen(mid + q, s);
    if k: nat :| k <= |s| && Matches(ACTION, mid + q, s[k..]) {
      PieceAt(mid, q, s, k);
      EarlierPlaceServes(mid, q, s, k);
    }
    if Index(s, mid).Some? {
      PieceAt(mid, q, s, Index(s, mid).value);
    }
  }

  lemma LastPiece(last: string, s: string)
    requires '*' !in last
    ensures Matches(ACTION, ['*'] + last, s) <==> HasSuffix(s, last)
  {
    var p := ['*'] + last;
    assert p[1..] == last;
    forall k | 0 <= k <= |s| ensures Matches(ACTION, p[1..], s[k..]) <==> s[k..] == last {
      MatchesLiteral(last, s[k..]);
    }
    if HasSuffix(s, last) {
      assert s[|s| - |last|..] == last;
    }
  }

  /** What is still to be found once the first m pieces have been placed. */
  function Remaining(parts: seq<string>, m: nat): (q: string)
    requires 1 <= m < |parts|
    ensures q != [] && q[0] == '*'
  {
    ['*'] + JoinStar(parts[m..])
  }

  lemma PlaceFirst(parts: seq<string>, a: string)
    requires |parts| > 1 && '*' !in parts[0]
    ensures Matches(ACTION, JoinStar(parts), a) <==>
            parts[0] <= a && Matches(ACTION, Remaining(parts, 1), a[|parts[0]|..])
  {
    assert JoinStar(parts) == parts[0] + Remaining(parts, 1);
    MatchesPiece(ACTION, parts[0], Remaining(parts, 1), a);
    FitsIsPrefix(parts[0], a);
  }

  lemma PlaceMiddle(parts: seq<string>, m: nat, a: string)
    requires 1 <= m < |parts| - 1 && '*' !in parts[m]
    ensures Matches(ACTION, Remaining(parts, m), a) <==>
            Index(a, parts[m]).Some? &&
            Matches(ACTION, Remaining(parts, m + 1), a[Index(a, parts[m]).value + |parts[m]|..])
  {
    hide Matches, Index;
    assert parts[m..][1..] == parts[m + 1..];
    assert Remaining(parts, m) == ['*'] + (parts[m] + Remaining(parts, m + 1));
    LeftmostPiece(parts[m], Remaining(parts, m + 1), a);
  }

  lemma PlaceLast(parts: seq<string>, a: string)
    requires |parts| > 1 && '*' !in parts[|parts| - 1]
    ensures Matches(ACTION, Remaining(parts, |parts| - 1), a) <==> HasSuffix(a, parts[|parts| - 1])
  {
    hide Matches;
    LastPiece(parts[|parts| - 1], a);
  }

  method ActionMatches(pattern: string, action: string) returns (r: bool)
    ensures r == Covers(pattern, action)
  {
    hide Matches, SplitStar, JoinStar, Remaining, Index, HasSuffix, Lower;
    var p, a := Lower(pattern), Lower(action);
    if '*' !in p {
      MatchesLiteral(p, a);
      return p == a;
    }
    var parts := SplitStar(p);
    PlaceFirst(parts, a);
    if !(parts[0] <= a) {
      return false;
    }
    a := a[|parts[0]|..];
    for m := 1 to |parts| - 1
      invariant Covers(pattern, action) <==> Matches(ACTION, Remaining(parts, m), a)
    {
      PlaceMiddle(parts, m, a);
      var i := Index(a, parts[m]);
      if i.None? {
        return false;
      }
      a := a[i.value + |parts[m]|..];
    }
    PlaceLast(parts, a);
    return HasSuffix(a, parts[|parts| - 1]);
  }

  method AnyMatch(patterns: seq<string>, action: string) returns (r: bool)
    ensures r == AnyCovers(patterns, action)
  {
    for i := 0 to |patterns|
      invariant forall j :: 0 <= j < i ==> !Covers(patterns[j], action)
    {
      var hit := ActionMatches(patterns[i], action);
      if hit {
        return true;
      }
    }
    return false;
  }

  // ---- grants read a pattern with Glob, denies with actionMatches ----

  lemma {:induction false} SameRelation(p: string, s: string)
    requires '?' !in p
    ensures Matches(GLOB, p, s) <==> Matches(ACTION, p, s)
  {
    if p != [] {
      if p[0] == '*' {
        forall k | 0 <= k <= |s| ensures Matches(GLOB, p[1..], s[k..]) <==> Matches(ACTION, p[1..], s[k..]) {
          SameRelation(p[1..], s[k..]);
        }
      } else if s != [] {
        SameRelation(p[1..], s[1..]);
      }
    }
  }

  /** The pattern with every run dropped and every '?' made a letter. */
  function Instance(p: string): (s: string)
    ensures '*' !in s && '?' !in s
  {
    if p == [] then []
    else if p[0] == '*' then Instance(p[1..])
    else [if p[0] == '?' then 'x' else p[0]] + Instance(p[1..])
  }

  lemma {:induction false} InstanceMatches(p: string)
    ensures Matches(GLOB, p, Instance(p))
  {
    if p != [] {
      InstanceMatches(p[1..]);
      if p[0] == '*' {
        assert Instance(p)[0..] == Instance(p[1..]);
      } else {
        assert Instance(p)[1..] == Instance(p[1..]);
      }
    }
  }

  lemma {:induction false} LiteralsOccur(p: string, s: string, c: char)
    requires Matches(ACTION, p, s) && c in p && c != '*'
    ensures c in s
  {
    if p[0] == '*' {
      var k :| 0 <= k <= |s| && Matches(ACTION, p[1..], s[k..]);
      LiteralsOccur(p[1..], s[k..], c);
    } else if c in p[1..] {
      LiteralsOccur(p[1..], s[1..], c);
    }
  }

  lemma {:induction false} InstanceLower(p: string)
    requires Lower(p) == p
    ensures Lower(Instance(p)) == Instance(p)
  {
    if p != [] {
      LowerSlice(p, 1, |p|);
      InstanceLower(p[1..]);
      var head := if p[0] == '?' then "x" else [p[0]];
      LowerAppend(head, Instance(p[1..]));
      assert LowerChar(p[0]) == p[0];
      assert Lower(head) == head;
    }
  }

  /** A grant and a deny read a pattern alike on every action free of '*' exactly when the
      pattern has no '?': only the grant's matcher gives '?' a meaning. */
  lemma GrantsAndDeniesAgreeIff(pattern: string)
    ensures (forall action :: '*' !in action ==> (Glob(pattern, action) <==> Covers(pattern, action)))
            <==> '?' !in pattern
  {
    var p := Lower(pattern);
    LowerKeeps(pattern, '?');
    if '?' !in pattern {
      forall action | '*' !in action ensures Glob(pattern, action) <==> Covers(pattern, action) {
        LowerKeeps(action, '*');
        GlobMeaning(p, Lower(action));
        SameRelation(p, Lower(action));
      }
    } else {
      var action := Instance(p);
      LowerIdempotent(pattern);
      InstanceLower(p);
      InstanceMatches(p);
      GlobMeaning(p, action);
      if Covers(pattern, action) {
        LiteralsOccur(p, action, '?');
      }
      assert Glob(pattern, action) && !Covers(pattern, action);
    }
  }

  lemma LiteralAgrees(pattern: string, action: string)
    requires '?' !in pattern && '*' !in pattern
    ensures Glob(pattern, action) <==> Covers(pattern, action)
  {
    hide Matches;
    var p, s := Lower(pattern), Lower(action);
    LowerKeeps(pattern, '?');
    LowerKeeps(pattern, '*');
    MatchesLiteral(p, s);
    LiteralOnly(GLOB, p, s);
    GlobMeaning(p, s);
    if p == s {
      LiteralRun(p, s, 0, |p|);
    }
  }

  /** The pattern with a '*' spent on one of the subject's own, and one letter too many after it. */
  function Overrun(p: string, k: nat): string
    requires k < |p|
  {
    p[..k + 1] + ("x" + p[k + 1..])
  }

  lemma OverrunLayout(p: string, k: nat)
    requires k < |p| && p[k] == '*'
    ensures var s, tail := Overrun(p, k), p[k + 1..];
            && k + 1 < |s| && s[..k + 1] == p[..k + 1] && s[k + 1..] == "x" + tail
            && p == p[..k] + (['*'] + tail) && s == p[..k] + ("*x" + tail)
  {
    assert p[..k + 1] == p[..k] + "*";
  }

  lemma OverrunMissed(p: string, k: nat)
    requires k < |p| && p[k] == '*' && '*' !in p[k + 1..] && '?' !in p
    ensures !GlobMatch(p, Overrun(p, k))
  {
    hide Matches, Overrun, Walk;
    var s, tail := Overrun(p, k), p[k + 1..];
    OverrunLayout(p, k);
    LiteralRun(p, s, 0, k + 1);
    LiteralOnly(GLOB, tail, "x" + tail);
    if Walk(p, s, k + 1, k + 1, -1, 0) {
      WalkSound(p, s, k + 1, k + 1, -1, 0);
    }
  }

  lemma OverrunCovered(p: string, k: nat)
    requires k < |p| && p[k] == '*'
    ensures Matches(ACTION, p, Overrun(p, k))
  {
    hide Matches, Overrun;
    var tail := p[k + 1..];
    OverrunLayout(p, k);
    MatchesItself(ACTION, tail);
    RunThen(tail, "*x" + tail);
    assert ("*x" + tail)[2..] == tail;
    PrefixKeeps(ACTION, p[..k], ['*'] + tail, "*x" + tail);
  }

  /** On all actions, those with a '*' of their own included, the two agree exactly on patterns
      without any wildcard. */
  lemma GrantsAndDeniesAlwaysAgreeIff(pattern: string)
    ensures (forall action :: Glob(pattern, action) <==> Covers(pattern, action)) <==>
            '?' !in pattern && '*' !in pattern
  {
    hide Glob, Covers;
    if '?' in pattern {
      GrantsAndDeniesAgreeIff(pattern);
      var action :| '*' !in action && !(Glob(pattern, action) <==> Covers(pattern, action));
    } else if '*' in pattern {
      StarMisread(pattern);
    } else {
      forall action ensures Glob(pattern, action) <==> Covers(pattern, action) {
        LiteralAgrees(pattern, action);
      }
    }
  }

  lemma StarMisread(pattern: string)
    requires '*' in pattern && '?' !in pattern
    ensures exists action :: Covers(pattern, action) && !Glob(pattern, action)
  {
    var p := Lower(pattern);
    LowerKeeps(pattern, '*');
    LowerKeeps(pattern, '?');
    var k := LastIndexByte(p, '*').value;
    var s := Overrun(p, k);
    LowerIdempotent(pattern);
    LowerSlice(p, 0, k + 1);
    LowerSlice(p, k + 1, |p|);
    LowerAppend("x", p[k + 1..]);
    LowerAppend(p[..k + 1], "x" + p[k + 1..]);
    assert Lower("x") == "x";
    assert Lower(s) == s;
    OverrunMissed(p, k);
    OverrunCovered(p, k);
    assert Covers(pattern, s) && !Glob(pattern, s);
  }
}
