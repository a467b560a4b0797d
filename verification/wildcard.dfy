/** Wildcard matching: one declarative relation, the two-pointer walk of
    internal/abac/eval.go and the split-and-search of internal/arm/denyassignments.go.
    SQLite's LIKE, which guards role deletion, is the same relation in other characters. */
module Wildcard {
  import opened Text

  /** Which character stands for any run, and which (if any) for exactly one character. */
  datatype Dialect = Dialect(run: char, single: Option<char>)

  const GLOB := Dialect('*', Some('?'))
  const ACTION := Dialect('*', None)
  const LIKE := Dialect('%', Some('_'))

  predicate FitsOne(d: Dialect, p: char, c: char) {
    p == c || d.single == Some(p)
  }

  /** The reference relation: pattern p matches all of s. */
  predicate Matches(d: Dialect, p: string, s: string)
    decreases |p|
  {
    if p == [] then s == []
    else if p[0] == d.run then exists k :: 0 <= k <= |s| && Matches(d, p[1..], s[k..])
    else s != [] && FitsOne(d, p[0], s[0]) && Matches(d, p[1..], s[1..])
  }

  predicate AllRuns(d: Dialect, p: string) {
    forall i :: 0 <= i < |p| ==> p[i] == d.run
  }

  /** A pattern that starts with a run and matches a suffix matches every longer suffix. */
  lemma RunAbsorbs(d: Dialect, p: string, s: string, from: nat)
    requires p != [] && p[0] == d.run && from <= |s|
    requires Matches(d, p, s[from..])
    ensures Matches(d, p, s)
  {
    var k :| 0 <= k <= |s[from..]| && Matches(d, p[1..], s[from..][k..]);
    assert s[from..][k..] == s[from + k..];
  }

  lemma {:induction false} MatchesEmpty(d: Dialect, p: string)
    ensures Matches(d, p, "") <==> AllRuns(d, p)
  {
    if p != [] {
      MatchesEmpty(d, p[1..]);
      assert ""[0..] == "";
      if p[0] == d.run {
        assert AllRuns(d, p) <==> AllRuns(d, p[1..]);
      }
    }
  }

  /** A piece without runs takes exactly its own length of the subject. */
  predicate Fits(d: Dialect, piece: string, s: string) {
    |piece| <= |s| && forall i :: 0 <= i < |piece| ==> FitsOne(d, piece[i], s[i])
  }

  lemma {:induction false} MatchesPiece(d: Dialect, piece: string, q: string, s: string)
    requires d.run !in piece
    ensures Matches(d, piece + q, s) <==> Fits(d, piece, s) && Matches(d, q, s[|piece|..])
  {
    if piece == [] {
      assert piece + q == q && s[0..] == s;
    } else {
      assert (piece + q)[1..] == piece[1..] + q;
      if s != [] {
        MatchesPiece(d, piece[1..], q, s[1..]);
        if |piece| <= |s| {
          assert s[1..][|piece[1..]|..] == s[|piece|..];
        }
        assert Fits(d, piece, s) <==> FitsOne(d, piece[0], s[0]) && Fits(d, piece[1..], s[1..]);
      }
    }
  }

  // ---- globMatch ----

  /** The walk of globMatch from one loop head: pattern index, subject index, the last
      star passed (-1 when none) and the subject index that star has been extended to. */
  predicate Walk(p: string, s: string, pi: nat, si: nat, star: int, mark: nat)
    requires pi <= |p| && mark <= si <= |s| && -1 <= star < pi
    decreases |s| - mark, |p| - pi
  {
    if si < |s| then
      if pi < |p| && (p[pi] == '?' || p[pi] == s[si]) then Walk(p, s, pi + 1, si + 1, star, mark)
      else if pi < |p| && p[pi] == '*' then Walk(p, s, pi + 1, si, pi, si)
      else if star >= 0 then Walk(p, s, star + 1, mark + 1, star, mark + 1)
      else false
    else AllRuns(GLOB, p[pi..])
  }

  /** The turns of the loop from that head on. */
  function Turns(p: string, s: string, pi: nat, si: nat, star: int, mark: nat): nat
    requires pi <= |p| && mark <= si <= |s| && -1 <= star < pi
    decreases |s| - mark, |p| - pi
  {
    if si == |s| then 0
    else if pi < |p| && (p[pi] == '?' || p[pi] == s[si]) then 1 + Turns(p, s, pi + 1, si + 1, star, mark)
    else if pi < |p| && p[pi] == '*' then 1 + Turns(p, s, pi + 1, si, pi, si)
    else if star >= 0 then 1 + Turns(p, s, star + 1, mark + 1, star, mark + 1)
    else 1
  }

  predicate GlobMatch(p: string, s: string) {
    Walk(p, s, 0, 0, -1, 0)
  }

  /** Case-insensitive matching, as action and resource names are in ARM. */
  predicate Glob(pattern: string, s: string) {
    GlobMatch(Lower(pattern), Lower(s))
  }

  /** What one loop head can still accept: the rest of the subject against the rest of the
      pattern, or the last star taking at least one more character. */
  predicate Alive(p: string, s: string, pi: nat, si: nat, star: int, mark: nat)
    requires pi <= |p| && mark <= si <= |s| && -1 <= star < pi
  {
    || Matches(GLOB, p[pi..], s[si..])
    || (star >= 0 && mark < |s| && Matches(GLOB, p[star..], s[mark + 1..]))
  }

  lemma RunUnfold(d: Dialect, p: string, s: string, pi: nat, si: nat)
    requires pi < |p| && si <= |s| && p[pi] == d.run
    ensures Matches(d, p[pi..], s[si..]) <==>
            Matches(d, p[pi + 1..], s[si..]) || (si < |s| && Matches(d, p[pi..], s[si + 1..]))
  {
    assert p[pi..][1..] == p[pi + 1..] && s[si..][0..] == s[si..];
    if Matches(d, p[pi..], s[si..]) {
      var k :| 0 <= k <= |s[si..]| && Matches(d, p[pi..][1..], s[si..][k..]);
      if k > 0 {
        assert s[si..][k..] == s[si + 1..][k - 1..];
      }
    } else if si < |s| {
      if Matches(d, p[pi..], s[si + 1..]) {
        assert s[si..][1..] == s[si + 1..];
        RunAbsorbs(d, p[pi..], s[si..], 1);
      }
    }
  }

  /** Whatever the subject holds, the walk says yes only to a match. */
  lemma {:induction false} WalkSound(p: string, s: string, pi: nat, si: nat, star: int, mark: nat)
    requires pi <= |p| && mark <= si <= |s| && -1 <= star < pi
    requires star >= 0 ==> p[star] == '*'
    requires Walk(p, s, pi, si, star, mark)
    ensures Alive(p, s, pi, si, star, mark)
    decreases |s| - mark, |p| - pi
  {
    if si < |s| {
      if pi < |p| && (p[pi] == '?' || p[pi] == s[si]) {
        WalkSound(p, s, pi + 1, si + 1, star, mark);
        assert p[pi..][1..] == p[pi + 1..] && s[si..][1..] == s[si + 1..];
      } else if pi < |p| && p[pi] == '*' {
        WalkSound(p, s, pi + 1, si, pi, si);
        RunUnfold(GLOB, p, s, pi, si);
      } else if star >= 0 {
        WalkSound(p, s, star + 1, mark + 1, star, mark + 1);
        RunUnfold(GLOB, p, s, star, mark + 1);
      }
    } else {
      MatchesEmpty(GLOB, p[pi..]);
      assert s[si..] == "";
    }
  }

  /** The last star has taken s[..mark] and what follows it, star-free, lies against s[mark..si]. */
  ghost predicate Aligned(p: string, pi: nat, si: nat, star: int, mark: nat) {
    star >= 0 ==> star < pi <= |p| && p[star] == '*' && '*' !in p[star + 1..pi] && si - mark == pi - star - 1
  }

  /** An earlier star never needs to be revisited: what it could reach, the new one reaches too. */
  lemma OlderStarCovered(p: string, s: string, pi: nat, si: nat, star: int, mark: nat)
    requires pi <= |p| && mark <= si <= |s| && 0 <= star < pi && mark < |s|
    requires Aligned(p, pi, si, star, mark)
    requires Matches(GLOB, p[star..], s[mark + 1..])
    ensures exists from :: si < from <= |s| && Matches(GLOB, p[pi..], s[from..])
  {
    var k :| 0 <= k <= |s[mark + 1..]| && Matches(GLOB, p[star..][1..], s[mark + 1..][k..]);
    var piece := p[star + 1..pi];
    assert p[star..][1..] == piece + p[pi..];
    MatchesPiece(GLOB, piece, p[pi..], s[mark + 1..][k..]);
    var from := mark + 1 + k + |piece|;
    assert s[mark + 1..][k..][|piece|..] == s[from..];
  }

  lemma AliveOnMatch(p: string, s: string, pi: nat, si: nat, star: int, mark: nat)
    requires pi < |p| && mark <= si < |s| && -1 <= star < pi
    requires p[pi] != '*' && Alive(p, s, pi, si, star, mark)
    requires FitsOne(GLOB, p[pi], s[si])
    ensures Alive(p, s, pi + 1, si + 1, star, mark)
  {
    assert p[pi..][1..] == p[pi + 1..] && s[si..][1..] == s[si + 1..];
  }

  lemma AliveOnStar(p: string, s: string, pi: nat, si: nat, star: int, mark: nat)
    requires pi < |p| && mark <= si < |s| && -1 <= star < pi
    requires p[pi] == '*' && Aligned(p, pi, si, star, mark) && Alive(p, s, pi, si, star, mark)
    ensures Alive(p, s, pi + 1, si, pi, si)
  {
    hide Matches;
    if !Matches(GLOB, p[pi..], s[si..]) {
      OlderStarCovered(p, s, pi, si, star, mark);
      var from :| si < from <= |s| && Matches(GLOB, p[pi..], s[from..]);
      assert s[si..][from - si..] == s[from..];
      RunAbsorbs(GLOB, p[pi..], s[si..], from - si);
    }
    RunUnfold(GLOB, p, s, pi, si);
  }

  lemma AliveOnBacktrack(p: string, s: string, pi: nat, si: nat, star: int, mark: nat)
    requires pi <= |p| && mark <= si < |s| && -1 <= star < pi
    requires pi < |p| ==> p[pi] != '*' && !FitsOne(GLOB, p[pi], s[si])
    requires star >= 0 ==> p[star] == '*'
    requires Alive(p, s, pi, si, star, mark)
    ensures star >= 0 && Alive(p, s, star + 1, mark + 1, star, mark + 1)
  {
    RunUnfold(GLOB, p, s, star, mark + 1);
  }

  lemma AliveAtEnd(p: string, s: string, pi: nat, star: int, mark: nat)
    requires pi <= |p| && mark <= |s| && -1 <= star < pi
    requires Aligned(p, pi, |s|, star, mark) && Alive(p, s, pi, |s|, star, mark)
    ensures AllRuns(GLOB, p[pi..])
  {
    hide Matches;
    if !Matches(GLOB, p[pi..], s[|s|..]) {
      OlderStarCovered(p, s, pi, |s|, star, mark);
    }
    assert s[|s|..] == "";
    MatchesEmpty(GLOB, p[pi..]);
  }

  /** On a subject without '*', remembering only the last star loses nothing. */
  lemma {:induction false} WalkComplete(p: string, s: string, pi: nat, si: nat, star: int, mark: nat)
    requires pi <= |p| && mark <= si <= |s| && -1 <= star < pi
    requires '*' !in s
    requires Aligned(p, pi, si, star, mark)
    requires Alive(p, s, pi, si, star, mark)
    ensures Walk(p, s, pi, si, star, mark)
    decreases |s| - mark, |p| - pi
  {
    if si == |s| {
      AliveAtEnd(p, s, pi, star, mark);
    } else if pi < |p| && FitsOne(GLOB, p[pi], s[si]) {
      AliveOnMatch(p, s, pi, si, star, mark);
      WalkComplete(p, s, pi + 1, si + 1, star, mark);
    } else if pi < |p| && p[pi] == '*' {
      AliveOnStar(p, s, pi, si, star, mark);
      WalkComplete(p, s, pi + 1, si, pi, si);
    } else {
      AliveOnBacktrack(p, s, pi, si, star, mark);
      WalkComplete(p, s, star + 1, mark + 1, star, mark + 1);
    }
  }

  /** Loop heads a walk may visit before its mark passes `mark`, at pattern index pi. */
  function Budget(n: nat, mark: nat, pi: nat): nat {
    mark * (n + 1) + pi
  }

  lemma BudgetGrows(n: nat, mark: nat, mark': nat, pi: nat, pi': nat)
    requires mark <= mark' && pi <= n
    ensures mark < mark' || pi < pi' ==> Budget(n, mark, pi) + 1 <= Budget(n, mark', pi')
  {
    if mark < mark' {
      assert (mark + 1) * (n + 1) <= mark' * (n + 1);
    }
  }

  lemma BudgetTotal(n: nat, m: nat, mark: nat, pi: nat)
    requires mark <= m && pi <= n
    ensures Budget(n, mark, pi) + 1 <= (n + 1) * (m + 1)
  {
    assert mark * (n + 1) <= m * (n + 1);
  }

  /** internal/abac/eval.go, globMatch: the loop computes the walk, in the turns counted above and
      within a product bound. */
  method GlobMatchLoop(p: string, s: string) returns (matched: bool, ghost steps: nat)
    ensures matched == GlobMatch(p, s)
    ensures matched ==> Matches(GLOB, p, s)
    ensures '*' !in s ==> matched == Matches(GLOB, p, s)
    ensures steps == Turns(p, s, 0, 0, -1, 0) <= (|p| + 1) * (|s| + 1)
  {
    hide Matches, Budget;
    var pi, si, star, mark := 0, 0, -1, 0;
    steps := 0;
    GlobMeaning(p, s);
    while si < |s|
      invariant pi <= |p| && 0 <= mark <= si <= |s| && -1 <= star < pi
      invariant Walk(p, s, pi, si, star, mark) == GlobMatch(p, s)
      invariant steps + Turns(p, s, pi, si, star, mark) == Turns(p, s, 0, 0, -1, 0)
      invariant steps <= Budget(|p|, mark, pi)
      decreases |s| - mark, |p| - pi
    {
      BudgetTotal(|p|, |s|, mark, pi);
      steps := steps + 1;
      if pi < |p| && (p[pi] == '?' || p[pi] == s[si]) {
        BudgetGrows(|p|, mark, mark, pi, pi + 1);
        pi := pi + 1;
        si := si + 1;
      } else if pi < |p| && p[pi] == '*' {
        BudgetGrows(|p|, mark, si, pi, pi + 1);
        star, mark := pi, si;
        pi := pi + 1;
      } else if star >= 0 {
        BudgetGrows(|p|, mark, mark + 1, pi, star + 1);
        pi := star + 1;
        mark := mark + 1;
        si := mark;
      } else {
        return false, steps;
      }
    }
    BudgetTotal(|p|, |s|, mark, pi);
    ghost var rest := pi;
    while pi < |p| && p[pi] == '*'
      invariant rest <= pi <= |p|
      invariant forall i :: rest <= i < pi ==> p[i] == '*'
    {
      pi := pi + 1;
    }
    matched := pi == |p|;
    assert pi < |p| ==> p[rest..][pi - rest] == p[pi];
  }

  // ---- the walk is not linear ----

  function Repeat(c: char, n: nat): string {
    seq(n, _ => c)
  }

  /** The pattern `*aa…ab`, and a subject of a's twice as long. */
  function SlowPattern(n: nat): string {
    "*" + Repeat('a', n) + "b"
  }

  lemma {:induction false} ClimbAndFall(n: nat, mark: nat, k: nat)
    requires k <= n && mark < n
    ensures var p, s := SlowPattern(n), Repeat('a', 2 * n);
            Turns(p, s, 1 + k, mark + k, 0, mark) == n - k + 1 + Turns(p, s, 1, mark + 1, 0, mark + 1)
    decreases n - k
  {
    var p, s := SlowPattern(n), Repeat('a', 2 * n);
    if k < n {
      assert p[1 + k] == 'a' == s[mark + k];
      ClimbAndFall(n, mark, k + 1);
    } else {
      assert p[1 + k] == 'b' != s[mark + k];
    }
  }

  lemma {:induction false} ManyFalls(n: nat, mark: nat)
    requires mark <= n
    ensures Turns(SlowPattern(n), Repeat('a', 2 * n), 1, mark, 0, mark) >= (n - mark) * (n + 1)
    decreases n - mark
  {
    hide Turns;
    if mark < n {
      ClimbAndFall(n, mark, 0);
      ManyFalls(n, mark + 1);
      assert (n - mark) * (n + 1) == (n - (mark + 1)) * (n + 1) + (n + 1);
    }
  }

  /** On that family the turns grow with the square of the length. */
  lemma QuadraticTurns(n: nat)
    ensures Turns(SlowPattern(n), Repeat('a', 2 * n), 0, 0, -1, 0) >= n * (n + 1)
  {
    if n > 0 {
      assert SlowPattern(n)[0] == '*' && Repeat('a', 2 * n)[0] == 'a';
      ManyFalls(n, 0);
    }
  }

  /** No linear bound holds: whatever the slope, some pattern and subject take more turns. */
  lemma NotLinear(slope: nat) returns (p: string, s: string)
    ensures Turns(p, s, 0, 0, -1, 0) > slope * (|p| + |s|)
  {
    var n := 3 * slope + 1;
    p, s := SlowPattern(n), Repeat('a', 2 * n);
    QuadraticTurns(n);
    assert n * (n + 1) == slope * (3 * n + 2) + 4 * slope + 2;
  }

  lemma GlobMeaning(p: string, s: string)
    ensures GlobMatch(p, s) ==> Matches(GLOB, p, s)
    ensures '*' !in s ==> (GlobMatch(p, s) <==> Matches(GLOB, p, s))
  {
    assert p[0..] == p && s[0..] == s;
    if GlobMatch(p, s) {
      WalkSound(p, s, 0, 0, -1, 0);
    } else if '*' !in s && Matches(GLOB, p, s) {
      WalkComplete(p, s, 0, 0, -1, 0);
    }
  }

  lemma {:induction false} LiteralRun(p: string, s: string, from: nat, end: nat)
    requires from <= end <= |p| && end <= |s| && p[..end] == s[..end]
    ensures Walk(p, s, from, from, -1, 0) == Walk(p, s, end, end, -1, 0)
    decreases end - from
  {
    if from < end {
      assert p[from] == p[..end][from] == s[..end][from] == s[from];
      LiteralRun(p, s, from + 1, end);
    }
  }

  lemma {:induction false} MatchesItself(d: Dialect, p: string)
    ensures Matches(d, p, p)
  {
    if p != [] {
      MatchesItself(d, p[1..]);
    }
  }

  /** A subject with a '*' has a pattern the walk gets wrong: it spends the pattern's star on
      the subject's star and has nothing left for the rest. */
  lemma MisreadPattern(s: string) returns (p: string)
    requires '*' in s
    ensures Matches(GLOB, p, s) && !GlobMatch(p, s)
  {
    var k :| 0 <= k < |s| && s[k] == '*';
    p := if k + 1 < |s| then s[..k + 1] else s[..k + 1] + "?";
    assert p[..k + 1] == s[..k + 1];
    LiteralRun(p, s, 0, k + 1);
    var head := s[..k];
    assert Matches(GLOB, p[k..], s[k..]) by {
      assert p[k..][0] == '*';
      MatchesItself(GLOB, "");
      if k + 1 < |s| {
        assert p[k..][1..] == "" && s[k..][|s| - k..] == "";
      } else {
        assert p[k..][1..] == "?" && s[k..][0..] == "*";
        assert "?"[1..] == "" && "*"[1..] == "";
      }
    }
    PrefixKeeps(GLOB, head, p[k..], s[k..]);
    assert p == head + p[k..] && s == head + s[k..];
  }

  lemma {:induction false} PrefixKeeps(d: Dialect, head: string, p: string, s: string)
    requires Matches(d, p, s)
    ensures Matches(d, head + p, head + s)
  {
    if head == [] {
      assert head + p == p && head + s == s;
    } else {
      PrefixKeeps(d, head[1..], p, s);
      assert (head + p)[1..] == head[1..] + p && (head + s)[1..] == head[1..] + s;
    }
  }

  /** Exactly the subjects without '*' are read right by the walk under every pattern. */
  lemma GlobExactIff(s: string)
    ensures (forall p :: GlobMatch(p, s) <==> Matches(GLOB, p, s)) <==> '*' !in s
  {
    if '*' in s {
      var p := MisreadPattern(s);
    } else {
      forall p ensures GlobMatch(p, s) <==> Matches(GLOB, p, s) {
        GlobMeaning(p, s);
      }
    }
  }

  /** A run before a text: every suffix position matches, and for a text without wildcards
      nothing else does. */
  lemma SuffixPattern(d: Dialect, g: string, s: string)
    ensures HasSuffix(s, g) ==> Matches(d, [d.run] + g, s)
    ensures d.run !in g && (d.single.Some? ==> d.single.value !in g) ==>
              (Matches(d, [d.run] + g, s) <==> HasSuffix(s, g))
  {
    assert ([d.run] + g)[1..] == g;
    if HasSuffix(s, g) {
      MatchesItself(d, g);
      assert s[|s| - |g|..] == g;
    } else if d.run !in g && (d.single.Some? ==> d.single.value !in g) {
      forall k | 0 <= k <= |s| ensures !Matches(d, g, s[k..]) {
        LiteralOnly(d, g, s[k..]);
      }
    }
  }

  lemma {:induction false} LiteralOnly(d: Dialect, g: string, s: string)
    requires d.run !in g && (d.single.Some? ==> d.single.value !in g)
    ensures Matches(d, g, s) <==> g == s
  {
    if g != [] && s != [] {
      LiteralOnly(d, g[1..], s[1..]);
      assert g == s <==> g[0] == s[0] && g[1..] == s[1..] by {
        assert g == [g[0]] + g[1..] && s == [s[0]] + s[1..];
      }
    }
  }
}
