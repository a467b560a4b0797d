/** internal/arm/scope.go: the scope grammar's inheritance, as a prefix test and as a chain of
    ancestors. All results hold for arbitrary strings, well-formed resource ids or not. */
module Scopes {
  import opened Text

  function CanonicalScope(scope: string): (r: string)
    ensures r != "" && r[0] == '/' && Lower(r) == r
  {
    var s := Lower(TrimSuffix(scope, "/"));
    LowerIdempotent(TrimSuffix(scope, "/"));
    if s == "" then "/"
    else if s[0] != '/' then
      LowerAppend("/", s);
      "/" + s
    else s
  }

  /** a is t itself or an ancestor of it; both already canonical. */
  predicate AtOrAbove(a: string, t: string) {
    a == "/" || a == t || a + "/" <= t
  }

  predicate ScopeApplies(assignment: string, target: string) {
    AtOrAbove(CanonicalScope(assignment), CanonicalScope(target))
  }

  /** The proper ancestors of t, nearest first, down to the tenant root. */
  function Ancestors(t: string): seq<string> {
    match LastIndexByte(t, '/')
    case None => ["/"]
    case Some(i) => if i == 0 then ["/"] else [t[..i]] + Ancestors(t[..i])
  }

  function ChainOf(target: string): seq<string> {
    var t := CanonicalScope(target);
    if t == "/" then ["/"] else [t] + Ancestors(t)
  }

  method ScopeChain(target: string) returns (out: seq<string>)
    ensures out == ChainOf(target)
    ensures forall a :: ScopeApplies(a, target) <==> CanonicalScope(a) in out
  {
    ChainIsApplicability(target);
    var t := CanonicalScope(target);
    if t == "/" {
      return ["/"];
    }
    out := [t];
    while true
      invariant out + Ancestors(t) == ChainOf(target)
      decreases |t|
    {
      var i := LastIndexByte(t, '/');
      if i.None? || i.value == 0 {
        break;
      }
      t := t[..i.value];
      out := out + [t];
    }
    out := out + ["/"];
  }

  lemma {:induction false} AncestorsExact(t: string, a: string)
    requires a != ""
    ensures a in Ancestors(t) <==> a == "/" || a + "/" <= t
  {
    var i := LastIndexByte(t, '/');
    if a != "/" && a + "/" <= t {
      assert t[|a|] == (a + "/")[|a|] == '/';
      assert a <= t[..i.value];
    }
    if i.Some? && i.value > 0 {
      AncestorsExact(t[..i.value], a);
      assert t[..i.value] + "/" <= t;
      if a + "/" <= t && a != t[..i.value] {
        assert (a + "/")[..|a| + 1] == t[..|a| + 1] == t[..i.value][..|a| + 1];
      }
    }
  }

  /** The prefix test and the ancestor list are the same relation, for all strings. */
  lemma ChainIsApplicability(target: string)
    ensures forall a :: ScopeApplies(a, target) <==> CanonicalScope(a) in ChainOf(target)
  {
    forall a ensures ScopeApplies(a, target) <==> CanonicalScope(a) in ChainOf(target) {
      AncestorsExact(CanonicalScope(target), CanonicalScope(a));
    }
  }

  lemma {:induction false} AncestorsDescend(t: string, k: nat)
    requires k < |Ancestors(t)|
    ensures AtOrAbove(Ancestors(t)[k], t)
    ensures Ancestors(t)[k] == "/" || |Ancestors(t)[k]| < |t|
  {
    var i := LastIndexByte(t, '/');
    if i.Some? && i.value > 0 {
      assert t[..i.value] + "/" <= t;
      if k > 0 {
        AncestorsDescend(t[..i.value], k - 1);
      }
    }
  }

  lemma {:induction false} AncestorsOrdered(t: string, j: nat, k: nat)
    requires j < k < |Ancestors(t)|
    ensures AtOrAbove(Ancestors(t)[k], Ancestors(t)[j])
  {
    hide LastIndexByte, AtOrAbove;
    var i := LastIndexByte(t, '/');
    if j == 0 {
      AncestorsDescend(t[..i.value], k - 1);
    } else {
      AncestorsOrdered(t[..i.value], j - 1, k - 1);
    }
  }

  lemma {:induction false} AncestorsEndAtRoot(t: string)
    ensures |Ancestors(t)| >= 1 && Ancestors(t)[|Ancestors(t)| - 1] == "/"
  {
    var i := LastIndexByte(t, '/');
    if i.Some? && i.value > 0 {
      AncestorsEndAtRoot(t[..i.value]);
    }
  }

  /** The chain starts at the target, ends at the tenant root, and every later scope is an
      ancestor of every earlier one. */
  lemma ChainNearestFirst(target: string)
    ensures var c := ChainOf(target);
            && c[0] == CanonicalScope(target) && c[|c| - 1] == "/"
            && forall j, k :: 0 <= j < k < |c| ==> AtOrAbove(c[k], c[j])
  {
    hide Ancestors, CanonicalScope, AtOrAbove;
    var t := CanonicalScope(target);
    var c := ChainOf(target);
    AncestorsEndAtRoot(t);
    forall j, k | 0 <= j < k < |c| ensures AtOrAbove(c[k], c[j]) {
      if j == 0 {
        AncestorsDescend(t, k - 1);
      } else {
        AncestorsOrdered(t, j - 1, k - 1);
      }
    }
  }

  /** Inheritance is a tree order: reflexive, transitive, antisymmetric up to canonical form,
      and any two scopes that reach the same target are comparable. */
  lemma ScopeTreeOrder(a: string, b: string, t: string)
    ensures ScopeApplies(a, a)
    ensures ScopeApplies(a, b) && ScopeApplies(b, t) ==> ScopeApplies(a, t)
    ensures ScopeApplies(a, b) && ScopeApplies(b, a) ==> CanonicalScope(a) == CanonicalScope(b)
    ensures ScopeApplies(a, t) && ScopeApplies(b, t) ==> ScopeApplies(a, b) || ScopeApplies(b, a)
  {
    hide CanonicalScope;
    var x, y, z := CanonicalScope(a), CanonicalScope(b), CanonicalScope(t);
    if x + "/" <= z && y + "/" <= z {
      if |x| < |y| {
        assert x + "/" == z[..|x| + 1] == (y + "/")[..|x| + 1] == y[..|x| + 1];
      } else if |y| < |x| {
        assert y + "/" == z[..|y| + 1] == (x + "/")[..|y| + 1] == x[..|y| + 1];
      } else {
        assert x == z[..|x|] == y;
      }
    }
    if x + "/" <= y && y + "/" <= z {
      assert x + "/" == y[..|x| + 1] == z[..|x| + 1];
    }
  }

  lemma CanonicalExtension(scope: string, tail: string)
    requires Lower(scope) == scope && scope != "" && scope[0] == '/'
    requires tail != "" && tail[|tail| - 1] != '/'
    ensures CanonicalScope(scope + tail) == scope + Lower(tail)
  {
    assert (scope + tail)[|scope + tail| - 1] == tail[|tail| - 1];
    LowerAppend(scope, tail);
  }

  /** Inheritance stops at segment boundaries: a sibling whose name merely extends another's is
      not beneath it. */
  lemma SegmentBoundary(scope: string, suffix: string)
    requires CanonicalScope(scope) == scope && scope != "/"
    requires suffix != "" && suffix[0] != '/' && suffix[|suffix| - 1] != '/'
    ensures !ScopeApplies(scope, scope + suffix)
    ensures ScopeApplies(scope, scope + ("/" + suffix))
  {
    CanonicalExtension(scope, suffix);
    CanonicalExtension(scope, "/" + suffix);
    hide CanonicalScope;
    assert (scope + Lower(suffix))[|scope|] == LowerChar(suffix[0]) != '/';
    assert Lower("/" + suffix)[0] == '/';
    assert (scope + "/")[|scope|] == '/';
    assert scope + "/" <= scope + Lower("/" + suffix);
  }

  lemma EndsInSlash(s: string)
    ensures HasSuffix(s, "/") <==> s != "" && s[|s| - 1] == '/'
    ensures HasSuffix(s, "//") <==> |s| >= 2 && s[|s| - 1] == s[|s| - 2] == '/'
  {}

  lemma FixedPointOf(c: string)
    requires c != "" && c[0] == '/' && Lower(c) == c
    ensures CanonicalScope(c) == c <==> c == "/" || c[|c| - 1] != '/'
  {
    EndsInSlash(c);
    if HasSuffix(c, "/") {
      LowerSlice(c, 0, |c| - 1);
      assert CanonicalScope(c) == if |c| == 1 then "/" else c[..|c| - 1];
    }
  }

  lemma CanonicalEnd(scope: string)
    ensures var c := CanonicalScope(scope); var t := TrimSuffix(scope, "/");
            if |t| <= 1 && (t == "" || t == "/") then c == "/"
            else |c| > 1 && c[|c| - 1] == LowerChar(t[|t| - 1])
  {}

  /** Canonical form trims one '/' only, so it is a fixed point exactly when the scope does not
      end in two of them ("//" itself is the root). */
  lemma CanonicalIdempotentIff(scope: string)
    ensures CanonicalScope(CanonicalScope(scope)) == CanonicalScope(scope)
            <==> (scope == "//" || !HasSuffix(scope, "//"))
  {
    EndsInSlash(scope);
    CanonicalEnd(scope);
    FixedPointOf(CanonicalScope(scope));
  }

  lemma {:induction false} AncestorsDistinct(t: string)
    requires t != "" && t[0] == '/' && !("//" <= t)
    ensures forall j, k :: 0 <= j < k < |Ancestors(t)| ==> Ancestors(t)[j] != Ancestors(t)[k]
    ensures forall j :: 0 <= j < |Ancestors(t)| - 1 ==> Ancestors(t)[j] != "/"
  {
    var i := LastIndexByte(t, '/').value;
    if i > 0 {
      var up := t[..i];
      AncestorsDistinct(up);
      forall k | 0 <= k < |Ancestors(up)| ensures Ancestors(up)[k] != up {
        AncestorsDescend(up, k);
      }
    }
  }

  lemma {:induction false} RootTwice(t: string)
    requires "//" <= t
    ensures |Ancestors(t)| >= 2 && Ancestors(t)[|Ancestors(t)| - 2] == "/"
  {
    assert t[1] == "//"[1] == '/';
    var i := LastIndexByte(t, '/').value;
    assert t[1..][0] == '/';
    assert i >= 1;
    if i == 1 {
      assert t[..1] == "/";
    } else {
      assert t[..i][..2] == t[..2];
      RootTwice(t[..i]);
    }
  }

  lemma BeginsDouble(s: string)
    ensures "//" <= s <==> |s| >= 2 && s[0] == '/' && s[1] == '/'
  {}

  lemma TrimmedHead(s: string)
    ensures var t := TrimSuffix(s, "/"); t <= s && |s| - 1 <= |t| && (|s| == 2 && s[1] == '/' ==> |t| == 1)
  {}

  lemma DoubleRoot(target: string)
    ensures "//" <= CanonicalScope(target) <==> "//" <= target && |target| > 2
  {
    hide TrimSuffix;
    var t := TrimSuffix(target, "/");
    TrimmedHead(target);
    BeginsDouble(target);
    BeginsDouble(CanonicalScope(target));
    assert |t| >= 2 ==> t[0] == target[0] && t[1] == target[1];
  }

  /** A scope is listed twice exactly when the target is longer than two slashes and begins with
      them. */
  lemma ChainDistinctIff(target: string)
    ensures (forall j, k :: 0 <= j < k < |ChainOf(target)| ==> ChainOf(target)[j] != ChainOf(target)[k])
            <==> !("//" <= target && |target| > 2)
  {
    DoubleRoot(target);
    hide Ancestors, CanonicalScope;
    var t := CanonicalScope(target);
    var c := ChainOf(target);
    if "//" <= t {
      RootTwice(t);
      AncestorsEndAtRoot(t);
      assert c[|c| - 2] == c[|c| - 1];
    } else {
      AncestorsDistinct(t);
      forall j, k | 0 <= j < k < |c| ensures c[j] != c[k] {
        if j == 0 {
          AncestorsDescend(t, k - 1);
        }
      }
    }
  }
}
