/** What the guard on role deletion counts: a LIKE on the stored ids, where resolution reads their
    last segment. */
module RoleGuard {
  import opened Text
  import opened Wildcard
  import opened Scopes
  import opened Directory
  import opened RoleTables
  import opened RoleLaws

  predicate ResolvesTo(a: Assignment, guid: string) {
    EqualFold(RoleGuidOf(a.roleId), guid)
  }

  /** Missed: the role's own, by an id with a trailing '/'. */
  predicate Missed(a: Assignment, guid: string) {
    ResolvesTo(a, guid) && HasSuffix(a.roleId, "/")
  }

  /** Stray: another role's, whose longer guid merely ends in this one. */
  predicate Stray(a: Assignment, guid: string) {
    && !HasSuffix(a.roleId, "/") && |RoleGuidOf(a.roleId)| > |guid|
    && HasSuffix(Lower(RoleGuidOf(a.roleId)), Lower(guid))
  }

  lemma PlainIds(guid: string)
    requires guid != "" && '/' !in guid
    ensures RoleGuidOf(guid) == guid && RoleGuidOf("/" + guid) == guid
  {
    EndsInSlash(guid);
    EndsInSlash("/" + guid);
    assert LastIndexByte("/" + guid, '/') == Some(0);
  }

  lemma SuffixAt(s: string, g: string, k: nat)
    requires k < |g| <= |s|
    ensures HasSuffix(s, g) ==> g[k] == s[|s| - |g| + k]
  {
    assert HasSuffix(s, g) ==> s[|s| - |g|..][k] == g[k];
  }

  /** The tail is what follows the last '/', or everything. */
  predicate IsTail(s: string, tail: string) {
    HasSuffix(s, tail) && (|tail| < |s| ==> s[|s| - |tail| - 1] == '/')
  }

  lemma SuffixInTail(s: string, tail: string, g: string)
    requires IsTail(s, tail) && '/' !in g
    ensures HasSuffix(s, g) <==> HasSuffix(tail, g)
  {
    if |tail| < |g| <= |s| {
      SuffixAt(s, g, |g| - |tail| - 1);
    } else if |g| <= |tail| {
      assert tail[|tail| - |g|..] == s[|s| - |tail|..][|tail| - |g|..] == s[|s| - |g|..];
    }
  }

  lemma SegmentIsTail(id: string)
    requires !HasSuffix(id, "/")
    ensures IsTail(id, RoleGuidOf(id))
  {}

  lemma TailFolds(s: string, tail: string)
    requires IsTail(s, tail)
    ensures IsTail(Lower(s), Lower(tail))
  {
    FoldSuffix(s, tail);
    if |tail| < |s| {
      assert Lower(s)[|s| - |tail| - 1] == LowerChar(s[|s| - |tail| - 1]);
    }
  }

  /** A suffix without '/' lies within the last segment. */
  lemma SuffixInSegment(id: string, g: string)
    requires '/' !in g && !HasSuffix(id, "/")
    ensures HasSuffix(Lower(id), g) <==> HasSuffix(Lower(RoleGuidOf(id)), g)
  {
    hide RoleGuidOf, HasSuffix, Lower, IsTail;
    SegmentIsTail(id);
    TailFolds(id, RoleGuidOf(id));
    SuffixInTail(Lower(id), Lower(RoleGuidOf(id)), g);
  }

  lemma PlainReference(a: Assignment, guid: string)
    requires PlainGuid(guid)
    ensures RefersTo(a, guid) <==> HasSuffix(Lower(a.roleId), Lower(guid))
  {
    LowerKeeps(guid, '%');
    LowerKeeps(guid, '_');
    SuffixPattern(LIKE, Lower(guid), Lower(a.roleId));
  }

  lemma SlashedEnd(id: string, g: string)
    requires g != "" && '/' !in g && HasSuffix(id, "/")
    ensures !HasSuffix(Lower(id), g)
  {
    EndsInSlash(id);
    assert Lower(id)[|id| - 1] == '/';
    SuffixLast(Lower(id), g);
  }

  /** A plain guid's guard counts exactly its own assignments but the missed ones, and the strays. */
  lemma CountedIff(a: Assignment, guid: string)
    requires PlainGuid(guid)
    ensures RefersTo(a, guid) <==> (ResolvesTo(a, guid) && !Missed(a, guid)) || Stray(a, guid)
  {
    PlainReference(a, guid);
    LowerKeeps(guid, '/');
    hide RoleGuidOf, RefersTo;
    var last := RoleGuidOf(a.roleId);
    if HasSuffix(a.roleId, "/") {
      SlashedEnd(a.roleId, Lower(guid));
    } else {
      SuffixInSegment(a.roleId, Lower(guid));
      if |last| == |guid| {
        assert Lower(last)[0..] == Lower(last);
      }
    }
  }

  function CountOf(rows: seq<Assignment>, p: Assignment -> bool): nat {
    if rows == [] then 0 else (if p(rows[0]) then 1 else 0) + CountOf(rows[1..], p)
  }

  lemma {:induction false} GuardCount(rows: seq<Assignment>, guid: string)
    requires PlainGuid(guid)
    ensures AssignmentsForRole(rows, guid) + CountOf(rows, a => Missed(a, guid)) ==
            CountOf(rows, a => ResolvesTo(a, guid)) + CountOf(rows, a => Stray(a, guid))
  {
    if rows != [] {
      CountedIff(rows[0], guid);
      StrayIsOther(rows[0], guid);
      hide RefersTo, ResolvesTo, Stray, PlainGuid;
      GuardCount(rows[1..], guid);
    }
  }

  lemma StrayIsOther(a: Assignment, guid: string)
    ensures Stray(a, guid) ==> !ResolvesTo(a, guid)
    ensures Missed(a, guid) ==> ResolvesTo(a, guid)
  {
    assert |Lower(RoleGuidOf(a.roleId))| == |RoleGuidOf(a.roleId)|;
    assert |Lower(guid)| == |guid|;
  }

  /** The number a refused deletion reports is the number of the role's assignments exactly when as
      many are missed as strays are counted. */
  lemma GuardCountIff(rows: seq<Assignment>, guid: string)
    requires PlainGuid(guid)
    ensures AssignmentsForRole(rows, guid) == CountOf(rows, a => ResolvesTo(a, guid)) <==>
            CountOf(rows, a => Missed(a, guid)) == CountOf(rows, a => Stray(a, guid))
  {
    hide AssignmentsForRole, CountOf, PlainGuid;
    GuardCount(rows, guid);
  }

  /** A deletion is refused for its assignments exactly when the definition is a stored custom one
      and has an assignment that is not missed, or a stray. */
  lemma DeleteRefusedIff(t: Tables, guid: string)
    requires PlainGuid(guid)
    ensures DeleteRole(t, guid).1.HasAssignments? <==>
            && FindRole(t.builtIns, guid).None? && FindRole(t.customs, guid).Some?
            && exists a :: a in t.assignments && ((ResolvesTo(a, guid) && !Missed(a, guid)) || Stray(a, guid))
  {
    hide AssignmentsForRole, FindRole, RefersTo, Stray, ResolvesTo, Missed, PlainGuid, WithoutRole;
    CountZero(t.assignments, guid);
    forall a | a in t.assignments
      ensures RefersTo(a, guid) <==> (ResolvesTo(a, guid) && !Missed(a, guid)) || Stray(a, guid)
    {
      CountedIff(a, guid);
    }
  }

  /** The guid with a letter for each of LIKE's wildcards. */
  function StandIn(p: string): (s: string)
    ensures |s| == |p|
    ensures forall i :: 0 <= i < |p| ==> s[i] == if p[i] == '%' || p[i] == '_' then 'x' else p[i]
  {
    seq(|p|, i requires 0 <= i < |p| => if p[i] == '%' || p[i] == '_' then 'x' else p[i])
  }

  lemma {:induction false} StandInMatches(p: string)
    ensures Matches(LIKE, p, StandIn(p))
  {
    if p != [] {
      StandInMatches(p[1..]);
      assert StandIn(p)[1..] == StandIn(p[1..]);
    }
  }

  lemma StandInCounted(a: Assignment, guid: string)
    requires a.roleId == StandIn(guid)
    ensures RefersTo(a, guid)
  {
    var p, s := Lower(guid), Lower(a.roleId);
    assert s == StandIn(p);
    StandInMatches(p);
    assert (['%'] + p)[1..] == p && s[0..] == s;
  }

  predicate SameLength(a: Assignment, guid: string) {
    !HasSuffix(a.roleId, "/") && |RoleGuidOf(a.roleId)| == |guid|
  }

  /** The guard tells a guid from every other of its length exactly when it holds neither of LIKE's
      wildcards. */
  lemma GuardTellsGuidsApartIff(guid: string)
    requires guid != "" && '/' !in guid
    ensures (forall a :: SameLength(a, guid) ==> (RefersTo(a, guid) <==> ResolvesTo(a, guid))) <==>
            '%' !in guid && '_' !in guid
  {
    if '%' !in guid && '_' !in guid {
      forall a | SameLength(a, guid) ensures RefersTo(a, guid) <==> ResolvesTo(a, guid) {
        CountedIff(a, guid);
      }
    } else {
      var id := StandIn(guid);
      var a := Assignment("", "", "", id, "", "", "", "", 0);
      EndsInSlash(id);
      PlainIds(id);
      StandInCounted(a, guid);
      var i :| 0 <= i < |guid| && (guid[i] == '%' || guid[i] == '_');
      assert Lower(id)[i] == 'x' != Lower(guid)[i];
      assert SameLength(a, guid) && !ResolvesTo(a, guid);
    }
  }
}
