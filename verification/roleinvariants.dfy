/** What holds all along every history of the role tables, each with the exact events that break it:
    assignments resolve, assignments lie where their role may be assigned, no custom role takes a built-in's name. */
module RoleInvariants {
  import opened Text
  import opened Scopes
  import opened Conditions
  import opened Parser
  import opened Directory
  import opened RoleTables
  import opened RoleLaws

  // ---- along a history ----

  /** The tables after the first n events. */
  function After(rd: Reader, t: Tables, es: seq<(Event, int)>, n: nat): Tables
    requires n <= |es|
  {
    Run(rd, t, es[..n])
  }

  lemma {:induction false} RunAppend(rd: Reader, t: Tables, xs: seq<(Event, int)>, ys: seq<(Event, int)>)
    ensures Run(rd, t, xs + ys) == Run(rd, Run(rd, t, xs), ys)
    decreases |xs|
  {
    hide Step;
    if xs == [] {
      assert xs + ys == ys;
    } else {
      RunAppend(rd, Step(rd, t, xs[0].0, xs[0].1), xs[1..], ys);
      assert (xs + ys)[1..] == xs[1..] + ys;
    }
  }

  lemma AfterNext(rd: Reader, t: Tables, es: seq<(Event, int)>, n: nat)
    requires n < |es|
    ensures After(rd, t, es, n + 1) == Step(rd, After(rd, t, es, n), es[n].0, es[n].1)
  {
    hide Step;
    RunAppend(rd, t, es[..n], [es[n]]);
    assert es[..n + 1] == es[..n] + [es[n]];
    assert [es[n]][1..] == [];
  }

  /** Every event keeps the invariant exactly when it is not one of those that break it. */
  ghost predicate BrokenOnlyBy(rd: Reader, inv: Tables -> bool, breaks: (Tables, Event) -> bool) {
    forall t, e, now :: inv(t) ==> (inv(Step(rd, t, e, now)) <==> !breaks(t, e))
  }

  ghost predicate HoldsThroughout(rd: Reader, t: Tables, es: seq<(Event, int)>, inv: Tables -> bool) {
    forall n :: 0 <= n <= |es| ==> inv(After(rd, t, es, n))
  }

  ghost predicate NeverBroken(rd: Reader, t: Tables, es: seq<(Event, int)>, breaks: (Tables, Event) -> bool) {
    forall n :: 0 <= n < |es| ==> !breaks(After(rd, t, es, n), es[n].0)
  }

  lemma {:induction false} HoldsUntil(rd: Reader, t: Tables, es: seq<(Event, int)>, n: nat,
                                      inv: Tables -> bool, breaks: (Tables, Event) -> bool)
    requires n <= |es| && inv(t) && BrokenOnlyBy(rd, inv, breaks) && NeverBroken(rd, t, es, breaks)
    ensures inv(After(rd, t, es, n))
  {
    hide Step, Run;
    if n == 0 {
      AfterNothing(rd, t, es);
    } else {
      HoldsUntil(rd, t, es, n - 1, inv, breaks);
      AfterNext(rd, t, es, n - 1);
    }
  }

  lemma AfterNothing(rd: Reader, t: Tables, es: seq<(Event, int)>)
    ensures After(rd, t, es, 0) == t
  {}

  lemma ThroughoutIff(rd: Reader, t: Tables, es: seq<(Event, int)>, inv: Tables -> bool,
                      breaks: (Tables, Event) -> bool)
    requires inv(t) && BrokenOnlyBy(rd, inv, breaks)
    ensures HoldsThroughout(rd, t, es, inv) <==> NeverBroken(rd, t, es, breaks)
  {
    hide Step, Run;
    if NeverBroken(rd, t, es, breaks) {
      forall n | 0 <= n <= |es| ensures inv(After(rd, t, es, n)) {
        HoldsUntil(rd, t, es, n, inv, breaks);
      }
    }
    if HoldsThroughout(rd, t, es, inv) {
      forall n | 0 <= n < |es| ensures !breaks(After(rd, t, es, n), es[n].0) {
        assert inv(After(rd, t, es, n)) && inv(After(rd, t, es, n + 1));
        AfterNext(rd, t, es, n);
      }
    }
  }

  // ---- assignments resolve ----

  /** An accepted deletion of a role that some id with a trailing '/' resolves to. */
  predicate LeavesDangling(t: Tables, e: Event) {
    && e.Delete? && DeleteRole(t, e.guid).1.RoleDeleted?
    && exists a :: a in t.assignments && HasSuffix(a.roleId, "/") && EqualFold(RoleGuidOf(a.roleId), e.guid)
  }

  lemma SoundStepIff(rd: Reader, t: Tables, e: Event, now: int)
    requires Sound(rd, t)
    ensures Sound(rd, Step(rd, t, e, now)) <==> !LeavesDangling(t, e)
  {
    hide Live, CreateAssignment, HasSuffix, Upsert, FindRole, WithoutAssignment, EqualFold, RoleGuidOf, PutRole,
      WithoutRole, AssignmentsForRole;
    match e {
      case Put(guid, body) => PutKeepsSound(rd, t, guid, body, now);
      case Delete(guid) =>
        if DeleteRole(t, guid).1.RoleDeleted? {
          DeleteDanglesIff(rd, t, guid);
        }
      case Assign(name, scope, body) => AssignKeepsSound(rd, t, name, scope, body, now);
      case Unassign(name) =>
        WithoutAssignmentKeeps(t.assignments, name);
        FewerKeepsSound(rd, t, DeleteAssignment(t, name));
      case Deny(d) => FewerKeepsSound(rd, t, SeedDeny(t, d).0);
      case Undeny(name) => FewerKeepsSound(rd, t, t.(denies := WithoutDeny(t.denies, name)));
    }
  }

  /** Along every history from an empty store: every assignment's role resolves and its condition
      parses, all the time, exactly when no accepted deletion leaves one dangling. */
  lemma NothingDanglesIff(rd: Reader, builtIns: seq<RoleDefinition>, es: seq<(Event, int)>)
    ensures HoldsThroughout(rd, Empty(builtIns), es, t => Sound(rd, t)) <==>
            NeverBroken(rd, Empty(builtIns), es, (t, e) => LeavesDangling(t, e))
  {
    hide Step, Sound, LeavesDangling, HoldsThroughout, NeverBroken;
    EmptyIsSound(rd, builtIns);
    forall t, e, now | Sound(rd, t) ensures Sound(rd, Step(rd, t, e, now)) <==> !LeavesDangling(t, e) {
      SoundStepIff(rd, t, e, now);
    }
    ThroughoutIff(rd, Empty(builtIns), es, t => Sound(rd, t), (t, e) => LeavesDangling(t, e));
  }

  lemma EmptyIsSound(rd: Reader, builtIns: seq<RoleDefinition>)
    ensures Sound(rd, Empty(builtIns))
  {}

  // ---- display names ----

  /** No custom role has a built-in's name, in any case. */
  predicate NamesApart(t: Tables) {
    forall d, b :: d in t.customs && b in t.builtIns ==> !EqualFold(d.roleName, b.roleName)
  }

  /** An accepted PUT under a built-in's name: the unique index covers custom roles only. */
  predicate TakesBuiltInName(t: Tables, e: Event) {
    && e.Put? && PutRole(t, e.guid, e.body, 0).1.RoleStored?
    && exists b :: b in t.builtIns && EqualFold(e.body.roleName, b.roleName)
  }

  lemma {:induction false} UpsertHolds(customs: seq<RoleDefinition>, d: RoleDefinition)
    ensures exists c :: c in Upsert(customs, d) && c.roleName == d.roleName
  {
    if customs != [] && customs[0].guid != d.guid {
      UpsertHolds(customs[1..], d);
      var c :| c in Upsert(customs[1..], d) && c.roleName == d.roleName;
      assert c in Upsert(customs, d);
    } else {
      assert Upsert(customs, d)[0].roleName == d.roleName;
    }
  }

  lemma {:induction false} UpsertKeepsOthers(customs: seq<RoleDefinition>, d: RoleDefinition)
    ensures forall c :: c in customs && c.guid != d.guid ==> c in Upsert(customs, d)
  {
    if customs != [] && customs[0].guid != d.guid {
      UpsertKeepsOthers(customs[1..], d);
    }
  }

  lemma OutcomeIgnoresTime(t: Tables, guid: string, body: RoleBody, now: int, later: int)
    ensures PutRole(t, guid, body, now).1 == PutRole(t, guid, body, later).1
  {
    hide FindRole, Upsert, TrimSpace, ValidScopeText, EqualFold;
    assert NameTaken(t.customs, RoleRow(t.customs, guid, body, now)) ==
           NameTaken(t.customs, RoleRow(t.customs, guid, body, later));
  }

  lemma PutNamesIff(t: Tables, guid: string, body: RoleBody, now: int)
    requires NamesApart(t)
    ensures NamesApart(PutRole(t, guid, body, now).0) <==> !TakesBuiltInName(t, Put(guid, body))
  {
    hide FindRole, Upsert, TrimSpace, ValidScopeText, EqualFold, NameTaken;
    OutcomeIgnoresTime(t, guid, body, now, 0);
    if PutRole(t, guid, body, now).1.RoleStored? {
      var d := RoleRow(t.customs, guid, body, now);
      UpsertHolds(t.customs, d);
      UpsertKeeps(t.customs, d);
    }
  }

  lemma NamesStepIff(rd: Reader, t: Tables, e: Event, now: int)
    requires NamesApart(t)
    ensures NamesApart(Step(rd, t, e, now)) <==> !TakesBuiltInName(t, e)
  {
    hide CreateAssignment, PutRole, FindRole, WithoutAssignment, EqualFold, AssignmentsForRole, WithoutRole;
    match e {
      case Put(guid, body) => PutNamesIff(t, guid, body, now);
      case Delete(guid) => WithoutRoleSome(t.customs, guid);
      case Assign(name, scope, body) => AssignKeepsRoles(rd, t, name, scope, body, now);
      case Unassign(_) =>
      case Deny(_) =>
      case Undeny(_) =>
    }
  }

  lemma AssignKeepsRoles(rd: Reader, t: Tables, name: string, scope: string, body: AssignmentBody, now: int)
    ensures var u := CreateAssignment(rd, t, name, scope, body, now).0;
            u.customs == t.customs && u.builtIns == t.builtIns
  {
    hide ResolveRoleFromId, Parse, AssignableAt, Clashes;
  }

  lemma {:induction false} WithoutRoleSome(customs: seq<RoleDefinition>, guid: string)
    ensures forall d :: d in WithoutRole(customs, guid) ==> d in customs
  {
    hide EqualFold;
    if customs != [] {
      WithoutRoleSome(customs[1..], guid);
    }
  }

  /** Along every history from an empty store: custom and built-in names stay apart exactly when no
      accepted PUT takes a built-in's name. */
  lemma NamesApartIff(rd: Reader, builtIns: seq<RoleDefinition>, es: seq<(Event, int)>)
    ensures HoldsThroughout(rd, Empty(builtIns), es, t => NamesApart(t)) <==>
            NeverBroken(rd, Empty(builtIns), es, (t, e) => TakesBuiltInName(t, e))
  {
    hide Step, NamesApart, TakesBuiltInName, HoldsThroughout, NeverBroken;
    EmptyNamesApart(builtIns);
    forall t, e, now | NamesApart(t) ensures NamesApart(Step(rd, t, e, now)) <==> !TakesBuiltInName(t, e) {
      NamesStepIff(rd, t, e, now);
    }
    ThroughoutIff(rd, Empty(builtIns), es, t => NamesApart(t), (t, e) => TakesBuiltInName(t, e));
  }

  lemma EmptyNamesApart(builtIns: seq<RoleDefinition>)
    ensures NamesApart(Empty(builtIns))
  {}

  // ---- assignable scopes ----

  /** The assignment lies at or beneath a scope its role, as it now resolves, may be assigned at. */
  predicate InPlace(t: Tables, a: Assignment) {
    var def := ResolveRoleFromId(t, a.roleId);
    def.Some? ==> AssignableAt(def.value, a.scopeDisplay)
  }

  predicate AllInPlace(t: Tables) {
    forall a :: a in t.assignments ==> InPlace(t, a)
  }

  /** The row a PUT writes is the one its guid then resolves to. */
  predicate TakesEffect(t: Tables, guid: string) {
    FindRole(t.customs, guid).None? || FindRole(t.customs, guid).value.guid == guid
  }

  predicate Declares(body: RoleBody, scope: string) {
    exists i :: 0 <= i < |body.assignableScopes| && ScopeApplies(body.assignableScopes[i], scope)
  }

  /** A PUT that takes effect and declares no scope over some assignment of its role. */
  predicate Narrows(t: Tables, e: Event) {
    && e.Put? && PutRole(t, e.guid, e.body, 0).1.RoleStored? && TakesEffect(t, e.guid)
    && exists a :: a in t.assignments && EqualFold(RoleGuidOf(a.roleId), e.guid) && !Declares(e.body, a.scopeDisplay)
  }

  /** An accepted assignment whose scope, once its last '/' is trimmed for storing, is out of place. */
  predicate Slips(rd: Reader, t: Tables, e: Event) {
    && e.Assign? && CreateAssignment(rd, t, e.name, e.scope, e.details, 0).1.AssignmentCreated?
    && !AssignableAt(ResolveRoleFromId(t, e.details.roleId).value,
                     NewAssignment(e.name, e.scope, e.details, 0).scopeDisplay)
  }

  predicate Misplaces(rd: Reader, t: Tables, e: Event) {
    Narrows(t, e) || Slips(rd, t, e)
  }

  lemma {:induction false} FindRoleIgnoresCase(roles: seq<RoleDefinition>, g: string, h: string)
    requires EqualFold(g, h)
    ensures FindRole(roles, g) == FindRole(roles, h)
  {
    if roles != [] {
      FindRoleIgnoresCase(roles[1..], g, h);
    }
  }

  lemma {:induction false} UpsertKeepsResolution(customs: seq<RoleDefinition>, d: RoleDefinition, h: string)
    requires !EqualFold(d.guid, h)
    ensures FindRole(Upsert(customs, d), h) == FindRole(customs, h)
  {
    if customs != [] {
      UpsertKeepsResolution(customs[1..], d, h);
      var rest := Upsert(customs[1..], d);
      assert ([customs[0]] + rest)[1..] == rest;
    }
  }

  /** What an accepted PUT does to the resolution of an id. */
  lemma PutResolves(t: Tables, guid: string, body: RoleBody, now: int, id: string)
    requires PutRole(t, guid, body, now).1.RoleStored?
    ensures var r := ResolveRoleFromId(PutRole(t, guid, body, now).0, id);
            if EqualFold(RoleGuidOf(id), guid) && TakesEffect(t, guid)
            then r.Some? && r.value.custom && r.value.assignableScopes == body.assignableScopes
            else r == ResolveRoleFromId(t, id)
  {
    hide FindRole, Upsert, NameTaken, ValidScopeText, TrimSpace, RoleGuidOf, EqualFold;
    var d, h := RoleRow(t.customs, guid, body, now), RoleGuidOf(id);
    FoldSymmetric(guid, h);
    if EqualFold(h, guid) {
      FindRoleIgnoresCase(t.builtIns, h, guid);
      FindRoleIgnoresCase(t.customs, h, guid);
      FindRoleIgnoresCase(Upsert(t.customs, d), h, guid);
      UpsertReadsBack(t.customs, d);
    } else {
      UpsertKeepsResolution(t.customs, d, h);
    }
  }

  lemma PutPlaceIff(t: Tables, guid: string, body: RoleBody, now: int, a: Assignment)
    requires InPlace(t, a) && PutRole(t, guid, body, now).1.RoleStored?
    ensures InPlace(PutRole(t, guid, body, now).0, a) <==>
            !(TakesEffect(t, guid) && EqualFold(RoleGuidOf(a.roleId), guid) && !Declares(body, a.scopeDisplay))
  {
    hide PutRole, ResolveRoleFromId, RoleGuidOf, EqualFold, TakesEffect, ScopeApplies;
    PutResolves(t, guid, body, now, a.roleId);
  }

  lemma PutKeepsAssignments(t: Tables, guid: string, body: RoleBody, now: int)
    ensures PutRole(t, guid, body, now).0.assignments == t.assignments
    ensures !PutRole(t, guid, body, now).1.RoleStored? ==> PutRole(t, guid, body, now).0 == t
  {
    hide FindRole, Upsert, NameTaken, ValidScopeText, TrimSpace;
  }

  lemma PutInPlaceIff(t: Tables, guid: string, body: RoleBody, now: int)
    requires AllInPlace(t)
    ensures AllInPlace(PutRole(t, guid, body, now).0) <==> !Narrows(t, Put(guid, body))
  {
    hide PutRole, InPlace, TakesEffect, Declares, EqualFold, RoleGuidOf;
    OutcomeIgnoresTime(t, guid, body, now, 0);
    PutKeepsAssignments(t, guid, body, now);
    if PutRole(t, guid, body, now).1.RoleStored? {
      forall a | a in t.assignments
        ensures InPlace(PutRole(t, guid, body, now).0, a) <==>
                !(TakesEffect(t, guid) && EqualFold(RoleGuidOf(a.roleId), guid) && !Declares(body, a.scopeDisplay))
      {
        PutPlaceIff(t, guid, body, now, a);
      }
    }
  }

  lemma DeleteKeepsPlace(t: Tables, guid: string, a: Assignment)
    requires InPlace(t, a)
    ensures InPlace(DeleteRole(t, guid).0, a)
  {
    hide FindRole, RoleGuidOf, WithoutRole, AssignmentsForRole, EqualFold, AssignableAt;
    var h := RoleGuidOf(a.roleId);
    FoldSymmetric(guid, h);
    WithoutRoleFinds(t.customs, guid, h);
    if EqualFold(h, guid) {
      FindRoleIgnoresCase(t.builtIns, h, guid);
    }
  }

  lemma SameRolesSamePlace(t: Tables, u: Tables, a: Assignment)
    requires t.builtIns == u.builtIns && t.customs == u.customs
    ensures InPlace(t, a) <==> InPlace(u, a)
  {
    hide FindRole, RoleGuidOf, AssignableAt;
  }

  lemma AssignOutcome(rd: Reader, t: Tables, name: string, scope: string, body: AssignmentBody, now: int)
    ensures var (u, answer) := CreateAssignment(rd, t, name, scope, body, now);
            && (answer.AssignmentCreated? <==> CreateAssignment(rd, t, name, scope, body, 0).1.AssignmentCreated?)
            && u == (if answer.AssignmentCreated?
                     then t.(assignments := t.assignments + [NewAssignment(name, scope, body, now)]) else t)
            && (answer.AssignmentCreated? ==> ResolveRoleFromId(t, body.roleId).Some?)
  {
    hide ResolveRoleFromId, Parse, AssignableAt, TrimSuffix, Lower;
    var a, b := NewAssignment(name, scope, body, now), NewAssignment(name, scope, body, 0);
    assert forall i :: 0 <= i < |t.assignments| ==> (Clashes(t.assignments[i], a) <==> Clashes(t.assignments[i], b));
  }

  lemma AssignInPlaceIff(rd: Reader, t: Tables, name: string, scope: string, body: AssignmentBody, now: int)
    requires AllInPlace(t)
    ensures AllInPlace(CreateAssignment(rd, t, name, scope, body, now).0) <==> !Slips(rd, t, Assign(name, scope, body))
  {
    hide CreateAssignment, InPlace, AssignableAt, ResolveRoleFromId, NewAssignment;
    AssignOutcome(rd, t, name, scope, body, now);
    var u, a := CreateAssignment(rd, t, name, scope, body, now).0, NewAssignment(name, scope, body, now);
    if CreateAssignment(rd, t, name, scope, body, now).1.AssignmentCreated? {
      NewInPlace(t, u, name, scope, body, now);
      assert u.assignments[|t.assignments|] == a;
      forall b | b in t.assignments ensures InPlace(u, b) {
        SameRolesSamePlace(t, u, b);
      }
    }
  }

  lemma NewInPlace(t: Tables, u: Tables, name: string, scope: string, body: AssignmentBody, now: int)
    requires t.builtIns == u.builtIns && t.customs == u.customs && ResolveRoleFromId(t, body.roleId).Some?
    ensures InPlace(u, NewAssignment(name, scope, body, now)) <==>
            AssignableAt(ResolveRoleFromId(t, body.roleId).value, NewAssignment(name, scope, body, 0).scopeDisplay)
  {
    hide FindRole, RoleGuidOf, AssignableAt, TrimSuffix, Lower;
  }

  lemma FewerInPlace(t: Tables, u: Tables)
    requires AllInPlace(t) && t.builtIns == u.builtIns && t.customs == u.customs
    requires forall a :: a in u.assignments ==> a in t.assignments
    ensures AllInPlace(u)
  {
    hide InPlace;
    forall a | a in u.assignments ensures InPlace(u, a) {
      SameRolesSamePlace(t, u, a);
    }
  }

  lemma InPlaceStepIff(rd: Reader, t: Tables, e: Event, now: int)
    requires AllInPlace(t)
    ensures AllInPlace(Step(rd, t, e, now)) <==> !Misplaces(rd, t, e)
  {
    hide InPlace, CreateAssignment, PutRole, DeleteRole, WithoutAssignment, Narrows, Slips;
    NotBoth(rd, t, e);
    match e {
      case Put(guid, body) => PutInPlaceIff(t, guid, body, now);
      case Delete(guid) =>
        DeleteKeepsAssignments(t, guid);
        forall a | a in t.assignments ensures InPlace(DeleteRole(t, guid).0, a) {
          DeleteKeepsPlace(t, guid, a);
        }
      case Assign(name, scope, body) => AssignInPlaceIff(rd, t, name, scope, body, now);
      case Unassign(name) =>
        WithoutAssignmentKeeps(t.assignments, name);
        FewerInPlace(t, DeleteAssignment(t, name));
      case Deny(d) => FewerInPlace(t, SeedDeny(t, d).0);
      case Undeny(name) => FewerInPlace(t, t.(denies := WithoutDeny(t.denies, name)));
    }
  }

  lemma NotBoth(rd: Reader, t: Tables, e: Event)
    ensures !e.Put? ==> !Narrows(t, e)
    ensures !e.Assign? ==> !Slips(rd, t, e)
  {}

  lemma DeleteKeepsAssignments(t: Tables, guid: string)
    ensures DeleteRole(t, guid).0.assignments == t.assignments
  {
    hide FindRole, AssignmentsForRole, WithoutRole;
  }

  /** Along every history from an empty store: every assignment lies at or beneath a scope its role
      declares, all the time, exactly when no PUT narrows a role away from an assignment of it and
      no assignment slips out of place by the trimming of its scope. */
  lemma AllInPlaceIff(rd: Reader, builtIns: seq<RoleDefinition>, es: seq<(Event, int)>)
    ensures HoldsThroughout(rd, Empty(builtIns), es, t => AllInPlace(t)) <==>
            NeverBroken(rd, Empty(builtIns), es, (t, e) => Misplaces(rd, t, e))
  {
    hide Step, AllInPlace, Misplaces, HoldsThroughout, NeverBroken;
    NoneMisplaced(Empty(builtIns));
    forall t, e, now | AllInPlace(t) ensures AllInPlace(Step(rd, t, e, now)) <==> !Misplaces(rd, t, e) {
      InPlaceStepIff(rd, t, e, now);
    }
    ThroughoutIff(rd, Empty(builtIns), es, t => AllInPlace(t), (t, e) => Misplaces(rd, t, e));
  }

  lemma NoneMisplaced(t: Tables)
    requires t.assignments == []
    ensures AllInPlace(t)
  {}

  /** An assignment can slip only at a scope that ends in two slashes. */
  lemma SlipsAtTwoSlashes(rd: Reader, t: Tables, e: Event)
    requires Slips(rd, t, e)
    ensures HasSuffix(e.scope, "//")
  {
    hide Parse, ResolveRoleFromId, ScopeApplies, Clashes, Lower, HasSuffix, CanonicalScope, TrimSuffix;
    if !HasSuffix(e.scope, "//") {
      ShownScope(e.scope);
      SameCanonicalAssignable(ResolveRoleFromId(t, e.details.roleId).value, e.scope,
                              NewAssignment(e.name, e.scope, e.details, 0).scopeDisplay);
    }
  }

  lemma ShownScope(scope: string)
    requires !HasSuffix(scope, "//")
    ensures var shown := if TrimSuffix(scope, "/") == "" then "/" else TrimSuffix(scope, "/");
            CanonicalScope(shown) == CanonicalScope(scope)
  {
    EndsInSlash(scope);
    EndsInSlash(TrimSuffix(scope, "/"));
  }

  lemma SameCanonicalAssignable(def: RoleDefinition, s: string, s': string)
    requires CanonicalScope(s) == CanonicalScope(s')
    ensures AssignableAt(def, s) <==> AssignableAt(def, s')
  {
    hide CanonicalScope;
  }
}
