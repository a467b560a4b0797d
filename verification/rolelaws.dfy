/** What holds in every state the role handlers can reach, and exactly where the guard on role
    deletion falls short. */
module RoleLaws {
  import opened Text
  import opened Wildcard
  import opened Scopes
  import opened Conditions
  import opened Parser
  import opened Rendering
  import opened Evaluator
  import opened Dependencies
  import opened Directory
  import opened Decisions
  import opened DecisionLaws
  import opened RoleTables

  // ---- runs ----

  datatype Event =
    | Put(guid: string, body: RoleBody)
    | Delete(guid: string)
    | Assign(name: string, scope: string, details: AssignmentBody)
    | Unassign(name: string)
    | Deny(deny: DenyAssignment)
    | Undeny(name: string)

  function Step(rd: Reader, t: Tables, e: Event, now: int): Tables {
    match e
    case Put(guid, body) => PutRole(t, guid, body, now).0
    case Delete(guid) => DeleteRole(t, guid).0
    case Assign(name, scope, body) => CreateAssignment(rd, t, name, scope, body, now).0
    case Unassign(name) => DeleteAssignment(t, name)
    case Deny(d) => SeedDeny(t, d).0
    case Undeny(name) => t.(denies := WithoutDeny(t.denies, name))
  }

  /** A history: each event with the time it is served at. */
  function Run(rd: Reader, t: Tables, es: seq<(Event, int)>): Tables
    decreases |es|
  {
    if es == [] then t else Run(rd, Step(rd, t, es[0].0, es[0].1), es[1..])
  }

  function Empty(builtIns: seq<RoleDefinition>): Tables {
    Tables(builtIns, [], [], [])
  }

  // ---- no assignment dangles ----

  predicate Live(rd: Reader, t: Tables, a: Assignment) {
    ResolveRoleFromId(t, a.roleId).Some? && (a.condition == "" || Parse(rd, a.condition).Ok?)
  }

  /** Every stored assignment's role resolves and its condition parses. */
  predicate Sound(rd: Reader, t: Tables) {
    forall a :: a in t.assignments ==> Live(rd, t, a)
  }

  predicate Slashless(t: Tables) {
    forall a :: a in t.assignments ==> !HasSuffix(a.roleId, "/")
  }

  predicate SlashlessEvent(e: Event) {
    e.Assign? ==> !HasSuffix(e.details.roleId, "/")
  }

  lemma {:induction false} UpsertFinds(customs: seq<RoleDefinition>, d: RoleDefinition, guid: string)
    ensures FindRole(customs, guid).Some? ==> FindRole(Upsert(customs, d), guid).Some?
  {
    if customs != [] && customs[0].guid != d.guid {
      UpsertFinds(customs[1..], d, guid);
    }
  }

  lemma {:induction false} WithoutRoleFinds(customs: seq<RoleDefinition>, gone: string, guid: string)
    ensures FindRole(WithoutRole(customs, gone), guid) ==
            if EqualFold(gone, guid) then None else FindRole(customs, guid)
  {
    if customs != [] {
      WithoutRoleFinds(customs[1..], gone, guid);
      var rest := WithoutRole(customs[1..], gone);
      assert [customs[0]] + rest != [] && ([customs[0]] + rest)[1..] == rest;
      assert [] + rest == rest;
    }
  }

  lemma {:induction false} CountZero(rows: seq<Assignment>, guid: string)
    ensures AssignmentsForRole(rows, guid) == 0 <==> forall a :: a in rows ==> !RefersTo(a, guid)
  {
    hide RefersTo;
    if rows != [] {
      CountZero(rows[1..], guid);
    }
  }

  lemma RoleGuidIsSuffix(id: string)
    requires !HasSuffix(id, "/")
    ensures HasSuffix(id, RoleGuidOf(id))
  {}

  lemma FoldSuffix(id: string, tail: string)
    requires HasSuffix(id, tail)
    ensures HasSuffix(Lower(id), Lower(tail))
  {
    LowerSlice(id, |id| - |tail|, |id|);
    assert Lower(id)[|id| - |tail|..] == Lower(id)[|id| - |tail|..|id|];
  }

  lemma SuffixLast(s: string, g: string)
    ensures HasSuffix(s, g) && g != "" ==> g[|g| - 1] == s[|s| - 1]
  {}

  /** An id without a trailing '/' is always counted for the role it resolves to. */
  lemma SlashlessIsCounted(a: Assignment, guid: string)
    requires !HasSuffix(a.roleId, "/") && EqualFold(RoleGuidOf(a.roleId), guid)
    ensures RefersTo(a, guid)
  {
    hide RoleGuidOf;
    RoleGuidIsSuffix(a.roleId);
    FoldSuffix(a.roleId, RoleGuidOf(a.roleId));
    SuffixPattern(LIKE, Lower(guid), Lower(a.roleId));
  }

  predicate PlainGuid(guid: string) {
    guid != "" && '/' !in guid && '%' !in guid && '_' !in guid
  }

  /** For a plain guid, deletion counts an assignment that resolves to it exactly when the id
      was stored without a trailing '/'. */
  lemma DeleteGuardIff(a: Assignment, guid: string)
    requires PlainGuid(guid) && EqualFold(RoleGuidOf(a.roleId), guid)
    ensures RefersTo(a, guid) <==> !HasSuffix(a.roleId, "/")
  {
    if !HasSuffix(a.roleId, "/") {
      SlashlessIsCounted(a, guid);
    } else {
      hide RoleGuidOf;
      LowerKeeps(guid, '/');
      LowerKeeps(guid, '%');
      LowerKeeps(guid, '_');
      SuffixPattern(LIKE, Lower(guid), Lower(a.roleId));
      var g, s := Lower(guid), Lower(a.roleId);
      assert a.roleId[|a.roleId| - 1] == '/' && s[|s| - 1] == '/';
      SuffixLast(s, g);
    }
  }

  lemma PutKeepsSound(rd: Reader, t: Tables, guid: string, body: RoleBody, now: int)
    requires Sound(rd, t)
    ensures Sound(rd, PutRole(t, guid, body, now).0)
  {
    hide Upsert, FindRole, RoleGuidOf, Parse, NameTaken, ValidScopeText;
    var d := RoleRow(t.customs, guid, body, now);
    forall a | a in t.assignments ensures Live(rd, PutRole(t, guid, body, now).0, a) {
      assert Live(rd, t, a);
      UpsertFinds(t.customs, d, RoleGuidOf(a.roleId));
    }
  }

  /** The resolution of every other role survives a deletion. */
  lemma DeleteKeepsOthers(t: Tables, guid: string, id: string)
    requires !EqualFold(guid, RoleGuidOf(id))
    ensures ResolveRoleFromId(DeleteRole(t, guid).0, id) == ResolveRoleFromId(t, id)
  {
    hide FindRole, RoleGuidOf, WithoutRole, AssignmentsForRole, EqualFold;
    WithoutRoleFinds(t.customs, guid, RoleGuidOf(id));
  }

  lemma DeleteKeepsSound(rd: Reader, t: Tables, guid: string)
    requires Sound(rd, t) && Slashless(t)
    ensures Sound(rd, DeleteRole(t, guid).0)
  {
    hide RoleGuidOf, Parse, RefersTo, EqualFold, ResolveRoleFromId, FindRole, WithoutRole;
    if DeleteRole(t, guid).1.RoleDeleted? {
      CountZero(t.assignments, guid);
      forall a | a in t.assignments ensures Live(rd, DeleteRole(t, guid).0, a) {
        assert Live(rd, t, a) && !RefersTo(a, guid);
        if EqualFold(RoleGuidOf(a.roleId), guid) {
          SlashlessIsCounted(a, guid);
        }
        FoldSymmetric(RoleGuidOf(a.roleId), guid);
        DeleteKeepsOthers(t, guid, a.roleId);
      }
    }
  }

  lemma FoldSymmetric(a: string, b: string)
    ensures EqualFold(a, b) <==> EqualFold(b, a)
  {}

  lemma AssignKeepsSound(rd: Reader, t: Tables, name: string, scope: string, body: AssignmentBody, now: int)
    requires Sound(rd, t)
    ensures Sound(rd, CreateAssignment(rd, t, name, scope, body, now).0)
    ensures Slashless(t) && !HasSuffix(body.roleId, "/") ==>
            Slashless(CreateAssignment(rd, t, name, scope, body, now).0)
  {
    hide FindRole, RoleGuidOf, Parse, AssignableAt, Clashes, TrimSuffix, Lower, HasSuffix;
    var u := CreateAssignment(rd, t, name, scope, body, now).0;
    forall a | a in u.assignments ensures Live(rd, u, a) {
      assert a in t.assignments ==> Live(rd, t, a);
    }
  }

  lemma {:induction false} WithoutAssignmentKeeps(rows: seq<Assignment>, name: string)
    ensures forall a :: a in WithoutAssignment(rows, name) <==> a in rows && a.name != name
  {
    if rows != [] {
      WithoutAssignmentKeeps(rows[1..], name);
    }
  }

  /** Fewer assignments, or other denies, leave every assignment as live as it was. */
  lemma FewerKeepsSound(rd: Reader, t: Tables, u: Tables)
    requires Sound(rd, t) && t.builtIns == u.builtIns && t.customs == u.customs
    requires forall a :: a in u.assignments ==> a in t.assignments
    ensures Sound(rd, u)
    ensures Slashless(t) ==> Slashless(u)
  {
    hide Parse, FindRole, RoleGuidOf, HasSuffix;
    forall a | a in u.assignments ensures Live(rd, u, a) {
      assert Live(rd, t, a);
    }
  }

  lemma StepKeepsSound(rd: Reader, t: Tables, e: Event, now: int)
    requires Sound(rd, t) && Slashless(t) && SlashlessEvent(e)
    ensures Sound(rd, Step(rd, t, e, now)) && Slashless(Step(rd, t, e, now))
  {
    hide Live, CreateAssignment, HasSuffix, Upsert, WithoutRole, FindRole, WithoutAssignment;
    match e {
      case Put(guid, body) => PutKeepsSound(rd, t, guid, body, now);
      case Delete(guid) => DeleteKeepsSound(rd, t, guid);
      case Assign(name, scope, body) => AssignKeepsSound(rd, t, name, scope, body, now);
      case Unassign(name) =>
        WithoutAssignmentKeeps(t.assignments, name);
        FewerKeepsSound(rd, t, DeleteAssignment(t, name));
      case Deny(d) => FewerKeepsSound(rd, t, SeedDeny(t, d).0);
      case Undeny(name) => FewerKeepsSound(rd, t, t.(denies := WithoutDeny(t.denies, name)));
    }
  }

  lemma {:induction false} RunKeepsSound(rd: Reader, t: Tables, es: seq<(Event, int)>)
    requires Sound(rd, t) && Slashless(t)
    requires forall e :: e in es ==> SlashlessEvent(e.0)
    ensures Sound(rd, Run(rd, t, es))
    decreases |es|
  {
    hide Sound, Slashless, Step, SlashlessEvent;
    if es != [] {
      assert es[0] in es;
      StepKeepsSound(rd, t, es[0].0, es[0].1);
      RunKeepsSound(rd, Step(rd, t, es[0].0, es[0].1), es[1..]);
    }
  }

  /** From an empty store, in every history whose assignments name their roles without a
      trailing '/', no assignment ever dangles and every stored condition parses. */
  lemma NothingDangles(rd: Reader, builtIns: seq<RoleDefinition>, es: seq<(Event, int)>)
    requires forall e :: e in es ==> SlashlessEvent(e.0)
    ensures Sound(rd, Run(rd, Empty(builtIns), es))
  {
    RunKeepsSound(rd, Empty(builtIns), es);
  }

  // ---- keys stay unique ----

  predicate AssignmentsApart(rows: seq<Assignment>) {
    rows == [] || ((forall a :: a in rows[1..] ==> !Clashes(rows[0], a)) && AssignmentsApart(rows[1..]))
  }

  predicate RolesApart(customs: seq<RoleDefinition>) {
    customs == []
    || ((forall d :: d in customs[1..] ==> d.guid != customs[0].guid && !EqualFold(d.roleName, customs[0].roleName))
        && RolesApart(customs[1..]))
  }

  /** No two assignments share a name or grant the same role to the same principal at the same
      scope, no two custom roles share a guid or (in any case) a name, and none has a built-in's guid. */
  predicate Unique(t: Tables) {
    && AssignmentsApart(t.assignments)
    && RolesApart(t.customs)
    && forall d :: d in t.customs ==> FindRole(t.builtIns, d.guid).None?
  }

  lemma {:induction false} AppendApart(rows: seq<Assignment>, a: Assignment)
    requires AssignmentsApart(rows) && forall b :: b in rows ==> !Clashes(b, a)
    ensures AssignmentsApart(rows + [a])
  {
    hide Clashes;
    if rows == [] {
      assert (rows + [a])[1..] == [];
    } else {
      AppendApart(rows[1..], a);
      assert (rows + [a])[1..] == rows[1..] + [a];
    }
  }

  lemma {:induction false} WithoutAssignmentApart(rows: seq<Assignment>, name: string)
    requires AssignmentsApart(rows)
    ensures AssignmentsApart(WithoutAssignment(rows, name))
  {
    hide Clashes;
    if rows != [] {
      WithoutAssignmentApart(rows[1..], name);
      WithoutAssignmentKeeps(rows[1..], name);
      var rest := WithoutAssignment(rows[1..], name);
      assert ([rows[0]] + rest)[1..] == rest;
      assert [] + rest == rest;
    }
  }

  lemma {:induction false} UpsertKeeps(customs: seq<RoleDefinition>, d: RoleDefinition)
    ensures forall c :: c in Upsert(customs, d) ==> c in customs || (c.guid == d.guid && c.roleName == d.roleName)
  {
    if customs != [] && customs[0].guid != d.guid {
      UpsertKeeps(customs[1..], d);
    }
  }

  lemma {:induction false} UpsertApart(customs: seq<RoleDefinition>, d: RoleDefinition)
    requires RolesApart(customs)
    requires forall c :: c in customs && c.guid != d.guid ==> !EqualFold(c.roleName, d.roleName)
    ensures RolesApart(Upsert(customs, d))
  {
    hide EqualFold;
    if customs == [] {
      assert [d][1..] == [];
    } else if customs[0].guid == d.guid {
      assert ([d.(createdAt := customs[0].createdAt)] + customs[1..])[1..] == customs[1..];
    } else {
      UpsertApart(customs[1..], d);
      UpsertKeeps(customs[1..], d);
      assert customs[0] in customs;
      FoldSymmetric(customs[0].roleName, d.roleName);
      assert ([customs[0]] + Upsert(customs[1..], d))[1..] == Upsert(customs[1..], d);
    }
  }

  lemma {:induction false} WithoutRoleApart(customs: seq<RoleDefinition>, guid: string)
    requires RolesApart(customs)
    ensures RolesApart(WithoutRole(customs, guid))
    ensures forall d :: d in WithoutRole(customs, guid) ==> d in customs
  {
    hide EqualFold;
    if customs != [] {
      WithoutRoleApart(customs[1..], guid);
      var rest := WithoutRole(customs[1..], guid);
      assert ([customs[0]] + rest)[1..] == rest;
      assert [] + rest == rest;
    }
  }

  lemma PutKeepsUnique(t: Tables, guid: string, body: RoleBody, now: int)
    requires Unique(t)
    ensures Unique(PutRole(t, guid, body, now).0)
  {
    hide Upsert, FindRole, RolesApart, AssignmentsApart, ValidScopeText, EqualFold;
    var d := RoleRow(t.customs, guid, body, now);
    if PutRole(t, guid, body, now).1.RoleStored? {
      forall c | c in t.customs && c.guid != d.guid ensures !EqualFold(c.roleName, d.roleName) {
        assert !NameTaken(t.customs, d);
      }
      UpsertApart(t.customs, d);
      UpsertKeeps(t.customs, d);
    }
  }

  lemma AssignKeepsUnique(rd: Reader, t: Tables, name: string, scope: string, body: AssignmentBody, now: int)
    requires Unique(t)
    ensures Unique(CreateAssignment(rd, t, name, scope, body, now).0)
  {
    hide FindRole, RolesApart, AssignmentsApart, NewAssignment, Parse, AssignableAt, ResolveRoleFromId, Clashes;
    var a := NewAssignment(name, scope, body, now);
    if CreateAssignment(rd, t, name, scope, body, now).1.AssignmentCreated? {
      AppendApart(t.assignments, a);
    }
  }

  lemma StepKeepsUnique(rd: Reader, t: Tables, e: Event, now: int)
    requires Unique(t)
    ensures Unique(Step(rd, t, e, now))
  {
    hide CreateAssignment, PutRole, WithoutRole, FindRole, WithoutAssignment, RolesApart, AssignmentsApart,
      AssignmentsForRole;
    match e {
      case Put(guid, body) => PutKeepsUnique(t, guid, body, now);
      case Delete(guid) => WithoutRoleApart(t.customs, guid);
      case Assign(name, scope, body) => AssignKeepsUnique(rd, t, name, scope, body, now);
      case Unassign(name) => WithoutAssignmentApart(t.assignments, name);
      case Deny(_) =>
      case Undeny(_) =>
    }
  }

  /** Every key stays unique over every history that starts from unique tables. */
  lemma {:induction false} KeysStayUnique(rd: Reader, t: Tables, es: seq<(Event, int)>)
    requires Unique(t)
    ensures Unique(Run(rd, t, es))
    decreases |es|
  {
    hide Unique, Step;
    if es != [] {
      StepKeepsUnique(rd, t, es[0].0, es[0].1);
      KeysStayUnique(rd, Step(rd, t, es[0].0, es[0].1), es[1..]);
    }
  }

  lemma {:induction false} UpsertReadsBack(customs: seq<RoleDefinition>, d: RoleDefinition)
    ensures var r, was := FindRole(Upsert(customs, d), d.guid), FindRole(customs, d.guid);
            r == if was.None? then Some(d)
                 else if was.value.guid == d.guid then Some(d.(createdAt := was.value.createdAt))
                 else was
  {
    if customs != [] {
      UpsertReadsBack(customs[1..], d);
      var rest := Upsert(customs[1..], d);
      assert ([customs[0]] + rest)[1..] == rest;
    }
  }

  /** An accepted PUT is what its guid then resolves to exactly when no row already stored under
      another spelling of that guid comes first: guids are keyed with their case, looked up without. */
  lemma PutReadsBackIff(t: Tables, guid: string, body: RoleBody, now: int)
    requires PutRole(t, guid, body, now).1.RoleStored?
    ensures var r, was := ResolveRole(PutRole(t, guid, body, now).0, guid), FindRole(t.customs, guid);
            && r.Some?
            && (was.None? || was.value.guid == guid <==>
                 r.value.guid == guid && r.value.roleName == body.roleName && r.value.permissions == body.permissions
                 && r.value.assignableScopes == body.assignableScopes && r.value.updatedAt == now
                 && r.value.createdAt == if was.Some? then was.value.createdAt else now)
            && (was.Some? && was.value.guid != guid ==> r == was)
  {
    hide FindRole, Upsert, NameTaken, ValidScopeText, TrimSpace;
    UpsertReadsBack(t.customs, RoleRow(t.customs, guid, body, now));
  }

  // ---- duplicates ----

  lemma StoredScope(name: string, scope: string, body: AssignmentBody, now: int)
    requires scope != "" && scope[0] == '/'
    ensures NewAssignment(name, scope, body, now).scope == CanonicalScope(scope)
  {
    assert Lower("/") == "/";
  }

  lemma ClashAppend(rows: seq<Assignment>, last: Assignment, a: Assignment)
    ensures (exists i :: 0 <= i < |rows + [last]| && Clashes((rows + [last])[i], a)) <==>
            (exists i :: 0 <= i < |rows| && Clashes(rows[i], a)) || Clashes(last, a)
  {
    hide Clashes;
    var all := rows + [last];
    assert all[|rows|] == last;
    if i :| 0 <= i < |rows| && Clashes(rows[i], a) {
      assert Clashes(all[i], a);
    }
  }

  /** Of two grants either of which the store would take, the second is refused as a duplicate
      exactly when its scope is the first one's however spelled, and its role id and principal are
      the first one's letter for letter: another spelling of the same role is a second grant. */
  lemma DuplicateIff(rd: Reader, t: Tables, m: string, n: string, s: string, s': string,
                     body: AssignmentBody, body': AssignmentBody, now: int, later: int)
    requires m != n && s != "" && s[0] == '/' && s' != "" && s'[0] == '/'
    requires CreateAssignment(rd, t, m, s, body, now).1.AssignmentCreated?
    requires CreateAssignment(rd, t, n, s', body', later).1.AssignmentCreated?
    ensures var (u, _) := CreateAssignment(rd, t, m, s, body, now);
            var answer := CreateAssignment(rd, u, n, s', body', later).1;
            if CanonicalScope(s) == CanonicalScope(s') && body.roleId == body'.roleId
                && body.principalId == body'.principalId
            then answer.AssignmentExists? else answer.AssignmentCreated?
  {
    hide Parse, FindRole, RoleGuidOf, AssignableAt, Lower, TrimSuffix, CanonicalScope;
    var a, b := NewAssignment(m, s, body, now), NewAssignment(n, s', body', later);
    StoredScope(m, s, body, now);
    StoredScope(n, s', body', later);
    ClashAppend(t.assignments, a, b);
  }

  // ---- what one request changes ----

  lemma {:induction false} NobodyNamed(rows: seq<Assignment>, a: Assignment)
    requires forall i :: 0 <= i < |rows| ==> rows[i].name != a.name
    ensures WithoutAssignment(rows + [a], a.name) == rows
  {
    if rows == [] {
      assert ([] + [a])[1..] == [];
    } else {
      assert (rows + [a])[1..] == rows[1..] + [a];
      NobodyNamed(rows[1..], a);
    }
  }

  /** Deleting an assignment by name undoes its creation. */
  lemma UnassignUndoesAssign(rd: Reader, t: Tables, name: string, scope: string, body: AssignmentBody, now: int)
    ensures var (u, answer) := CreateAssignment(rd, t, name, scope, body, now);
            answer.AssignmentCreated? ==> DeleteAssignment(u, name) == t
  {
    hide Parse, ResolveRoleFromId, AssignableAt, Lower, TrimSuffix;
    if CreateAssignment(rd, t, name, scope, body, now).1.AssignmentCreated? {
      NobodyNamed(t.assignments, NewAssignment(name, scope, body, now));
    }
  }

  lemma {:induction false} WithoutFresh(customs: seq<RoleDefinition>, d: RoleDefinition)
    requires FindRole(customs, d.guid).None?
    ensures WithoutRole(Upsert(customs, d), d.guid) == customs
  {
    if customs == [] {
      assert [d][1..] == [];
    } else {
      assert customs[0].guid != d.guid;
      WithoutFresh(customs[1..], d);
      assert ([customs[0]] + Upsert(customs[1..], d))[1..] == Upsert(customs[1..], d);
    }
  }

  /** Deleting a definition undoes its creation exactly when no assignment counts against it. */
  lemma DeleteUndoesPutIff(t: Tables, guid: string, body: RoleBody, now: int)
    requires PutRole(t, guid, body, now).1 == RoleStored(false)
    ensures var (u, answer) := DeleteRole(PutRole(t, guid, body, now).0, guid);
            && (answer.RoleDeleted? <==> forall a :: a in t.assignments ==> !RefersTo(a, guid))
            && (answer.RoleDeleted? ==> u == t)
  {
    hide FindRole, Upsert, NameTaken, ValidScopeText, TrimSpace, WithoutRole, AssignmentsForRole, RefersTo;
    var d := RoleRow(t.customs, guid, body, now);
    WithoutFresh(t.customs, d);
    UpsertReadsBack(t.customs, d);
    CountZero(t.assignments, guid);
  }

  lemma AssignedEntry(rd: Reader, t: Tables, ds: seq<DenyAssignment>, a: Assignment, req: Request)
    requires Live(rd, t, a)
    ensures var e := EntryFor(rd, t, ds, a);
            e.Some? && (Qualifies(rd, e.value, req) <==>
              HoldsPrincipal(req.principalIds, a.principalId)
              && FlatGrants(ResolveRoleFromId(t, a.roleId).value.permissions, req.context.action)
              && ConditionHolds(rd, a.condition, req.context))
  {
    hide ResolveRoleFromId, Parse, DataActionsOf, NotDataActionsOf, DeniedTo, AnyGlob, HoldsPrincipal, ConditionHolds;
  }

  /** A new assignment changes a decision exactly for the callers it names, at and below its scope,
      for what its role grants, while its condition holds and no deny does. */
  lemma AssignmentEffectIff(rd: Reader, t: Tables, name: string, scope: string, body: AssignmentBody, now: int,
                            req: Request)
    requires CreateAssignment(rd, t, name, scope, body, now).1.AssignmentCreated?
    ensures Allowed(rd, CreateAssignment(rd, t, name, scope, body, now).0, req) <==>
            || Allowed(rd, t, req)
            || (&& !Denied(t, req)
                && ScopeApplies(NewAssignment(name, scope, body, now).scopeDisplay, req.scope)
                && HoldsPrincipal(req.principalIds, body.principalId)
                && FlatGrants(ResolveRoleFromId(t, body.roleId).value.permissions, req.context.action)
                && ConditionHolds(rd, body.condition, req.context))
  {
    hide Parse, FindRole, RoleGuidOf, AssignableAt, Lower, TrimSuffix, Entries, EntryFor, Denied, AnyQualifies,
      ScopeApplies, HoldsPrincipal, FlatGrants, ConditionHolds, Clashes, Qualifies, DeniesAt;
    var u, a := CreateAssignment(rd, t, name, scope, body, now).0, NewAssignment(name, scope, body, now);
    DeniedIgnoresAssignments(t, u, req);
    EntriesIgnoreDenies(rd, t, u, req.scope, t.assignments);
    EntriesConcat(rd, u, req.scope, t.assignments, [a]);
    AnyQualifiesConcat(rd, Entries(rd, u, req.scope, t.assignments), Entries(rd, u, req.scope, [a]), req);
    OneEntry(rd, u, req.scope, a);
    AssignedEntry(rd, u, DeniesAt(u.denies, req.scope), a, req);
    NothingQualifies(rd, req);
    OneQualifies(rd, EntryFor(rd, u, DeniesAt(u.denies, req.scope), a).value, req);
  }

  lemma OneQualifies(rd: Reader, e: EffectiveAssignment, req: Request)
    ensures AnyQualifies(rd, [e], req) <==> Qualifies(rd, e, req)
  {
    hide Qualifies;
    assert [e][0] == e;
  }

  // ---- so the feed drops nothing ----

  /** The stored rows whose scope covers the target, in order. */
  function Covering(rows: seq<Assignment>, scope: string): seq<Assignment> {
    if rows == [] then []
    else (if ScopeApplies(rows[0].scopeDisplay, scope) then [rows[0]] else []) + Covering(rows[1..], scope)
  }

  lemma LiveHasEntry(rd: Reader, t: Tables, denies: seq<DenyAssignment>, a: Assignment)
    requires Live(rd, t, a)
    ensures EntryFor(rd, t, denies, a).Some?
  {
    hide ResolveRoleFromId, Parse, DataActionsOf, NotDataActionsOf, DeniedTo;
  }

  lemma {:induction false} EntriesAreCovering(rd: Reader, t: Tables, scope: string, rows: seq<Assignment>)
    requires forall a :: a in rows ==> Live(rd, t, a)
    ensures var es, cs := Entries(rd, t, scope, rows), Covering(rows, scope);
            |es| == |cs| && forall i :: 0 <= i < |cs| ==>
                EntryFor(rd, t, DeniesAt(t.denies, scope), cs[i]) == Some(es[i])
  {
    hide Live, EntryFor, DeniesAt, ScopeApplies;
    if rows != [] {
      LiveHasEntry(rd, t, DeniesAt(t.denies, scope), rows[0]);
      EntriesAreCovering(rd, t, scope, rows[1..]);
    }
  }

  /** In every reachable state the feed is exactly the stored assignments covering the scope, one
      entry each, in order. */
  lemma FeedIsComplete(rd: Reader, builtIns: seq<RoleDefinition>, es: seq<(Event, int)>, scope: string)
    requires forall e :: e in es ==> SlashlessEvent(e.0)
    ensures var t := Run(rd, Empty(builtIns), es);
            var feed, cs := Effective(rd, t, scope), Covering(t.assignments, scope);
            |feed| == |cs| && forall i :: 0 <= i < |cs| ==>
              Describes(rd, t, cs[i], feed[i])
              && feed[i].denied == DeniedTo(DeniesAt(t.denies, scope), cs[i].principalId)
  {
    var t := Run(rd, Empty(builtIns), es);
    NothingDangles(rd, builtIns, es);
    EntriesAreCovering(rd, t, scope, t.assignments);
    hide Run, Covering, Describes, DeniesAt, DeniedTo, Entries, EntryFor;
    var feed, cs := Effective(rd, t, scope), Covering(t.assignments, scope);
    forall i | 0 <= i < |cs|
      ensures Describes(rd, t, cs[i], feed[i])
              && feed[i].denied == DeniedTo(DeniesAt(t.denies, scope), cs[i].principalId)
    {
      EntryDescribes(rd, t, DeniesAt(t.denies, scope), cs[i]);
    }
  }

  /** The entry is the assignment's own, with its role's name and permissions, and lists the
      attributes its condition reads. */
  ghost predicate Describes(rd: Reader, t: Tables, a: Assignment, e: EffectiveAssignment) {
    var def := ResolveRoleFromId(t, a.roleId);
    && def.Some? && e.roleName == def.value.roleName && e.roleId == a.roleId
    && e.principalId == a.principalId && e.principalType == a.principalType && e.scope == a.scopeDisplay
    && e.condition == a.condition && e.conditionVersion == a.conditionVersion
    && (forall x :: x in e.dataActions <==> exists p :: p in def.value.permissions && x in p.dataActions)
    && (forall x :: x in e.notDataActions <==> exists p :: p in def.value.permissions && x in p.notDataActions)
    && (if a.condition == "" then e.conditionAttributes == []
        else Parse(rd, a.condition).Ok? &&
             forall x :: x in e.conditionAttributes <==> x in RefTexts(Parse(rd, a.condition).value))
  }

  lemma {:induction false} FlattenedActions(ps: seq<Permission>)
    ensures forall x :: x in DataActionsOf(ps) <==> exists p :: p in ps && x in p.dataActions
    ensures forall x :: x in NotDataActionsOf(ps) <==> exists p :: p in ps && x in p.notDataActions
  {
    if ps != [] {
      FlattenedActions(ps[1..]);
      assert ps == [ps[0]] + ps[1..];
    }
  }

  lemma EntryDescribes(rd: Reader, t: Tables, ds: seq<DenyAssignment>, a: Assignment)
    ensures var e := EntryFor(rd, t, ds, a);
            e.Some? ==> Describes(rd, t, a, e.value) && e.value.denied == DeniedTo(ds, a.principalId)
  {
    hide Parse, DataActionsOf, NotDataActionsOf, DeniedTo, RefTexts, Fresh, ResolveRoleFromId;
    if ResolveRoleFromId(t, a.roleId).Some? {
      FlattenedActions(ResolveRoleFromId(t, a.roleId).value.permissions);
    }
    if a.condition != "" && Parse(rd, a.condition).Ok? {
      FreshDistinct({}, RefTexts(Parse(rd, a.condition).value));
    }
  }

  /** What an entry lists is all its condition reads: contexts that agree there, and on the action
      and suboperation, give the condition one verdict. */
  lemma EntryListsItsReads(rd: Reader, t: Tables, ds: seq<DenyAssignment>, a: Assignment, c: Context, d: Context)
    requires EntryFor(rd, t, ds, a).Some?
    requires c.action == d.action && c.subOperation == d.subOperation
    requires forall x :: x in EntryFor(rd, t, ds, a).value.conditionAttributes ==> AgreeOn(c, d, x)
    ensures ConditionHolds(rd, EntryFor(rd, t, ds, a).value.condition, c) ==
            ConditionHolds(rd, EntryFor(rd, t, ds, a).value.condition, d)
  {
    hide Parse, DataActionsOf, NotDataActionsOf, DeniedTo, RefTexts, ResolveRoleFromId, AgreeOn, Sane, AttributesOf;
    if a.condition != "" {
      var root := Parse(rd, a.condition).value;
      ParsedIsSane(rd, a.condition, root);
      SaneIsEvaluable(rd, root);
      AttributesSuffice(rd, root, c, d);
    }
  }

  // ---- where the guard falls short ----

  /** Deleting a role leaves an assignment dangling exactly when some stored id that resolves to
      it ends in '/', the one spelling the guard does not count. */
  lemma DeleteDanglesIff(rd: Reader, t: Tables, guid: string)
    requires Sound(rd, t) && DeleteRole(t, guid).1.RoleDeleted?
    ensures !Sound(rd, DeleteRole(t, guid).0) <==>
            exists a :: a in t.assignments && HasSuffix(a.roleId, "/") && EqualFold(RoleGuidOf(a.roleId), guid)
  {
    hide RoleGuidOf, Parse, RefersTo, EqualFold, HasSuffix, FindRole, WithoutRole, AssignmentsForRole;
    var u := DeleteRole(t, guid).0;
    CountZero(t.assignments, guid);
    forall a | a in t.assignments
      ensures Live(rd, u, a) <==> !(HasSuffix(a.roleId, "/") && EqualFold(RoleGuidOf(a.roleId), guid))
    {
      assert Live(rd, t, a) && !RefersTo(a, guid);
      FoldSymmetric(RoleGuidOf(a.roleId), guid);
      WithoutRoleFinds(t.customs, guid, RoleGuidOf(a.roleId));
      if EqualFold(RoleGuidOf(a.roleId), guid) {
        SlashlessWhenCounted(a, guid);
        BuiltInsIgnoreCase(t.builtIns, guid, RoleGuidOf(a.roleId));
      }
    }
  }

  lemma SlashlessWhenCounted(a: Assignment, guid: string)
    requires EqualFold(RoleGuidOf(a.roleId), guid) && !RefersTo(a, guid)
    ensures HasSuffix(a.roleId, "/")
  {
    if !HasSuffix(a.roleId, "/") {
      SlashlessIsCounted(a, guid);
    }
  }

  lemma {:induction false} BuiltInsIgnoreCase(roles: seq<RoleDefinition>, g: string, h: string)
    requires EqualFold(h, g)
    ensures FindRole(roles, g) == FindRole(roles, h)
  {
    if roles != [] {
      BuiltInsIgnoreCase(roles[1..], g, h);
    }
  }
}
