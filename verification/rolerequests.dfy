/** What each role request answers and stores, case by case. */
module RoleRequests {
  import opened Text
  import opened Scopes
  import opened Conditions
  import opened ConditionText
  import opened Parser
  import opened Directory
  import opened RoleTables
  import opened RoleLaws
  import opened DenyLaws

  // ---- role definitions ----

  predicate HasRole(roles: seq<RoleDefinition>, guid: string) {
    exists d :: d in roles && EqualFold(d.guid, guid)
  }

  lemma FoundIff(roles: seq<RoleDefinition>, guid: string)
    ensures FindRole(roles, guid).Some? <==> HasRole(roles, guid)
  {
    hide EqualFold;
    if d :| d in roles && EqualFold(d.guid, guid) {
      var i :| 0 <= i < |roles| && roles[i] == d;
    }
  }

  /** A guid resolves when some role has it, to a built-in whenever one does. */
  lemma BuiltInsAreNotShadowed(t: Tables, guid: string)
    ensures ResolveRole(t, guid).Some? <==> HasRole(t.builtIns, guid) || HasRole(t.customs, guid)
    ensures HasRole(t.builtIns, guid) ==> ResolveRole(t, guid).value in t.builtIns
  {
    hide FindRole, HasRole;
    FoundIff(t.builtIns, guid);
    FoundIff(t.customs, guid);
  }

  lemma ScopeTextIff(s: string)
    ensures ValidScopeText(s) <==> s != "" && s[0] == '/'
  {
    BlankIff(s);
    assert s != "" && White(s) ==> s[0] != '/';
    assert White("");
    hide TrimSpace;
  }

  /** A body that says everything a custom role must say. */
  predicate WholeBody(body: RoleBody) {
    && !White(body.roleName) && body.permissions != [] && body.assignableScopes != []
    && forall s :: s in body.assignableScopes ==> s != "" && s[0] == '/'
  }

  predicate NameHeld(customs: seq<RoleDefinition>, guid: string, name: string) {
    exists d :: d in customs && d.guid != guid && EqualFold(d.roleName, name)
  }

  lemma TakenIff(customs: seq<RoleDefinition>, d: RoleDefinition)
    ensures NameTaken(customs, d) <==> NameHeld(customs, d.guid, d.roleName)
  {
    hide EqualFold;
  }

  /** A PUT is stored exactly when the guid is no built-in's, the body is whole, and no row of
      another guid has the name; each refusal says the first of these that fails, and changes
      nothing. */
  lemma PutAnswers(t: Tables, guid: string, body: RoleBody, now: int)
    ensures var (u, answer), builtIn := PutRole(t, guid, body, now), HasRole(t.builtIns, guid);
            && (answer.BuiltInImmutable? <==> builtIn)
            && (answer.MissingRoleName? <==> !builtIn && White(body.roleName))
            && (answer.MissingPermissions? <==> !builtIn && !White(body.roleName) && body.permissions == [])
            && (answer.MissingAssignableScopes? <==>
                  !builtIn && !White(body.roleName) && body.permissions != [] && body.assignableScopes == [])
            && (answer.SameNameExists? <==>
                  !builtIn && WholeBody(body) && NameHeld(t.customs, guid, body.roleName))
            && (answer.RoleStored? <==>
                  !builtIn && WholeBody(body) && !NameHeld(t.customs, guid, body.roleName))
            && (answer.RoleStored? ==> (answer.existed <==> HasRole(t.customs, guid)))
            && (!answer.RoleStored? ==> u == t)
  {
    hide FindRole, HasRole, EqualFold, NameTaken, NameHeld, ValidScopeText, White, TrimSpace, Upsert;
    FoundIff(t.builtIns, guid);
    FoundIff(t.customs, guid);
    BlankIff(body.roleName);
    forall s ensures ValidScopeText(s) <==> s != "" && s[0] == '/' {
      ScopeTextIff(s);
    }
    TakenIff(t.customs, RoleRow(t.customs, guid, body, now));
  }

  lemma {:induction false} UpsertAt(customs: seq<RoleDefinition>, d: RoleDefinition, i: nat)
    requires i <= |customs| && forall j :: 0 <= j < i ==> customs[j].guid != d.guid
    ensures i < |customs| && customs[i].guid == d.guid ==>
              Upsert(customs, d) == customs[i := d.(createdAt := customs[i].createdAt)]
    ensures i == |customs| ==> Upsert(customs, d) == customs + [d]
  {
    if i > 0 {
      UpsertAt(customs[1..], d, i - 1);
    }
  }

  /** A stored PUT writes the row of its exact guid where it stands, keeping its creation time, or
      else adds a row, created when the guid was first stored in any case; no other row moves. */
  lemma PutStores(t: Tables, guid: string, body: RoleBody, now: int, i: nat)
    requires PutRole(t, guid, body, now).1.RoleStored?
    requires i <= |t.customs| && forall j :: 0 <= j < i ==> t.customs[j].guid != guid
    requires i < |t.customs| ==> t.customs[i].guid == guid
    ensures var was := FindRole(t.customs, guid);
            var created := if i < |t.customs| then t.customs[i].createdAt
                           else if was.Some? then was.value.createdAt else now;
            var row := RoleDefinition(guid, body.roleName, body.permissions, true, body.assignableScopes, created, now);
            PutRole(t, guid, body, now).0 ==
            t.(customs := if i < |t.customs| then t.customs[i := row] else t.customs + [row])
  {
    hide FindRole, EqualFold, NameTaken, ValidScopeText, TrimSpace, Upsert;
    UpsertAt(t.customs, RoleRow(t.customs, guid, body, now), i);
  }

  lemma {:induction false} WithoutRoleConcat(xs: seq<RoleDefinition>, ys: seq<RoleDefinition>, guid: string)
    ensures WithoutRole(xs + ys, guid) == WithoutRole(xs, guid) + WithoutRole(ys, guid)
  {
    hide EqualFold;
    if xs == [] {
      assert xs + ys == ys;
    } else {
      assert (xs + ys)[1..] == xs[1..] + ys;
      WithoutRoleConcat(xs[1..], ys, guid);
    }
  }

  lemma {:induction false} WithoutRoleRows(customs: seq<RoleDefinition>, guid: string)
    ensures forall d :: d in WithoutRole(customs, guid) <==> d in customs && !EqualFold(d.guid, guid)
  {
    hide EqualFold;
    if customs != [] {
      WithoutRoleRows(customs[1..], guid);
    }
  }

  /** What a deletion keeps stays in order. */
  lemma DeleteInOrder(before: seq<RoleDefinition>, d: RoleDefinition, after: seq<RoleDefinition>, guid: string)
    ensures WithoutRole(before + [d] + after, guid) ==
            WithoutRole(before, guid) + (if EqualFold(d.guid, guid) then [] else [d]) + WithoutRole(after, guid)
  {
    assert WithoutRole([d], guid) == if EqualFold(d.guid, guid) then [] else [d] by {
      assert [d][1..] == [];
    }
    hide EqualFold;
    WithoutRoleConcat(before + [d], after, guid);
    WithoutRoleConcat(before, [d], guid);
  }

  /** A deletion is answered by the first of: the guid is a built-in's, no custom role has it, some
      stored assignment counts against it; else every row of that guid in any case goes, and no
      other table or row changes. */
  lemma DeleteAnswers(t: Tables, guid: string)
    ensures var (u, answer) := DeleteRole(t, guid);
            var builtIn, custom := HasRole(t.builtIns, guid), HasRole(t.customs, guid);
            && (answer.DeleteNotPermitted? <==> builtIn)
            && (answer.NoSuchRole? <==> !builtIn && !custom)
            && (answer.RoleDeleted? <==>
                  !builtIn && custom && forall a :: a in t.assignments ==> !RefersTo(a, guid))
            && (!answer.RoleDeleted? ==> u == t)
            && (answer.RoleDeleted? ==>
                  && u == t.(customs := u.customs)
                  && forall d :: d in u.customs <==> d in t.customs && !EqualFold(d.guid, guid))
  {
    hide FindRole, HasRole, RefersTo, WithoutRole, AssignmentsForRole, EqualFold;
    FoundIff(t.builtIns, guid);
    FoundIff(t.customs, guid);
    CountZero(t.assignments, guid);
    WithoutRoleRows(t.customs, guid);
  }

  // ---- role assignments ----

  /** Built-ins are assignable anywhere, custom roles where the chain holds a scope they declare. */
  predicate Assignable(def: RoleDefinition, scope: string) {
    def.custom ==> exists s :: s in def.assignableScopes && CanonicalScope(s) in ChainOf(scope)
  }

  lemma AssignableIff(def: RoleDefinition, scope: string)
    ensures AssignableAt(def, scope) <==> Assignable(def, scope)
  {
    hide CanonicalScope, ChainOf, ScopeApplies;
    ChainIsApplicability(scope);
    if s :| s in def.assignableScopes && CanonicalScope(s) in ChainOf(scope) {
      var i :| 0 <= i < |def.assignableScopes| && def.assignableScopes[i] == s;
      assert ScopeApplies(def.assignableScopes[i], scope);
    }
  }

  /** The row a created assignment becomes. */
  function GrantRow(name: string, scope: string, body: AssignmentBody, now: int): Assignment {
    var shown := if scope == "" then "/" else StoredScopeText(scope);
    Assignment(name, Lower(shown), shown, body.roleId, body.principalId,
               if body.principalType != "" then body.principalType else "User", body.condition,
               if body.condition != "" then "2.0" else "", now)
  }

  /** The condition and its version go together: none without the other, and only version 2.0. */
  predicate WellConditioned(rd: Reader, body: AssignmentBody) {
    if body.condition == "" then body.conditionVersion == ""
    else body.conditionVersion in {"", "2.0"} && Parse(rd, body.condition).Ok?
  }

  predicate Grantable(t: Tables, scope: string, body: AssignmentBody) {
    && body.roleId != "" && body.principalId != ""
    && ResolveRoleFromId(t, body.roleId).Some? && Assignable(ResolveRoleFromId(t, body.roleId).value, scope)
  }

  predicate GrantTaken(t: Tables, row: Assignment) {
    exists a :: && a in t.assignments
                && (a.name == row.name
                    || (a.scope == row.scope && a.roleId == row.roleId && a.principalId == row.principalId))
  }

  lemma ClashIff(rows: seq<Assignment>, row: Assignment)
    ensures (exists i :: 0 <= i < |rows| && Clashes(rows[i], row)) <==> exists a :: a in rows && Clashes(a, row)
  {
    hide Clashes;
    if a :| a in rows && Clashes(a, row) {
      var i :| 0 <= i < |rows| && rows[i] == a;
    }
  }

  lemma NewAssignmentIsRow(name: string, scope: string, body: AssignmentBody, now: int)
    requires body.condition == "" ==> body.conditionVersion == ""
    requires body.condition != "" ==> body.conditionVersion in {"", "2.0"}
    ensures NewAssignment(name, scope, body, now) == GrantRow(name, scope, body, now)
  {
    hide TrimSuffix, StoredScopeText, Lower;
    if scope != "" {
      TrimmedForStoring(scope);
    } else {
      assert TrimSuffix("", "/") == "" by { NothingTrimmed(); }
    }
  }

  lemma NothingTrimmed()
    ensures TrimSuffix("", "/") == ""
  {}

  /** A creation is stored, as the row said above and after all others, exactly when it grants a
      role that resolves at a scope it may be assigned at, its condition is in order, and neither
      its name nor its grant is taken; each refusal says which of these fails first. */
  lemma AssignAnswers(rd: Reader, t: Tables, name: string, scope: string, body: AssignmentBody, now: int)
    ensures var (u, answer), row := CreateAssignment(rd, t, name, scope, body, now), GrantRow(name, scope, body, now);
            && (answer.MissingProperties? <==> body.roleId == "" || body.principalId == "")
            && (answer.RoleDoesNotExist? <==>
                  body.roleId != "" && body.principalId != "" && ResolveRoleFromId(t, body.roleId).None?)
            && (answer.ScopeNotAssignable? <==>
                  && body.roleId != "" && body.principalId != "" && ResolveRoleFromId(t, body.roleId).Some?
                  && !Assignable(ResolveRoleFromId(t, body.roleId).value, scope))
            && (answer.InvalidConditionVersion? <==>
                  Grantable(t, scope, body) && body.condition != "" && body.conditionVersion !in {"", "2.0"})
            && (answer.InvalidCondition? <==>
                  && Grantable(t, scope, body) && body.condition != "" && body.conditionVersion in {"", "2.0"}
                  && Parse(rd, body.condition).Err?)
            && (answer.VersionWithoutCondition? <==>
                  Grantable(t, scope, body) && body.condition == "" && body.conditionVersion != "")
            && (answer.AssignmentExists? <==>
                  Grantable(t, scope, body) && WellConditioned(rd, body) && GrantTaken(t, row))
            && (answer.AssignmentCreated? <==>
                  Grantable(t, scope, body) && WellConditioned(rd, body) && !GrantTaken(t, row))
            && u == if answer.AssignmentCreated? then t.(assignments := t.assignments + [row]) else t
  {
    hide ResolveRoleFromId, Parse, AssignableAt, Assignable, Lower, TrimSuffix, StoredScopeText;
    if ResolveRoleFromId(t, body.roleId).Some? {
      AssignableIff(ResolveRoleFromId(t, body.roleId).value, scope);
    }
    ClashIff(t.assignments, NewAssignment(name, scope, body, now));
    if WellConditioned(rd, body) {
      NewAssignmentIsRow(name, scope, body, now);
    }
    hide NewAssignment, GrantRow;
  }
}
