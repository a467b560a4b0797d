/** The authorization tables and how their rows are read: role lookup, who a deny names and
    where it reaches (internal/arm/roles.go, customroles.go, denyassignments.go). */
module Directory {
  import opened Text
  import opened ActionPatterns
  import opened Scopes

  datatype Permission = Permission(
    actions: seq<string>, notActions: seq<string>, dataActions: seq<string>, notDataActions: seq<string>)

  datatype RoleDefinition = RoleDefinition(
    guid: string, roleName: string, permissions: seq<Permission>, custom: bool,
    assignableScopes: seq<string>, createdAt: int, updatedAt: int)

  datatype Assignment = Assignment(
    name: string, scope: string, scopeDisplay: string, roleId: string, principalId: string,
    principalType: string, condition: string, conditionVersion: string, createdAt: int)

  datatype DenyAssignment = DenyAssignment(
    name: string, scope: string, permissions: seq<Permission>, principals: seq<string>,
    excludePrincipals: seq<string>, doNotApplyToChildScopes: bool)

  /** Rows in the order they were first stored, which is the order lookups scan them in; the built-in
      catalogue never changes. */
  datatype Tables = Tables(
    builtIns: seq<RoleDefinition>, customs: seq<RoleDefinition>,
    assignments: seq<Assignment>, denies: seq<DenyAssignment>)

  const ALL_PRINCIPALS := "00000000-0000-0000-0000-000000000000"

  // ---- roles ----

  /** The first definition with that guid, whatever its case. */
  function FindRole(roles: seq<RoleDefinition>, guid: string): (r: Option<RoleDefinition>)
    ensures r.Some? ==> r.value in roles && EqualFold(r.value.guid, guid)
    ensures r.None? ==> forall i :: 0 <= i < |roles| ==> !EqualFold(roles[i].guid, guid)
  {
    if roles == [] then None
    else if EqualFold(roles[0].guid, guid) then Some(roles[0])
    else FindRole(roles[1..], guid)
  }

  lemma {:induction false} FindRoleIsFirst(roles: seq<RoleDefinition>, guid: string)
    ensures FindRole(roles, guid).Some? ==>
              exists i :: 0 <= i < |roles| && FindRole(roles, guid).value == roles[i] && EqualFold(roles[i].guid, guid)
                          && forall j :: 0 <= j < i ==> !EqualFold(roles[j].guid, guid)
  {
    hide EqualFold;
    if roles != [] && !EqualFold(roles[0].guid, guid) {
      FindRoleIsFirst(roles[1..], guid);
      if FindRole(roles[1..], guid).Some? {
        var i :| 0 <= i < |roles[1..]| && FindRole(roles[1..], guid).value == roles[1..][i]
                 && EqualFold(roles[1..][i].guid, guid)
                 && forall j :: 0 <= j < i ==> !EqualFold(roles[1..][j].guid, guid);
        assert roles[i + 1] == roles[1..][i];
        assert forall j :: 1 <= j < i + 1 ==> roles[j] == roles[1..][j - 1];
      }
    }
  }

  /** Built-ins first, so that they are never shadowed. */
  function ResolveRole(t: Tables, guid: string): Option<RoleDefinition> {
    var b := FindRole(t.builtIns, guid);
    if b.Some? then b else FindRole(t.customs, guid)
  }

  /** The last segment of a role definition id, one trailing '/' ignored. */
  function RoleGuidOf(id: string): string {
    var trimmed := TrimSuffix(id, "/");
    match LastIndexByte(trimmed, '/')
    case None => trimmed
    case Some(i) => trimmed[i + 1..]
  }

  function ResolveRoleFromId(t: Tables, id: string): Option<RoleDefinition> {
    ResolveRole(t, RoleGuidOf(id))
  }

  /** Built-ins may be assigned anywhere, custom roles at or below a scope they declare. */
  predicate AssignableAt(def: RoleDefinition, scope: string) {
    !def.custom || exists i :: 0 <= i < |def.assignableScopes| && ScopeApplies(def.assignableScopes[i], scope)
  }

  // ---- principals ----

  /** One of the caller's ids is the principal; empty ids name nobody. */
  predicate HoldsPrincipal(held: seq<string>, principal: string) {
    exists i :: 0 <= i < |held| && held[i] != "" && EqualFold(held[i], principal)
  }

  predicate ContainsPrincipal(list: seq<string>, ids: seq<string>) {
    exists i :: 0 <= i < |list| && HoldsPrincipal(ids, list[i])
  }

  // ---- denies ----

  /** Listed, or everyone is, and not excluded: an exclusion wins. */
  predicate AppliesToPrincipal(d: DenyAssignment, ids: seq<string>) {
    !ContainsPrincipal(d.excludePrincipals, ids) &&
    (ALL_PRINCIPALS in d.principals || ContainsPrincipal(d.principals, ids))
  }

  predicate AppliesAt(d: DenyAssignment, target: string) {
    if d.doNotApplyToChildScopes then CanonicalScope(d.scope) == CanonicalScope(target)
    else ScopeApplies(d.scope, target)
  }

  /** One permission set denies the action: matched, and not carved back out. */
  predicate PermissionDenies(p: Permission, action: string, data: bool) {
    if data then AnyCovers(p.dataActions, action) && !AnyCovers(p.notDataActions, action)
    else AnyCovers(p.actions, action) && !AnyCovers(p.notActions, action)
  }

  predicate AnyPermissionDenies(ps: seq<Permission>, action: string, data: bool) {
    exists i :: 0 <= i < |ps| && PermissionDenies(ps[i], action, data)
  }

  predicate DeniesAction(d: DenyAssignment, ids: seq<string>, action: string, data: bool) {
    AppliesToPrincipal(d, ids) && AnyPermissionDenies(d.permissions, action, data)
  }

  /** The denies reaching a scope, in listing order. */
  function DeniesAt(denies: seq<DenyAssignment>, scope: string): (r: seq<DenyAssignment>)
    ensures forall d :: d in r <==> d in denies && AppliesAt(d, scope)
  {
    if denies == [] then []
    else
      var rest := DeniesAt(denies[1..], scope);
      if AppliesAt(denies[0], scope) then [denies[0]] + rest else rest
  }

  /** Listing order is kept: what reaches a scope is read off the rows from left to right. */
  lemma {:induction false} DeniesInOrder(before: seq<DenyAssignment>, d: DenyAssignment, after: seq<DenyAssignment>,
                                         scope: string)
    ensures DeniesAt(before + [d] + after, scope) ==
            DeniesAt(before, scope) + (if AppliesAt(d, scope) then [d] else []) + DeniesAt(after, scope)
  {
    hide AppliesAt;
    var all := before + [d] + after;
    if before == [] {
      assert all[1..] == after;
    } else {
      var rest := before[1..] + [d] + after;
      assert all == [before[0]] + rest;
      DeniesInOrder(before[1..], d, after, scope);
    }
  }
}
