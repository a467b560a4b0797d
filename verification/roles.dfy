/** Role definitions and role assignments as tables that handlers change: the handlers of
    internal/arm/customroles.go and authorization.go over internal/store/roledefinitions.go and
    resources.go. Each handler is one atomic step. */
module RoleTables {
  import opened Text
  import opened Wildcard
  import opened Scopes
  import opened Conditions
  import opened Parser
  import opened Directory

  // ---- role definitions ----

  datatype RoleBody = RoleBody(roleName: string, permissions: seq<Permission>, assignableScopes: seq<string>)

  datatype PutOutcome =
    | BuiltInImmutable | MissingRoleName | MissingPermissions | MissingAssignableScopes
    | InvalidAssignableScope | SameNameExists | RoleStored(existed: bool)

  predicate ValidScopeText(s: string) {
    TrimSpace(s) != "" && s[0] == '/'
  }

  /** The row a caller's role becomes; an update keeps the creation time of the row the guid
      finds in any case. */
  function RoleRow(customs: seq<RoleDefinition>, guid: string, body: RoleBody, now: int): RoleDefinition {
    var existing := FindRole(customs, guid);
    RoleDefinition(guid, body.roleName, body.permissions, true, body.assignableScopes,
                   if existing.Some? then existing.value.createdAt else now, now)
  }

  /** The unique index on role names, which ignores case. */
  predicate NameTaken(customs: seq<RoleDefinition>, d: RoleDefinition) {
    exists i :: 0 <= i < |customs| && customs[i].guid != d.guid && EqualFold(customs[i].roleName, d.roleName)
  }

  /** The upsert: the primary key tells guids apart by case, unlike every lookup. */
  function Upsert(customs: seq<RoleDefinition>, d: RoleDefinition): (r: seq<RoleDefinition>)
    ensures |r| >= 1
  {
    if customs == [] then [d]
    else if customs[0].guid == d.guid then [d.(createdAt := customs[0].createdAt)] + customs[1..]
    else [customs[0]] + Upsert(customs[1..], d)
  }

  function PutRole(t: Tables, guid: string, body: RoleBody, now: int): (Tables, PutOutcome) {
    if FindRole(t.builtIns, guid).Some? then (t, BuiltInImmutable)
    else if TrimSpace(body.roleName) == "" then (t, MissingRoleName)
    else if body.permissions == [] then (t, MissingPermissions)
    else if body.assignableScopes == [] then (t, MissingAssignableScopes)
    else if exists i :: 0 <= i < |body.assignableScopes| && !ValidScopeText(body.assignableScopes[i]) then
      (t, InvalidAssignableScope)
    else
      var d := RoleRow(t.customs, guid, body, now);
      if NameTaken(t.customs, d) then (t, SameNameExists)
      else (t.(customs := Upsert(t.customs, d)), RoleStored(FindRole(t.customs, guid).Some?))
  }

  /** `role_definition_id LIKE '%' || guid`: a suffix test in which the guid's own '%' and '_'
      are wildcards. */
  predicate RefersTo(a: Assignment, guid: string) {
    Matches(LIKE, ['%'] + Lower(guid), Lower(a.roleId))
  }

  function AssignmentsForRole(rows: seq<Assignment>, guid: string): nat {
    if rows == [] then 0 else (if RefersTo(rows[0], guid) then 1 else 0) + AssignmentsForRole(rows[1..], guid)
  }

  datatype DeleteOutcome = DeleteNotPermitted | NoSuchRole | HasAssignments(count: nat) | RoleDeleted

  function WithoutRole(customs: seq<RoleDefinition>, guid: string): seq<RoleDefinition> {
    if customs == [] then []
    else (if EqualFold(customs[0].guid, guid) then [] else [customs[0]]) + WithoutRole(customs[1..], guid)
  }

  function DeleteRole(t: Tables, guid: string): (Tables, DeleteOutcome) {
    if FindRole(t.builtIns, guid).Some? then (t, DeleteNotPermitted)
    else if FindRole(t.customs, guid).None? then (t, NoSuchRole)
    else
      var n := AssignmentsForRole(t.assignments, guid);
      if n > 0 then (t, HasAssignments(n))
      else (t.(customs := WithoutRole(t.customs, guid)), RoleDeleted)
  }

  // ---- role assignments ----

  datatype AssignmentBody = AssignmentBody(
    roleId: string, principalId: string, principalType: string, condition: string, conditionVersion: string)

  datatype CreateOutcome =
    | MissingProperties | RoleDoesNotExist | ScopeNotAssignable | InvalidConditionVersion
    | InvalidCondition(error: ParseError) | VersionWithoutCondition | AssignmentExists
    | AssignmentCreated(a: Assignment)

  const VERSION := "2.0"

  function NewAssignment(name: string, scope: string, body: AssignmentBody, now: int): Assignment {
    var shown := if TrimSuffix(scope, "/") == "" then "/" else TrimSuffix(scope, "/");
    var version := if body.condition != "" && body.conditionVersion == "" then VERSION else body.conditionVersion;
    Assignment(name, Lower(shown), shown, body.roleId, body.principalId,
               if body.principalType == "" then "User" else body.principalType, body.condition, version, now)
  }

  /** The primary key on names and the unique index on (scope, role, principal). */
  predicate Clashes(a: Assignment, b: Assignment) {
    a.name == b.name || (a.scope == b.scope && a.roleId == b.roleId && a.principalId == b.principalId)
  }

  function CreateAssignment(rd: Reader, t: Tables, name: string, scope: string, body: AssignmentBody,
                            now: int): (Tables, CreateOutcome)
  {
    if body.roleId == "" || body.principalId == "" then (t, MissingProperties)
    else
      var def := ResolveRoleFromId(t, body.roleId);
      var a := NewAssignment(name, scope, body, now);
      if def.None? then (t, RoleDoesNotExist)
      else if !AssignableAt(def.value, scope) then (t, ScopeNotAssignable)
      else if body.condition != "" && a.conditionVersion != VERSION then (t, InvalidConditionVersion)
      else if body.condition != "" && Parse(rd, body.condition).Err? then
        (t, InvalidCondition(Parse(rd, body.condition).error))
      else if body.condition == "" && body.conditionVersion != "" then (t, VersionWithoutCondition)
      else if exists i :: 0 <= i < |t.assignments| && Clashes(t.assignments[i], a) then (t, AssignmentExists)
      else (t.(assignments := t.assignments + [a]), AssignmentCreated(a))
  }

  function WithoutAssignment(rows: seq<Assignment>, name: string): seq<Assignment> {
    if rows == [] then []
    else (if rows[0].name == name then [] else [rows[0]]) + WithoutAssignment(rows[1..], name)
  }

  function DeleteAssignment(t: Tables, name: string): Tables {
    t.(assignments := WithoutAssignment(t.assignments, name))
  }

  // ---- deny assignments ----

  /** Written over the row of exactly that name, else added. */
  function PutDeny(denies: seq<DenyAssignment>, d: DenyAssignment): seq<DenyAssignment> {
    if denies == [] then [d]
    else if denies[0].name == d.name then [d] + denies[1..]
    else [denies[0]] + PutDeny(denies[1..], d)
  }

  /** A deny needs a scope and somebody to deny. */
  function SeedDeny(t: Tables, d: DenyAssignment): (Tables, bool) {
    if TrimSpace(d.scope) == "" || d.principals == [] then (t, false)
    else
      var shown := if TrimSuffix(d.scope, "/") == "" then "/" else TrimSuffix(d.scope, "/");
      (t.(denies := PutDeny(t.denies, d.(scope := shown))), true)
  }

  function WithoutDeny(denies: seq<DenyAssignment>, name: string): seq<DenyAssignment> {
    if denies == [] then []
    else (if EqualFold(denies[0].name, name) then [] else [denies[0]]) + WithoutDeny(denies[1..], name)
  }

  // ---- the handlers as methods on the store ----

  class Store {
    const rd: Reader
    const builtIns: seq<RoleDefinition>
    var customs: seq<RoleDefinition>
    var assignments: seq<Assignment>
    var denies: seq<DenyAssignment>

    function View(): Tables
      reads this
    {
      Tables(builtIns, customs, assignments, denies)
    }

    constructor (rd: Reader, builtIns: seq<RoleDefinition>)
      ensures View() == Tables(builtIns, [], [], []) && this.rd == rd
    {
      this.rd := rd;
      this.builtIns := builtIns;
      customs, assignments, denies := [], [], [];
    }

    /** RoleByGUID's loop. */
    method BuiltIn(guid: string) returns (r: Option<RoleDefinition>)
      ensures r == FindRole(builtIns, guid)
    {
      assert builtIns[0..] == builtIns;
      for i := 0 to |builtIns|
        invariant FindRole(builtIns, guid) == FindRole(builtIns[i..], guid)
      {
        assert builtIns[i..][1..] == builtIns[i + 1..];
        if EqualFold(builtIns[i].guid, guid) {
          return Some(builtIns[i]);
        }
      }
      return None;
    }

    method PutRoleDefinition(guid: string, body: RoleBody, now: int) returns (r: PutOutcome)
      modifies this
      ensures (View(), r) == PutRole(old(View()), guid, body, now)
    {
      hide FindRole, NameTaken, Upsert, ValidScopeText;
      var builtIn := BuiltIn(guid);
      if builtIn.Some? {
        return BuiltInImmutable;
      }
      if TrimSpace(body.roleName) == "" {
        return MissingRoleName;
      }
      if |body.permissions| == 0 {
        return MissingPermissions;
      }
      if |body.assignableScopes| == 0 {
        return MissingAssignableScopes;
      }
      for i := 0 to |body.assignableScopes|
        invariant forall j :: 0 <= j < i ==> ValidScopeText(body.assignableScopes[j])
      {
        if !ValidScopeText(body.assignableScopes[i]) {
          return InvalidAssignableScope;
        }
      }
      var existing := FindRole(customs, guid);
      var d := RoleDefinition(guid, body.roleName, body.permissions, true, body.assignableScopes, now, now);
      if existing.Some? {
        d := d.(createdAt := existing.value.createdAt);
      }
      if NameTaken(customs, d) {
        return SameNameExists;
      }
      customs := Upsert(customs, d);
      return RoleStored(existing.Some?);
    }

    method DeleteRoleDefinition(guid: string) returns (r: DeleteOutcome)
      modifies this
      ensures (View(), r) == DeleteRole(old(View()), guid)
    {
      hide FindRole, AssignmentsForRole, WithoutRole;
      var builtIn := BuiltIn(guid);
      if builtIn.Some? {
        return DeleteNotPermitted;
      }
      if FindRole(customs, guid).None? {
        return NoSuchRole;
      }
      var n := AssignmentsForRole(assignments, guid);
      if n > 0 {
        return HasAssignments(n);
      }
      customs := WithoutRole(customs, guid);
      return RoleDeleted;
    }

    method CanAssignAt(def: RoleDefinition, scope: string) returns (r: bool)
      ensures r == AssignableAt(def, scope)
    {
      hide ScopeApplies;
      if !def.custom {
        return true;
      }
      for i := 0 to |def.assignableScopes|
        invariant forall j :: 0 <= j < i ==> !ScopeApplies(def.assignableScopes[j], scope)
      {
        if ScopeApplies(def.assignableScopes[i], scope) {
          return true;
        }
      }
      return false;
    }

    method CreateRoleAssignment(name: string, scope: string, body: AssignmentBody, now: int) returns (r: CreateOutcome)
      modifies this
      ensures (View(), r) == CreateAssignment(rd, old(View()), name, scope, body, now)
    {
      hide ResolveRoleFromId, AssignableAt, Parse, Clashes, TrimSuffix, Lower;
      if body.roleId == "" || body.principalId == "" {
        return MissingProperties;
      }
      var def := ResolveRoleFromId(View(), body.roleId);
      if def.None? {
        return RoleDoesNotExist;
      }
      var assignable := CanAssignAt(def.value, scope);
      if !assignable {
        return ScopeNotAssignable;
      }
      var version := body.conditionVersion;
      if body.condition != "" {
        if version == "" {
          version := VERSION;
        }
        if version != VERSION {
          return InvalidConditionVersion;
        }
        if Parse(rd, body.condition).Err? {
          return InvalidCondition(Parse(rd, body.condition).error);
        }
      } else if version != "" {
        return VersionWithoutCondition;
      }
      var shown := TrimSuffix(scope, "/");
      if shown == "" {
        shown := "/";
      }
      var principalType := if body.principalType == "" then "User" else body.principalType;
      var a := Assignment(name, Lower(shown), shown, body.roleId, body.principalId, principalType,
                          body.condition, version, now);
      if exists i :: 0 <= i < |assignments| && Clashes(assignments[i], a) {
        return AssignmentExists;
      }
      assignments := assignments + [a];
      return AssignmentCreated(a);
    }

    method DeleteRoleAssignment(name: string) returns (found: bool)
      modifies this
      ensures View() == DeleteAssignment(old(View()), name)
      ensures found <==> old(exists i :: 0 <= i < |assignments| && assignments[i].name == name)
    {
      found := exists i :: 0 <= i < |assignments| && assignments[i].name == name;
      assignments := WithoutAssignment(assignments, name);
    }

    method SeedDenyAssignment(d: DenyAssignment) returns (created: bool)
      modifies this
      ensures (View(), created) == SeedDeny(old(View()), d)
    {
      hide TrimSpace, PutDeny, TrimSuffix;
      if TrimSpace(d.scope) == "" {
        return false;
      }
      if |d.principals| == 0 {
        return false;
      }
      var shown := TrimSuffix(d.scope, "/");
      if shown == "" {
        shown := "/";
      }
      denies := PutDeny(denies, d.(scope := shown));
      return true;
    }

    method DeleteDenyAssignment(name: string)
      modifies this
      ensures View() == old(View()).(denies := WithoutDeny(old(denies), name))
    {
      denies := WithoutDeny(denies, name);
    }
  }
}
