/** Short histories from an empty store in which the role tables do less than they seem to promise:
    each shows that the exact conditions of RoleLaws can fail. */
module RoleHistories {
  import opened Text
  import opened Wildcard
  import opened Scopes
  import opened Conditions
  import opened Parser
  import opened Directory
  import opened RoleTables
  import opened RoleLaws
  import opened RoleGuard
  import opened RoleInvariants

  lemma TwoSteps(rd: Reader, t: Tables, a: Event, b: Event)
    ensures Run(rd, t, [(a, 0), (b, 0)]) == Step(rd, Step(rd, t, a, 0), b, 0)
  {
    hide Step;
    var es: seq<(Event, int)>, u := [(a, 0), (b, 0)], Step(rd, t, a, 0);
    assert Run(rd, u, es[1..]) == Step(rd, u, b, 0) by {
      assert es[1..][0] == (b, 0) && es[1..][1..] == [];
    }
  }

  /** From an empty store: define a role, then define another under the same guid respelled. The
      second is accepted, and the guid still resolves to the first. */
  lemma RespelledPutIsNotRead(rd: Reader, builtIns: seq<RoleDefinition>, g: string, h: string, first: RoleBody,
                              second: RoleBody)
    requires FindRole(builtIns, g).None? && g != h && EqualFold(g, h)
    requires TrimSpace(first.roleName) != "" && first.permissions != [] && first.assignableScopes == ["/"]
    requires TrimSpace(second.roleName) != "" && second.permissions != [] && second.assignableScopes == ["/"]
    requires !EqualFold(first.roleName, second.roleName)
    ensures var t := Run(rd, Empty(builtIns), [(Put(g, first), 0)]);
            var r := ResolveRole(Run(rd, Empty(builtIns), [(Put(g, first), 0), (Put(h, second), 0)]), h);
            && PutRole(t, h, second, 0).1 == RoleStored(true)
            && r.Some? && r.value.guid == g && r.value.roleName == first.roleName
  {
    RootIsScopeText();
    BuiltInsIgnoreCase(builtIns, g, h);
    FoldSymmetric(g, h);
    FirstPut(rd, builtIns, g, first);
    TwoSteps(rd, Empty(builtIns), Put(g, first), Put(h, second));
    OneStep(rd, Empty(builtIns), Put(g, first));
    var d := RoleDefinition(g, first.roleName, first.permissions, true, ["/"], 0, 0);
    var t := Tables(builtIns, [d], [], []);
    assert FindRole(t.customs, h) == Some(d);
    hide FindRole, Upsert, ValidScopeText, TrimSpace, Run, EqualFold;
    assert PutRole(t, h, second, 0).1 == RoleStored(true);
    PutReadsBackIff(t, h, second, 0);
  }

  lemma OneStep(rd: Reader, t: Tables, a: Event)
    ensures Run(rd, t, [(a, 0)]) == Step(rd, t, a, 0)
  {
    hide Step;
    var es: seq<(Event, int)> := [(a, 0)];
    assert es[1..] == [];
  }

  /** From an empty store: define a role and assign it twice to one person at the root, by its guid
      and by another id of it. Both are stored. */
  function RespelledGrants(guid: string, body: RoleBody, m: string, n: string, principal: string): seq<(Event, int)> {
    [(Put(guid, body), 0), (Assign(m, "/", AssignmentBody(guid, principal, "", "", "")), 0),
     (Assign(n, "/", AssignmentBody("/" + guid, principal, "", "", "")), 0)]
  }

  lemma RespelledGrantIsStored(rd: Reader, builtIns: seq<RoleDefinition>, guid: string, body: RoleBody,
                               m: string, n: string, principal: string)
    requires PlainGuid(guid) && FindRole(builtIns, guid).None? && principal != "" && m != n
    requires TrimSpace(body.roleName) != "" && body.permissions != [] && body.assignableScopes == ["/"]
    ensures var t := Run(rd, Empty(builtIns), RespelledGrants(guid, body, m, n, principal));
            && |t.assignments| == 2 && t.assignments[0].principalId == t.assignments[1].principalId == principal
            && t.assignments[0].scope == t.assignments[1].scope
            && ResolveRoleFromId(t, t.assignments[0].roleId).Some?
            && ResolveRoleFromId(t, t.assignments[0].roleId) == ResolveRoleFromId(t, t.assignments[1].roleId)
  {
    hide Step, Run, FindRole, TrimSpace, NewAssignment, RoleGuidOf, ResolveRoleFromId, AssignableAt;
    var d := RoleDefinition(guid, body.roleName, body.permissions, true, ["/"], 0, 0);
    var first, second := AssignmentBody(guid, principal, "", "", ""), AssignmentBody("/" + guid, principal, "", "", "");
    var a, b := NewAssignment(m, "/", first, 0), NewAssignment(n, "/", second, 0);
    PlainIds(guid);
    FirstPut(rd, builtIns, guid, body);
    RootIsAssignable(d);
    ResolvesAlone(Tables(builtIns, [d], [], []), guid, d);
    ResolvesAlone(Tables(builtIns, [d], [a], []), "/" + guid, d);
    ResolvesAlone(Tables(builtIns, [d], [a, b], []), guid, d);
    ResolvesAlone(Tables(builtIns, [d], [a, b], []), "/" + guid, d);
    ThreeSteps(rd, Empty(builtIns), RespelledGrants(guid, body, m, n, principal));
    NewAssignmentFields(m, first);
    NewAssignmentFields(n, second);
    assert guid != "/" + guid && [] + [a] == [a] && [a] + [b] == [a, b];
    AssignAtRoot(rd, Tables(builtIns, [d], [], []), m, first, d);
    AssignAtRoot(rd, Tables(builtIns, [d], [a], []), n, second, d);
  }

  lemma ResolvesAlone(t: Tables, id: string, d: RoleDefinition)
    requires t.customs == [d] && FindRole(t.builtIns, d.guid).None? && RoleGuidOf(id) == d.guid
    ensures ResolveRoleFromId(t, id) == Some(d)
  {
    hide RoleGuidOf;
  }

  lemma NewAssignmentFields(name: string, body: AssignmentBody)
    ensures var a := NewAssignment(name, "/", body, 0);
            && a.name == name && a.roleId == body.roleId && a.principalId == body.principalId && a.scope == "/"
            && a.scopeDisplay == "/"
  {
    assert Lower("/") == "/";
  }

  /** An unconditional grant at the root that clashes with nothing is stored. */
  lemma AssignAtRoot(rd: Reader, t: Tables, name: string, body: AssignmentBody, def: RoleDefinition)
    requires body.roleId != "" && body.principalId != "" && body.condition == "" && body.conditionVersion == ""
    requires ResolveRoleFromId(t, body.roleId) == Some(def) && AssignableAt(def, "/")
    requires forall a :: a in t.assignments ==> a.name != name && a.roleId != body.roleId
    ensures Step(rd, t, Assign(name, "/", body), 0) ==
            t.(assignments := t.assignments + [NewAssignment(name, "/", body, 0)])
  {
    NewAssignmentFields(name, body);
    hide ResolveRoleFromId, AssignableAt, Parse, NewAssignment;
  }

  /** The shortest history that dangles: define a role, assign it by `guid/`, delete it. */
  function DanglingHistory(guid: string, body: RoleBody, name: string, principal: string): seq<(Event, int)> {
    [(Put(guid, body), 0), (Assign(name, "/", AssignmentBody(guid + "/", principal, "", "", "")), 0), (Delete(guid), 0)]
  }

  lemma TrailingSlashDangles(rd: Reader, builtIns: seq<RoleDefinition>, guid: string, body: RoleBody, name: string,
                             principal: string)
    requires PlainGuid(guid) && FindRole(builtIns, guid).None? && principal != ""
    requires TrimSpace(body.roleName) != "" && body.permissions != [] && body.assignableScopes == ["/"]
    ensures !Sound(rd, Run(rd, Empty(builtIns), DanglingHistory(guid, body, name, principal)))
  {
    hide Step, Run, Sound, NewAssignment, FindRole, TrimSpace, ResolveRoleFromId, AssignableAt, RoleGuidOf;
    var es := DanglingHistory(guid, body, name, principal);
    var d := RoleDefinition(guid, body.roleName, body.permissions, true, ["/"], 0, 0);
    var details := AssignmentBody(guid + "/", principal, "", "", "");
    FirstPut(rd, builtIns, guid, body);
    SlashedGuid(guid);
    RootIsAssignable(d);
    ResolvesAlone(Tables(builtIns, [d], [], []), guid + "/", d);
    NewAssignmentFields(name, details);
    ThreeSteps(rd, Empty(builtIns), es);
    AssignAtRoot(rd, Tables(builtIns, [d], [], []), name, details, d);
    assert [] + [NewAssignment(name, "/", details, 0)] == [NewAssignment(name, "/", details, 0)];
    ThenDelete(rd, builtIns, d, NewAssignment(name, "/", details, 0), guid);
  }

  lemma ThenDelete(rd: Reader, builtIns: seq<RoleDefinition>, d: RoleDefinition, a: Assignment, guid: string)
    requires PlainGuid(guid) && FindRole(builtIns, guid).None? && d.guid == guid && a.roleId == guid + "/"
    ensures !Sound(rd, Step(rd, Tables(builtIns, [d], [a], []), Delete(guid), 0))
  {
    var t := Tables(builtIns, [d], [a], []);
    SlashedGuid(guid);
    DeleteGuardIff(a, guid);
    CountZero([a], guid);
    WithoutRoleFinds([d], guid, guid);
    hide RoleGuidOf, RefersTo, WithoutRole, AssignmentsForRole, HasSuffix;
    assert FindRole([d], guid).Some?;
    hide FindRole;
    assert DeleteRole(t, guid).1.RoleDeleted?;
    var u := DeleteRole(t, guid).0;
    assert a in u.assignments && !Live(rd, u, a);
  }

  lemma ThreeSteps(rd: Reader, t: Tables, es: seq<(Event, int)>)
    requires |es| == 3
    ensures Run(rd, t, es) ==
            Step(rd, Step(rd, Step(rd, t, es[0].0, es[0].1), es[1].0, es[1].1), es[2].0, es[2].1)
  {
    hide Step;
    var t1 := Step(rd, t, es[0].0, es[0].1);
    var t2 := Step(rd, t1, es[1].0, es[1].1);
    assert Run(rd, t2, es[1..][1..]) == Step(rd, t2, es[2].0, es[2].1) by {
      assert es[1..][1..][0] == es[2] && es[1..][1..][1..] == [];
    }
    assert Run(rd, t1, es[1..]) == Run(rd, t2, es[1..][1..]);
  }

  lemma FirstRow(rd: Reader, builtIns: seq<RoleDefinition>, guid: string, body: RoleBody)
    requires FindRole(builtIns, guid).None? && TrimSpace(body.roleName) != "" && body.permissions != []
    requires body.assignableScopes != []
    requires forall i :: 0 <= i < |body.assignableScopes| ==> ValidScopeText(body.assignableScopes[i])
    ensures var d := RoleDefinition(guid, body.roleName, body.permissions, true, body.assignableScopes, 0, 0);
            Step(rd, Empty(builtIns), Put(guid, body), 0) == Tables(builtIns, [d], [], [])
    ensures PutRole(Empty(builtIns), guid, body, 0).1 == RoleStored(false)
  {
    hide TrimSpace, ValidScopeText;
  }

  lemma FirstPut(rd: Reader, builtIns: seq<RoleDefinition>, guid: string, body: RoleBody)
    requires FindRole(builtIns, guid).None?
    requires TrimSpace(body.roleName) != "" && body.permissions != [] && body.assignableScopes == ["/"]
    ensures Step(rd, Empty(builtIns), Put(guid, body), 0) ==
            Tables(builtIns, [RoleDefinition(guid, body.roleName, body.permissions, true, ["/"], 0, 0)], [], [])
  {
    RootIsScopeText();
    FirstRow(rd, builtIns, guid, body);
  }

  lemma RootIsScopeText()
    ensures ValidScopeText("/")
  {
    assert !IsSpace('/') && TrimSpace("/") == "/" by {
      assert TrimLeft("/") == "/" && TrimRight("/") == "/";
    }
  }

  lemma SlashedGuid(guid: string)
    requires '/' !in guid
    ensures RoleGuidOf(guid + "/") == guid && HasSuffix(guid + "/", "/")
  {
    assert (guid + "/")[..|guid|] == guid;
  }

  lemma RootIsAssignable(def: RoleDefinition)
    requires def.assignableScopes == ["/"]
    ensures AssignableAt(def, "/")
  {
    ScopeTreeOrder("/", "/", "/");
    hide ScopeApplies;
    assert ScopeApplies(def.assignableScopes[0], "/");
  }

  /** From an empty store: define two roles, the guid of one matched by the guard's pattern for the
      other (it merely ends in it, or a '%' or '_' of the other stands for something), and assign it. */
  function StrayHistory(h: string, first: RoleBody, g: string, second: RoleBody, name: string,
                        principal: string): seq<(Event, int)>
  {
    [(Put(h, first), 0), (Put(g, second), 0), (Assign(name, "/", AssignmentBody(h, principal, "", "", "")), 0)]
  }

  lemma SecondPut(rd: Reader, builtIns: seq<RoleDefinition>, d: RoleDefinition, g: string, body: RoleBody)
    requires FindRole(builtIns, g).None? && !EqualFold(d.guid, g) && !EqualFold(d.roleName, body.roleName)
    requires TrimSpace(body.roleName) != "" && body.permissions != [] && body.assignableScopes == ["/"]
    ensures Step(rd, Tables(builtIns, [d], [], []), Put(g, body), 0) ==
            Tables(builtIns, [d, RoleDefinition(g, body.roleName, body.permissions, true, ["/"], 0, 0)], [], [])
  {
    RootIsScopeText();
    var row := RoleRow([d], g, body, 0);
    assert [d][1..] == [];
    assert Upsert([d], row) == [d, row];
    hide TrimSpace, ValidScopeText, Upsert, EqualFold;
  }

  /** Deleting the other is refused for one assignment, though no stored id resolves to it. */
  lemma StrayRefusesDeletion(rd: Reader, builtIns: seq<RoleDefinition>, h: string, first: RoleBody,
                             g: string, second: RoleBody, name: string, principal: string)
    requires FindRole(builtIns, h).None? && FindRole(builtIns, g).None? && principal != ""
    requires h != "" && '/' !in h && !EqualFold(h, g) && Matches(LIKE, ['%'] + Lower(g), Lower(h))
    requires TrimSpace(first.roleName) != "" && first.permissions != [] && first.assignableScopes == ["/"]
    requires TrimSpace(second.roleName) != "" && second.permissions != [] && second.assignableScopes == ["/"]
    requires !EqualFold(first.roleName, second.roleName)
    ensures var t := Run(rd, Empty(builtIns), StrayHistory(h, first, g, second, name, principal));
            && DeleteRole(t, g).1 == HasAssignments(1)
            && forall a :: a in t.assignments ==> !ResolvesTo(a, g)
  {
    hide Step, Run, FindRole, TrimSpace, NewAssignment, RoleGuidOf, ResolveRoleFromId, AssignableAt, Matches, EqualFold;
    var d := RoleDefinition(h, first.roleName, first.permissions, true, ["/"], 0, 0);
    var e := RoleDefinition(g, second.roleName, second.permissions, true, ["/"], 0, 0);
    var details := AssignmentBody(h, principal, "", "", "");
    var t, a := Tables(builtIns, [d, e], [], []), NewAssignment(name, "/", details, 0);
    FirstPut(rd, builtIns, h, first);
    SecondPut(rd, builtIns, d, g, second);
    PlainIds(h);
    RootIsAssignable(d);
    FoundInPair(t, d, e);
    NewAssignmentFields(name, details);
    AssignAtRoot(rd, t, name, details, d);
    assert [] + [a] == [a];
    ThreeSteps(rd, Empty(builtIns), StrayHistory(h, first, g, second, name, principal));
    OneCounted(a, g);
  }

  lemma FoundInPair(t: Tables, d: RoleDefinition, e: RoleDefinition)
    requires t.customs == [d, e] && FindRole(t.builtIns, d.guid).None? && FindRole(t.builtIns, e.guid).None?
    requires !EqualFold(d.guid, e.guid) && RoleGuidOf(d.guid) == d.guid
    ensures ResolveRoleFromId(t, d.guid) == Some(d) && FindRole(t.customs, e.guid) == Some(e)
  {
    assert t.customs[1..] == [e];
  }

  lemma OneCounted(a: Assignment, g: string)
    requires RefersTo(a, g)
    ensures AssignmentsForRole([a], g) == 1
  {
    hide RefersTo;
    assert [a][1..] == [];
  }

  // ---- a guid no catalogue has ----

  function TotalLength(roles: seq<RoleDefinition>): nat {
    if roles == [] then 0 else |roles[0].guid| + TotalLength(roles[1..])
  }

  /** Longer than every guid of the catalogue. */
  function NewGuid(roles: seq<RoleDefinition>): (g: string)
    ensures PlainGuid(g) && |g| == TotalLength(roles) + 1
  {
    Repeat('x', TotalLength(roles) + 1)
  }

  lemma {:induction false} LongGuidIsNew(roles: seq<RoleDefinition>, g: string)
    requires |g| > TotalLength(roles)
    ensures FindRole(roles, g).None?
  {
    if roles != [] {
      assert |Lower(roles[0].guid)| < |Lower(g)|;
      LongGuidIsNew(roles[1..], g);
    }
  }

  // ---- one role, one grant and one deny at the root ----

  function RootBody(action: string): RoleBody {
    RoleBody("R", [Permission([], [], [action], [])], ["/"])
  }

  function RootGrant(g: string, user: string): Assignment {
    NewAssignment("n", "/", AssignmentBody(g, user, "", "", ""), 0)
  }

  function RootHistory(g: string, user: string, action: string, d: DenyAssignment): seq<(Event, int)> {
    [(Put(g, RootBody(action)), 0), (Assign("n", "/", AssignmentBody(g, user, "", "", "")), 0), (Deny(d), 0)]
  }

  function RootRole(g: string, action: string): RoleDefinition {
    RoleDefinition(g, "R", [Permission([], [], [action], [])], true, ["/"], 0, 0)
  }

  function RootStore(builtIns: seq<RoleDefinition>, g: string, user: string, action: string,
                     d: DenyAssignment): Tables
  {
    Tables(builtIns, [RootRole(g, action)], [RootGrant(g, user)], [d])
  }

  lemma NamedR()
    ensures TrimSpace("R") != "" && TrimSpace("/") != ""
  {
    assert TrimLeft("R") == "R" && TrimRight("R") == "R";
    assert TrimLeft("/") == "/" && TrimRight("/") == "/";
  }

  lemma FirstDeny(rd: Reader, t: Tables, d: DenyAssignment)
    requires t.denies == [] && d.scope == "/" && d.principals != []
    ensures Step(rd, t, Deny(d), 0) == t.(denies := [d])
  {
    NamedR();
    hide TrimSpace;
  }

  /** From an empty store over any catalogue, three requests reach it. */
  lemma RootReached(rd: Reader, builtIns: seq<RoleDefinition>, g: string, user: string, action: string,
                    d: DenyAssignment)
    requires PlainGuid(g) && FindRole(builtIns, g).None? && user != "" && d.scope == "/" && d.principals != []
    ensures Run(rd, Empty(builtIns), RootHistory(g, user, action, d)) == RootStore(builtIns, g, user, action, d)
  {
    hide Step, Run, FindRole, TrimSpace, NewAssignment, RoleGuidOf, ResolveRoleFromId, AssignableAt;
    var role, details := RootRole(g, action), AssignmentBody(g, user, "", "", "");
    var t := Tables(builtIns, [role], [], []);
    NamedR();
    PlainIds(g);
    FirstPut(rd, builtIns, g, RootBody(action));
    RootIsAssignable(role);
    ResolvesAlone(t, g, role);
    AssignAtRoot(rd, t, "n", details, role);
    assert [] + [RootGrant(g, user)] == [RootGrant(g, user)];
    FirstDeny(rd, t.(assignments := [RootGrant(g, user)]), d);
    ThreeSteps(rd, Empty(builtIns), RootHistory(g, user, action, d));
  }

  // ---- names and places ----

  /** From an empty store: a custom role put under a built-in's name, in any case, is accepted. */
  lemma BuiltInNameIsAccepted(rd: Reader, builtIns: seq<RoleDefinition>, b: RoleDefinition, g: string, body: RoleBody)
    requires b in builtIns && EqualFold(body.roleName, b.roleName) && FindRole(builtIns, g).None?
    requires TrimSpace(body.roleName) != "" && body.permissions != [] && body.assignableScopes == ["/"]
    ensures PutRole(Empty(builtIns), g, body, 0).1 == RoleStored(false)
    ensures !NamesApart(Run(rd, Empty(builtIns), [(Put(g, body), 0)]))
  {
    hide Step, Run, FindRole, EqualFold, TrimSpace;
    RootIsScopeText();
    FirstRow(rd, builtIns, g, body);
    OneStep(rd, Empty(builtIns), Put(g, body));
    var d := RoleDefinition(g, body.roleName, body.permissions, true, ["/"], 0, 0);
    assert [d][0] == d;
  }

  /** From an empty store: define a role for the root, assign it there, put it again for `/a` only. */
  lemma NarrowingMisplaces(rd: Reader, builtIns: seq<RoleDefinition>, g: string, body: RoleBody, name: string,
                           principal: string)
    requires PlainGuid(g) && FindRole(builtIns, g).None? && principal != ""
    requires TrimSpace(body.roleName) != "" && body.permissions != [] && body.assignableScopes == ["/"]
    ensures !AllInPlace(Run(rd, Empty(builtIns), [(Put(g, body), 0),
                                                  (Assign(name, "/", AssignmentBody(g, principal, "", "", "")), 0),
                                                  (Put(g, body.(assignableScopes := ["/a"])), 0)]))
  {
    hide Step, Run, FindRole, TrimSpace, NewAssignment, ResolveRoleFromId, RoleGuidOf, AssignableAt, AllInPlace;
    var d := RoleDefinition(g, body.roleName, body.permissions, true, ["/"], 0, 0);
    var details := AssignmentBody(g, principal, "", "", "");
    var a := NewAssignment(name, "/", details, 0);
    PlainIds(g);
    NewAssignmentFields(name, details);
    FirstPut(rd, builtIns, g, body);
    RootIsAssignable(d);
    ResolvesAlone(Tables(builtIns, [d], [], []), g, d);
    AssignAtRoot(rd, Tables(builtIns, [d], [], []), name, details, d);
    assert [] + [a] == [a];
    ThreeSteps(rd, Empty(builtIns), [(Put(g, body), 0), (Assign(name, "/", details), 0),
                                     (Put(g, body.(assignableScopes := ["/a"])), 0)]);
    ThenNarrowed(rd, Tables(builtIns, [d], [a], []), d, a, body.(assignableScopes := ["/a"]));
  }

  lemma ThenNarrowed(rd: Reader, t: Tables, d: RoleDefinition, a: Assignment, body: RoleBody)
    requires t.customs == [d] && t.assignments == [a] && FindRole(t.builtIns, d.guid).None?
    requires RoleGuidOf(a.roleId) == d.guid && a.scopeDisplay == "/"
    requires TrimSpace(body.roleName) != "" && body.permissions != [] && body.assignableScopes == ["/a"]
    ensures !AllInPlace(Step(rd, t, Put(d.guid, body), 0))
  {
    BelowRoot();
    var row := RoleRow([d], d.guid, body, 0);
    assert [d][0].guid == row.guid && !NameTaken([d], row);
    assert FindRole([d], d.guid) == Some(d);
    hide ValidScopeText, TrimSpace, RoleGuidOf, ScopeApplies, Upsert, NameTaken, FindRole, RoleRow;
    assert PutRole(t, d.guid, body, 0).1.RoleStored?;
    PutResolves(t, d.guid, body, 0, a.roleId);
    hide PutRole, ResolveRoleFromId;
    PutKeepsAssignments(t, d.guid, body, 0);
    var u := PutRole(t, d.guid, body, 0).0;
    assert a in u.assignments && !InPlace(u, a);
  }

  lemma BelowRoot()
    ensures ValidScopeText("/a") && !ScopeApplies("/a", "/")
  {
    assert TrimLeft("/a") == "/a" && TrimRight("/a") == "/a";
    assert Lower("/a") == "/" + Lower("a") && Lower("a") == "a";
  }

  /** From an empty store: a role declared for a scope that ends in two slashes and assigned there is
      stored one slash short, out of its place. */
  lemma TrimmedScopeMisplaces(rd: Reader, builtIns: seq<RoleDefinition>, g: string, body: RoleBody, name: string,
                              principal: string)
    requires PlainGuid(g) && FindRole(builtIns, g).None? && principal != ""
    requires TrimSpace(body.roleName) != "" && body.permissions != [] && body.assignableScopes == ["/a//"]
    ensures !AllInPlace(Run(rd, Empty(builtIns), [(Put(g, body), 0),
                                                  (Assign(name, "/a//", AssignmentBody(g, principal, "", "", "")), 0)]))
  {
    hide Step, Run, FindRole, TrimSpace, ResolveRoleFromId, RoleGuidOf, AllInPlace, ValidScopeText;
    var d := RoleDefinition(g, body.roleName, body.permissions, true, ["/a//"], 0, 0);
    var t, e := Tables(builtIns, [d], [], []), Assign(name, "/a//", AssignmentBody(g, principal, "", "", ""));
    PlainIds(g);
    TwoSlashes(d);
    FirstRow(rd, builtIns, g, body);
    ResolvesAlone(t, g, d);
    TwoSteps(rd, Empty(builtIns), Put(g, body), e);
    NoneMisplaced(t);
    InPlaceStepIff(rd, t, e, 0);
  }

  lemma TwoSlashes(d: RoleDefinition)
    requires d.custom && d.assignableScopes == ["/a//"]
    ensures ValidScopeText("/a//") && TrimSuffix("/a//", "/") == "/a/"
    ensures AssignableAt(d, "/a//") && !AssignableAt(d, "/a/")
  {
    assert TrimLeft("/a//") == "/a//" && TrimRight("/a//") == "/a//";
    assert Lower("/a/") == "/a/" && Lower("/a") == "/a";
    assert CanonicalScope("/a//") == "/a/" && CanonicalScope("/a/") == "/a";
    assert ScopeApplies(d.assignableScopes[0], "/a//");
  }
}
