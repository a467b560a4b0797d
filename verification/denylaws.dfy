/** Where a deny reaches, whom it refuses, and what seeding and removing one changes. */
module DenyLaws {
  import opened Text
  import opened Scopes
  import opened Conditions
  import opened ConditionText
  import opened Directory
  import opened Decisions
  import opened DecisionLaws
  import opened RoleTables
  import opened RoleLaws

  // ---- where a deny reaches ----

  /** Its own scope, and unless it is pinned there, every scope whose chain holds its own. */
  predicate Reaches(d: DenyAssignment, target: string) {
    if d.doNotApplyToChildScopes then CanonicalScope(d.scope) == ChainOf(target)[0]
    else CanonicalScope(d.scope) in ChainOf(target)
  }

  /** A stored deny is listed at a target exactly when it reaches it. */
  lemma ListedIff(denies: seq<DenyAssignment>, d: DenyAssignment, target: string)
    ensures d in DeniesAt(denies, target) <==> d in denies && Reaches(d, target)
  {
    hide CanonicalScope, Ancestors;
    ChainIsApplicability(target);
  }

  /** A caller is denied exactly by some stored deny that refuses the action and reaches the scope. */
  lemma DeniedIff(t: Tables, req: Request)
    ensures Denied(t, req) <==>
            exists d :: && d in t.denies && Reaches(d, req.scope)
                        && DeniesAction(d, req.principalIds, req.context.action, true)
  {
    hide Reaches, DeniesAction, DeniesAt;
    var ds := DeniesAt(t.denies, req.scope);
    if Denied(t, req) {
      var i :| 0 <= i < |ds| && DeniesAction(ds[i], req.principalIds, req.context.action, true);
      ListedIff(t.denies, ds[i], req.scope);
    }
    if d :| && d in t.denies && Reaches(d, req.scope)
            && DeniesAction(d, req.principalIds, req.context.action, true) {
      ListedIff(t.denies, d, req.scope);
      assert d in ds;
    }
  }

  /** What an unpinned deny refuses at a scope it refuses at every scope beneath it. */
  lemma DeniesInherit(rd: Reader, t: Tables, d: DenyAssignment, req: Request, lower: string)
    requires d in t.denies && !d.doNotApplyToChildScopes && CanonicalScope(d.scope) in ChainOf(req.scope)
    requires DeniesAction(d, req.principalIds, req.context.action, true)
    ensures !Allowed(rd, t, req)
    ensures CanonicalScope(req.scope) in ChainOf(lower) ==> !Allowed(rd, t, req.(scope := lower))
  {
    hide DeniesAction, CanonicalScope, Ancestors, Denied, Effective, AnyQualifies, ScopeApplies, ChainOf;
    ChainIsApplicability(req.scope);
    ChainIsApplicability(lower);
    DeniedIff(t, req);
    assert Reaches(d, req.scope);
    if CanonicalScope(req.scope) in ChainOf(lower) {
      ScopeTreeOrder(d.scope, req.scope, lower);
      DeniedIff(t, req.(scope := lower));
      assert Reaches(d, lower);
    }
  }

  /** Where only pinned denies refuse the action to the caller, it is refused at their own scopes
      and nowhere else. */
  lemma PinnedDeniesStay(t: Tables, req: Request)
    requires forall d :: d in t.denies && DeniesAction(d, req.principalIds, req.context.action, true) ==>
               d.doNotApplyToChildScopes
    ensures Denied(t, req) <==>
            exists d :: && d in t.denies && DeniesAction(d, req.principalIds, req.context.action, true)
                        && CanonicalScope(d.scope) == CanonicalScope(req.scope)
  {
    hide DeniesAction, CanonicalScope, Ancestors, Denied;
    DeniedIff(t, req);
    ChainNearestFirst(req.scope);
    if d :| && d in t.denies && DeniesAction(d, req.principalIds, req.context.action, true)
            && CanonicalScope(d.scope) == CanonicalScope(req.scope) {
      assert Reaches(d, req.scope);
    }
  }

  // ---- whom it refuses ----

  predicate Excluded(d: DenyAssignment, ids: seq<string>) {
    exists id, x :: id in ids && x in d.excludePrincipals && id != "" && EqualFold(id, x)
  }

  lemma ExcludedIff(d: DenyAssignment, ids: seq<string>)
    ensures ContainsPrincipal(d.excludePrincipals, ids) <==> Excluded(d, ids)
  {
    hide EqualFold;
    if id, x :| id in ids && x in d.excludePrincipals && id != "" && EqualFold(id, x) {
      var i :| 0 <= i < |d.excludePrincipals| && d.excludePrincipals[i] == x;
      assert HoldsPrincipal(ids, d.excludePrincipals[i]);
    }
  }

  /** A deny on the nil GUID refuses its actions to everybody it does not exclude; one that excludes
      the caller refuses it nothing. */
  lemma EveryoneIsRefused(rd: Reader, t: Tables, d: DenyAssignment, p: Permission, req: Request)
    requires d in t.denies && Reaches(d, req.scope)
    requires p in d.permissions && PermissionDenies(p, req.context.action, true)
    ensures "00000000-0000-0000-0000-000000000000" in d.principals && !Excluded(d, req.principalIds) ==>
            !Allowed(rd, t, req)
    ensures Excluded(d, req.principalIds) ==> !DeniesAction(d, req.principalIds, req.context.action, true)
  {
    hide Reaches, PermissionDenies, ContainsPrincipal, Excluded, Denied, Effective, AnyQualifies;
    ExcludedIff(d, req.principalIds);
    DeniedIff(t, req);
    var i :| 0 <= i < |d.permissions| && d.permissions[i] == p;
    assert AnyPermissionDenies(d.permissions, req.context.action, true);
  }

  /** A caller all of whose ids are empty holds no role and is on no list. */
  lemma NobodyIsRefused(rd: Reader, t: Tables, req: Request, d: DenyAssignment)
    requires forall id :: id in req.principalIds ==> id == ""
    ensures !Allowed(rd, t, req) && !ContainsPrincipal(d.principals, req.principalIds)
  {
    hide Effective, Denied, GrantsAction, ConditionHolds, EqualFold;
    assert forall i :: 0 <= i < |req.principalIds| ==> req.principalIds[i] in req.principalIds;
  }

  /** The action lists are read as the data lists are. */
  lemma ActionsAreReadAlike(p: Permission, action: string)
    ensures PermissionDenies(p, action, false) ==
            PermissionDenies(p.(dataActions := p.actions, notDataActions := p.notActions), action, true)
  {}

  // ---- seeding ----

  /** One slash at the end is not stored, except the root's own. */
  function StoredScopeText(s: string): string {
    if |s| > 1 && s[|s| - 1] == '/' then s[..|s| - 1] else s
  }

  lemma TrimmedForStoring(s: string)
    requires s != ""
    ensures StoredScopeText(s) == if TrimSuffix(s, "/") == "" then "/" else TrimSuffix(s, "/")
  {
    EndsInSlash(s);
    if |s| == 1 && s[0] == '/' {
      assert s == "/";
    }
  }

  lemma {:induction false} PutDenyAt(denies: seq<DenyAssignment>, d: DenyAssignment, i: nat)
    requires i <= |denies| && forall j :: 0 <= j < i ==> denies[j].name != d.name
    ensures i < |denies| && denies[i].name == d.name ==> PutDeny(denies, d) == denies[i := d]
    ensures i == |denies| ==> PutDeny(denies, d) == denies + [d]
  {
    if i > 0 {
      PutDenyAt(denies[1..], d, i - 1);
    }
  }

  /** Seeding is refused exactly without a scope or principals, and then changes nothing. Otherwise
      the deny takes the place of the row of its exact name or comes last, every other row stays
      where it is, and no other table changes. */
  lemma SeedMeaning(t: Tables, d: DenyAssignment, i: nat)
    requires i <= |t.denies| && forall j :: 0 <= j < i ==> t.denies[j].name != d.name
    requires i < |t.denies| ==> t.denies[i].name == d.name
    ensures var (u, created), row := SeedDeny(t, d), d.(scope := StoredScopeText(d.scope));
            && (created <==> !White(d.scope) && d.principals != [])
            && u == (if !created then t
                     else t.(denies := if i < |t.denies| then t.denies[i := row] else t.denies + [row]))
  {
    hide TrimSpace, TrimSuffix, StoredScopeText;
    BlankIff(d.scope);
    if d.scope != "" {
      TrimmedForStoring(d.scope);
    }
    PutDenyAt(t.denies, d.(scope := StoredScopeText(d.scope)), i);
  }

  predicate NamesDistinct(denies: seq<DenyAssignment>) {
    forall i, j :: 0 <= i < j < |denies| ==> denies[i].name != denies[j].name
  }

  lemma NamedAt(denies: seq<DenyAssignment>, name: string) returns (i: nat)
    ensures i <= |denies| && (forall j :: 0 <= j < i ==> denies[j].name != name)
    ensures i < |denies| ==> denies[i].name == name
  {
    i := 0;
    while i < |denies| && denies[i].name != name
      invariant i <= |denies| && forall j :: 0 <= j < i ==> denies[j].name != name
    {
      i := i + 1;
    }
  }

  lemma {:induction false} WithoutDenyConcat(xs: seq<DenyAssignment>, ys: seq<DenyAssignment>, name: string)
    ensures WithoutDeny(xs + ys, name) == WithoutDeny(xs, name) + WithoutDeny(ys, name)
  {
    hide EqualFold;
    if xs == [] {
      assert xs + ys == ys;
    } else {
      assert (xs + ys)[1..] == xs[1..] + ys;
      WithoutDenyConcat(xs[1..], ys, name);
    }
  }

  /** Removing takes out the rows of that name in any case, wherever they are, and keeps the order. */
  lemma RemoveMeaning(before: seq<DenyAssignment>, d: DenyAssignment, after: seq<DenyAssignment>, name: string)
    ensures WithoutDeny(before + [d] + after, name) ==
            WithoutDeny(before, name) + (if EqualFold(d.name, name) then [] else [d]) + WithoutDeny(after, name)
    ensures WithoutDeny([], name) == []
  {
    assert WithoutDeny([d], name) == if EqualFold(d.name, name) then [] else [d] by {
      assert [d][1..] == [];
    }
    hide EqualFold;
    WithoutDenyConcat(before + [d], after, name);
    WithoutDenyConcat(before, [d], name);
  }

  lemma {:induction false} WithoutDenyRows(denies: seq<DenyAssignment>, name: string)
    ensures forall d :: d in WithoutDeny(denies, name) <==> d in denies && !EqualFold(d.name, name)
  {
    hide EqualFold;
    if denies != [] {
      WithoutDenyRows(denies[1..], name);
    }
  }

  lemma {:induction false} WithoutDenyNames(denies: seq<DenyAssignment>, name: string)
    requires NamesDistinct(denies)
    ensures NamesDistinct(WithoutDeny(denies, name))
  {
    hide EqualFold;
    if denies != [] {
      var d, tail := denies[0], denies[1..];
      assert forall i, j :: 0 <= i < j < |tail| ==> tail[i] == denies[i + 1] && tail[j] == denies[j + 1];
      WithoutDenyNames(tail, name);
      WithoutDenyRows(tail, name);
      var rest := WithoutDeny(tail, name);
      assert forall i :: 0 <= i < |rest| ==> rest[i] in tail && rest[i].name != d.name;
    }
  }

  lemma StepKeepsNames(rd: Reader, t: Tables, e: Event, now: int)
    requires NamesDistinct(t.denies)
    ensures NamesDistinct(Step(rd, t, e, now).denies)
  {
    hide CreateAssignment, PutRole, DeleteRole, PutDeny, WithoutDeny, WithoutAssignment, TrimSpace, TrimSuffix;
    match e {
      case Put(guid, body) => PutKeepsDenies(t, guid, body, now);
      case Delete(guid) => DeleteKeepsDenies(t, guid);
      case Assign(name, scope, body) => AssignKeepsDenies(rd, t, name, scope, body, now);
      case Unassign(_) =>
      case Deny(d) =>
        var i := NamedAt(t.denies, d.name);
        SeedMeaning(t, d, i);
      case Undeny(name) => WithoutDenyNames(t.denies, name);
    }
  }

  lemma PutKeepsDenies(t: Tables, guid: string, body: RoleBody, now: int)
    ensures PutRole(t, guid, body, now).0.denies == t.denies
  {
    hide FindRole, Upsert, NameTaken, ValidScopeText, TrimSpace;
  }

  lemma DeleteKeepsDenies(t: Tables, guid: string)
    ensures DeleteRole(t, guid).0.denies == t.denies
  {
    hide FindRole, AssignmentsForRole, WithoutRole;
  }

  lemma AssignKeepsDenies(rd: Reader, t: Tables, name: string, scope: string, body: AssignmentBody, now: int)
    ensures CreateAssignment(rd, t, name, scope, body, now).0.denies == t.denies
  {
    hide ResolveRoleFromId, Parser.Parse, AssignableAt, Clashes;
  }

  /** Over every history no two denies share a name. */
  lemma {:induction false} DenyNamesStayDistinct(rd: Reader, t: Tables, es: seq<(Event, int)>)
    requires NamesDistinct(t.denies)
    ensures NamesDistinct(Run(rd, t, es).denies)
    decreases |es|
  {
    hide NamesDistinct, Step;
    if es != [] {
      StepKeepsNames(rd, t, es[0].0, es[0].1);
      DenyNamesStayDistinct(rd, Step(rd, t, es[0].0, es[0].1), es[1..]);
    }
  }

  // ---- what seeding and removing do to decisions ----

  /** A deny seeded under a new name turns into refusals exactly the permissions it reaches and
      refuses; every other decision stays. */
  lemma DenyEffectIff(rd: Reader, t: Tables, d: DenyAssignment, req: Request)
    requires SeedDeny(t, d).1 && forall x :: x in t.denies ==> x.name != d.name
    ensures var row := d.(scope := StoredScopeText(d.scope));
            Allowed(rd, SeedDeny(t, d).0, req) <==>
            Allowed(rd, t, req)
            && !(Reaches(row, req.scope) && DeniesAction(row, req.principalIds, req.context.action, true))
  {
    hide TrimSpace, TrimSuffix, StoredScopeText, PutDeny, Entries, Denied, AnyQualifies, Reaches, DeniesAction, White;
    var row, u := d.(scope := StoredScopeText(d.scope)), SeedDeny(t, d).0;
    SeedMeaning(t, d, |t.denies|);
    assert u == t.(denies := t.denies + [row]);
    EntriesIgnoreDenies(rd, t, u, req.scope, t.assignments);
    CoreQualifies(rd, Effective(rd, u, req.scope), Effective(rd, t, req.scope), req);
    DeniedIff(t, req);
    DeniedIff(u, req);
    assert row in u.denies;
    assert forall x :: x in u.denies <==> x in t.denies || x == row;
  }

  /** Removing denies never turns a permission into a refusal, and frees a caller exactly when no
      deny of another name refuses it. */
  lemma UndenyEffectIff(rd: Reader, t: Tables, name: string, req: Request)
    ensures var u := t.(denies := WithoutDeny(t.denies, name));
            && (Allowed(rd, t, req) ==> Allowed(rd, u, req))
            && (Denied(u, req) <==>
                exists d :: && d in t.denies && !EqualFold(d.name, name) && Reaches(d, req.scope)
                            && DeniesAction(d, req.principalIds, req.context.action, true))
  {
    hide WithoutDeny, Denied, Allowed, Reaches, DeniesAction, EqualFold;
    var u := t.(denies := WithoutDeny(t.denies, name));
    WithoutDenyRows(t.denies, name);
    DeniedIff(u, req);
    MoreDeniesNarrow(rd, u, t.denies, req);
    assert u.(denies := t.denies) == t;
  }
}
