/** When the published feed decides as Evaluate does, read with the deny matcher or with the
    grant's. */
module FeedLaws {
  import opened Text
  import opened Wildcard
  import opened ActionPatterns
  import opened Scopes
  import opened Conditions
  import opened Parser
  import opened Evaluator
  import opened Directory
  import opened Decisions
  import opened DecisionLaws
  import opened RoleLaws
  import opened RoleGuard
  import opened RoleHistories

  // ---- the feed is a faithful form of the decision ----

  /** What a data plane concludes from the feed alone: a qualifying entry none of whose own
      denied permissions matches. */
  predicate FeedAllows(rd: Reader, t: Tables, req: Request) {
    exists i :: 0 <= i < |Effective(rd, t, req.scope)| &&
      Qualifies(rd, Effective(rd, t, req.scope)[i], req) &&
      !AnyPermissionDenies(Effective(rd, t, req.scope)[i].denied, req.context.action, true)
  }

  lemma AnyDeniesAppend(ps: seq<Permission>, qs: seq<Permission>, action: string)
    ensures AnyPermissionDenies(ps + qs, action, true) <==>
            AnyPermissionDenies(ps, action, true) || AnyPermissionDenies(qs, action, true)
  {
    hide PermissionDenies;
    if AnyPermissionDenies(qs, action, true) {
      var i :| 0 <= i < |qs| && PermissionDenies(qs[i], action, true);
      assert (ps + qs)[|ps| + i] == qs[i];
    }
    if AnyPermissionDenies(ps, action, true) {
      var i :| 0 <= i < |ps| && PermissionDenies(ps[i], action, true);
      assert (ps + qs)[i] == ps[i];
    }
  }

  lemma {:induction false} DeniedToExact(ds: seq<DenyAssignment>, principal: string, action: string)
    ensures AnyPermissionDenies(DeniedTo(ds, principal), action, true) <==>
            exists i :: 0 <= i < |ds| && DeniesAction(ds[i], [principal], action, true)
  {
    hide AppliesToPrincipal, AnyPermissionDenies;
    if ds == [] {
      NothingDenies(action);
    } else {
      DeniedToExact(ds[1..], principal, action);
      NothingDenies(action);
      var first := if AppliesToPrincipal(ds[0], [principal]) then ds[0].permissions else [];
      AnyDeniesAppend(first, DeniedTo(ds[1..], principal), action);
      if i :| 0 <= i < |ds[1..]| && DeniesAction(ds[1..][i], [principal], action, true) {
        assert ds[i + 1] == ds[1..][i];
      }
      if i :| 0 <= i < |ds| && DeniesAction(ds[i], [principal], action, true) {
        assert i > 0 ==> ds[1..][i - 1] == ds[i];
      }
    }
  }

  lemma NothingDenies(action: string)
    ensures !AnyPermissionDenies([], action, true)
  {}

  /** Every entry carries exactly the denies naming its own principal. */
  lemma {:induction false} EntriesCarryDenies(rd: Reader, t: Tables, scope: string, rows: seq<Assignment>)
    ensures forall e :: e in Entries(rd, t, scope, rows) ==>
            e.denied == DeniedTo(DeniesAt(t.denies, scope), e.principalId)
  {
    hide DeniesAt, DeniedTo, ScopeApplies, ResolveRoleFromId, Parse, DataActionsOf, NotDataActionsOf;
    if rows != [] {
      EntriesCarryDenies(rd, t, scope, rows[1..]);
    }
  }

  /** No deny at the scope treats the caller differently from the principal of a held entry. */
  predicate Undivided(rd: Reader, t: Tables, req: Request) {
    forall d, e :: d in DeniesAt(t.denies, req.scope) && e in Effective(rd, t, req.scope) &&
                   HoldsPrincipal(req.principalIds, e.principalId) ==>
      AppliesToPrincipal(d, [e.principalId]) == AppliesToPrincipal(d, req.principalIds)
  }

  lemma EntryDenied(rd: Reader, t: Tables, req: Request, e: EffectiveAssignment)
    requires Undivided(rd, t, req) && e in Effective(rd, t, req.scope)
    requires HoldsPrincipal(req.principalIds, e.principalId)
    ensures AnyPermissionDenies(e.denied, req.context.action, true) <==> Denied(t, req)
  {
    hide DeniesAt, DeniedTo, Effective, AppliesToPrincipal, HoldsPrincipal, AnyPermissionDenies;
    var ds := DeniesAt(t.denies, req.scope);
    EffectiveCarriesDenies(rd, t, req.scope);
    DeniedToExact(ds, e.principalId, req.context.action);
    forall i | 0 <= i < |ds|
      ensures DeniesAction(ds[i], [e.principalId], req.context.action, true) <==>
              DeniesAction(ds[i], req.principalIds, req.context.action, true)
    {
      assert ds[i] in ds;
    }
  }

  lemma EffectiveCarriesDenies(rd: Reader, t: Tables, scope: string)
    ensures forall e :: e in Effective(rd, t, scope) ==> e.denied == DeniedTo(DeniesAt(t.denies, scope), e.principalId)
  {
    EntriesCarryDenies(rd, t, scope, t.assignments);
  }

  lemma FeedFaithfulUndivided(rd: Reader, t: Tables, req: Request)
    requires Undivided(rd, t, req)
    ensures FeedAllows(rd, t, req) <==> Allowed(rd, t, req)
  {
    hide Effective, Denied, AnyPermissionDenies, GrantsAction, HoldsPrincipal, ConditionHolds, Undivided;
    var es := Effective(rd, t, req.scope);
    forall i | 0 <= i < |es| && Qualifies(rd, es[i], req)
      ensures AnyPermissionDenies(es[i].denied, req.context.action, true) <==> Denied(t, req)
    {
      EntryDenied(rd, t, req, es[i]);
    }
  }

  /** The caller's ids all name one person: empty ids name nobody, case does not matter. */
  predicate OnePerson(ids: seq<string>) {
    forall i, j :: 0 <= i < |ids| && 0 <= j < |ids| && ids[i] != "" && ids[j] != "" ==> EqualFold(ids[i], ids[j])
  }

  lemma SamePerson(ids: seq<string>, p: string, x: string)
    requires OnePerson(ids) && HoldsPrincipal(ids, p)
    ensures HoldsPrincipal([p], x) <==> HoldsPrincipal(ids, x)
  {
    var i :| 0 <= i < |ids| && ids[i] != "" && EqualFold(ids[i], p);
    assert |p| == |Lower(p)| == |Lower(ids[i])| == |ids[i]|;
    assert [p][0] == p;
    if HoldsPrincipal(ids, x) {
      var j :| 0 <= j < |ids| && ids[j] != "" && EqualFold(ids[j], x);
      assert EqualFold(ids[i], ids[j]);
    }
  }

  lemma SamePersonDenied(ids: seq<string>, p: string, d: DenyAssignment)
    requires OnePerson(ids) && HoldsPrincipal(ids, p)
    ensures AppliesToPrincipal(d, [p]) == AppliesToPrincipal(d, ids)
  {
    hide HoldsPrincipal, OnePerson;
    forall x ensures HoldsPrincipal([p], x) <==> HoldsPrincipal(ids, x) {
      SamePerson(ids, p, x);
    }
  }

  /** For a caller whose ids all name one person, the per-assignment feed decides exactly as
      Evaluate does, for every store, scope, action, context and condition. */
  lemma FeedFaithful(rd: Reader, t: Tables, req: Request)
    requires OnePerson(req.principalIds)
    ensures FeedAllows(rd, t, req) <==> Allowed(rd, t, req)
  {
    assert Undivided(rd, t, req) by {
      hide DeniesAt, Effective, AppliesToPrincipal, HoldsPrincipal, OnePerson;
      forall d, e | d in DeniesAt(t.denies, req.scope) && e in Effective(rd, t, req.scope) &&
                    HoldsPrincipal(req.principalIds, e.principalId)
        ensures AppliesToPrincipal(d, [e.principalId]) == AppliesToPrincipal(d, req.principalIds)
      {
        SamePersonDenied(req.principalIds, e.principalId, d);
      }
    }
    FeedFaithfulUndivided(rd, t, req);
  }

  // ---- callers with several ids ----

  function RootDeny(action: string, principals: seq<string>, excluded: seq<string>): DenyAssignment {
    DenyAssignment("d", "/", [Permission([], [], [action], [])], principals, excluded, false)
  }

  lemma SelfMatch(action: string)
    requires '*' !in action
    ensures AnyGlob([action], action) && !AnyGlob([], action)
    ensures PermissionDenies(Permission([], [], [action], []), action, true)
  {
    LowerKeeps(action, '*');
    MatchesItself(GLOB, Lower(action));
    MatchesItself(ACTION, Lower(action));
    GlobMeaning(Lower(action), Lower(action));
    assert Glob([action][0], action) && Covers([action][0], action);
  }

  lemma GrantFields(g: string, user: string)
    ensures var a := RootGrant(g, user);
            && a.roleId == g && a.principalId == user && a.principalType == "User" && a.scopeDisplay == "/"
            && a.condition == "" && a.conditionVersion == ""
  {
    hide Lower;
  }

  lemma OneBlock(action: string)
    ensures var ps := [Permission([], [], [action], [])];
            DataActionsOf(ps) == [action] && NotDataActionsOf(ps) == []
  {
    assert [Permission([], [], [action], [])][1..] == [];
  }

  lemma RootStoreEffective(rd: Reader, builtIns: seq<RoleDefinition>, g: string, user: string, action: string,
                           d: DenyAssignment)
    requires PlainGuid(g) && FindRole(builtIns, g).None?
    ensures Effective(rd, RootStore(builtIns, g, user, action, d), "/") ==
            [EffectiveAssignment(user, "User", "R", g, "/", [action], [], "", "", [],
                                 DeniedTo(DeniesAt([d], "/"), user))]
  {
    hide DeniedTo, DeniesAt, AppliesAt, ScopeApplies, RoleGuidOf, DataActionsOf, NotDataActionsOf, RootGrant, FindRole,
      ResolveRoleFromId, Parse;
    var t := RootStore(builtIns, g, user, action, d);
    ScopeTreeOrder("/", "/", "/");
    PlainIds(g);
    ResolvesAlone(t, g, RootRole(g, action));
    GrantFields(g, user);
    OneBlock(action);
    OneEntry(rd, t, "/", RootGrant(g, user));
  }

  lemma OneDeny(d: DenyAssignment)
    requires d.scope == "/" && !d.doNotApplyToChildScopes
    ensures DeniesAt([d], "/") == [d]
  {
    ScopeTreeOrder("/", "/", "/");
    hide ScopeApplies;
    assert [d][1..] == [];
  }

  lemma HoldsOwn(ids: seq<string>, i: nat)
    requires i < |ids| && ids[i] != ""
    ensures HoldsPrincipal(ids, ids[i]) && HoldsPrincipal([ids[i]], ids[i])
  {
    assert [ids[i]][0] == ids[i];
  }

  lemma HoldsAlone(p: string, q: string)
    requires p != "" && !EqualFold(p, q)
    ensures !HoldsPrincipal([p], q)
  {}

  lemma OnlyEntry(rd: Reader, t: Tables, req: Request, e: EffectiveAssignment)
    requires Effective(rd, t, req.scope) == [e] && Qualifies(rd, e, req)
    ensures FeedAllows(rd, t, req) <==> !AnyPermissionDenies(e.denied, req.context.action, true)
    ensures FeedAllowsByGlob(rd, t, req) <==> !SomeBlockGrants(e.denied, req.context.action)
    ensures Allowed(rd, t, req) <==> !Denied(t, req)
  {
    hide Effective, Qualifies, Denied, AnyPermissionDenies, SomeBlockGrants;
    assert [e][0] == e;
  }

  lemma OnlyDeny(t: Tables, req: Request, d: DenyAssignment)
    requires DeniesAt(t.denies, req.scope) == [d] && AnyPermissionDenies(d.permissions, req.context.action, true)
    ensures Denied(t, req) <==> AppliesToPrincipal(d, req.principalIds)
  {
    hide DeniesAt, AnyPermissionDenies, AppliesToPrincipal;
    assert [d][0] == d;
  }

  lemma OnlyPermission(p: Permission, action: string)
    requires PermissionDenies(p, action, true)
    ensures AnyPermissionDenies([p], action, true)
  {
    hide PermissionDenies;
    assert [p][0] == p;
  }

  lemma RootEntryQualifies(rd: Reader, e: EffectiveAssignment, req: Request)
    requires HoldsPrincipal(req.principalIds, e.principalId) && e.condition == ""
    requires AnyGlob(e.dataActions, req.context.action) && !AnyGlob(e.notDataActions, req.context.action)
    ensures Qualifies(rd, e, req)
  {
    hide HoldsPrincipal, AnyGlob;
  }

  /** What the two readers of a root store conclude comes down to whom the deny applies to: the
      caller with all its ids, or the assignment's principal alone. */
  lemma RootVerdicts(rd: Reader, builtIns: seq<RoleDefinition>, g: string, user: string, ids: seq<string>, c: Context,
                     d: DenyAssignment)
    requires PlainGuid(g) && FindRole(builtIns, g).None?
    requires HoldsPrincipal(ids, user) && '*' !in c.action
    requires d.scope == "/" && !d.doNotApplyToChildScopes && d.permissions == [Permission([], [], [c.action], [])]
    ensures var t, req := RootStore(builtIns, g, user, c.action, d), Decisions.Request.Request("/", ids, c);
            && (FeedAllows(rd, t, req) <==> !AppliesToPrincipal(d, [user]))
            && (Allowed(rd, t, req) <==> !AppliesToPrincipal(d, ids))
  {
    hide Effective, DeniesAt, AnyGlob, PermissionDenies, AnyPermissionDenies, HoldsPrincipal, ScopeApplies, EqualFold,
      AppliesToPrincipal, Qualifies, FeedAllows, Allowed, DeniedTo, Denied, FindRole, RootGrant;
    var t, req := RootStore(builtIns, g, user, c.action, d), Decisions.Request.Request("/", ids, c);
    RootFacts(rd, builtIns, g, user, c.action, d);
    SelfMatch(c.action);
    var e := Effective(rd, t, "/")[0];
    RootEntryQualifies(rd, e, req);
    OnlyEntry(rd, t, req, e);
    OnlyPermission(d.permissions[0], c.action);
    OnlyDeny(t, req, d);
    NothingDenies(c.action);
  }

  lemma RootFacts(rd: Reader, builtIns: seq<RoleDefinition>, g: string, user: string, action: string, d: DenyAssignment)
    requires PlainGuid(g) && FindRole(builtIns, g).None?
    requires d.scope == "/" && !d.doNotApplyToChildScopes
    ensures DeniesAt([d], "/") == [d]
    ensures DeniedTo([d], user) == if AppliesToPrincipal(d, [user]) then d.permissions else []
    ensures Effective(rd, RootStore(builtIns, g, user, action, d), "/") ==
            [EffectiveAssignment(user, "User", "R", g, "/", [action], [], "", "", [], DeniedTo([d], user))]
  {
    hide DeniesAt, Effective, AppliesToPrincipal, FindRole;
    OneDeny(d);
    RootStoreEffective(rd, builtIns, g, user, action, d);
    assert [d][1..] == [];
  }

  /** From an empty store over any catalogue: a deny on a caller's group does not ride along with the
      assignment to the caller, so the feed entry allows what Evaluate refuses. */
  lemma GroupDenyMissedByFeed(rd: Reader, builtIns: seq<RoleDefinition>, user: string, group: string, c: Context)
    requires user != "" && group != "" && !EqualFold(user, group) && '*' !in c.action && group != ALL_PRINCIPALS
    ensures var es := RootHistory(NewGuid(builtIns), user, c.action, RootDeny(c.action, [group], []));
            var t, req := Run(rd, Empty(builtIns), es), Decisions.Request.Request("/", [user, group], c);
            FeedAllows(rd, t, req) && !Allowed(rd, t, req)
  {
    hide FeedAllows, Allowed, EqualFold, HoldsPrincipal, Run, FindRole, RootStore, RootHistory;
    var g, d, ids := NewGuid(builtIns), RootDeny(c.action, [group], []), [user, group];
    LongGuidIsNew(builtIns, g);
    RootReached(rd, builtIns, g, user, c.action, d);
    HoldsOwn(ids, 0);
    HoldsOwn(ids, 1);
    HoldsAlone(user, group);
    RootVerdicts(rd, builtIns, g, user, ids, c, d);
    assert d.principals[0] == group;
  }

  /** From an empty store over any catalogue: an exclusion through another of the caller's ids does
      not reach the entry either, so the feed refuses what Evaluate allows. */
  lemma ExclusionMissedByFeed(rd: Reader, builtIns: seq<RoleDefinition>, ids: seq<string>, i: nat, j: nat, c: Context)
    requires i < |ids| && j < |ids| && ids[i] != "" && ids[j] != "" && !EqualFold(ids[i], ids[j])
    requires '*' !in c.action
    ensures var d := RootDeny(c.action, [ALL_PRINCIPALS], [ids[j]]);
            var es := RootHistory(NewGuid(builtIns), ids[i], c.action, d);
            var t, req := Run(rd, Empty(builtIns), es), Decisions.Request.Request("/", ids, c);
            !FeedAllows(rd, t, req) && Allowed(rd, t, req)
  {
    hide FeedAllows, Allowed, EqualFold, HoldsPrincipal, Run, FindRole, RootStore, RootHistory;
    var g, d := NewGuid(builtIns), RootDeny(c.action, [ALL_PRINCIPALS], [ids[j]]);
    LongGuidIsNew(builtIns, g);
    RootReached(rd, builtIns, g, ids[i], c.action, d);
    HoldsOwn(ids, i);
    HoldsOwn(ids, j);
    HoldsAlone(ids[i], ids[j]);
    RootVerdicts(rd, builtIns, g, ids[i], ids, c, d);
    assert d.excludePrincipals[0] == ids[j] && d.principals[0] == ALL_PRINCIPALS;
  }

  /** The feed's entries can stand in for Evaluate for a caller, in every store reached over the
      catalogue and for every request. */
  ghost predicate FeedServes(rd: Reader, builtIns: seq<RoleDefinition>, ids: seq<string>) {
    forall es, scope, c ::
      FeedAllows(rd, Run(rd, Empty(builtIns), es), Decisions.Request.Request(scope, ids, c)) <==>
      Allowed(rd, Run(rd, Empty(builtIns), es), Decisions.Request.Request(scope, ids, c))
  }

  /** Whatever the catalogue, the entries serve exactly the callers whose ids all name one person. */
  lemma FeedServesIff(rd: Reader, builtIns: seq<RoleDefinition>, ids: seq<string>)
    ensures FeedServes(rd, builtIns, ids) <==> OnePerson(ids)
  {
    hide FeedAllows, Allowed, EqualFold, Run, RootHistory;
    if OnePerson(ids) {
      forall es, scope, c
        ensures FeedAllows(rd, Run(rd, Empty(builtIns), es), Decisions.Request.Request(scope, ids, c)) <==>
                Allowed(rd, Run(rd, Empty(builtIns), es), Decisions.Request.Request(scope, ids, c))
      {
        FeedFaithful(rd, Run(rd, Empty(builtIns), es), Decisions.Request.Request(scope, ids, c));
      }
    } else {
      var i, j :| 0 <= i < |ids| && 0 <= j < |ids| && ids[i] != "" && ids[j] != "" && !EqualFold(ids[i], ids[j]);
      var c := Context("read", "", map[]);
      ExclusionMissedByFeed(rd, builtIns, ids, i, j, c);
      var d := RootDeny(c.action, [ALL_PRINCIPALS], [ids[j]]);
      var es := RootHistory(NewGuid(builtIns), ids[i], c.action, d);
      assert !(FeedAllows(rd, Run(rd, Empty(builtIns), es), Decisions.Request.Request("/", ids, c)) <==>
               Allowed(rd, Run(rd, Empty(builtIns), es), Decisions.Request.Request("/", ids, c)));
    }
  }

  // ---- the whole published document ----

  /** The document also lists every deny reaching the scope, for callers who meet one through a group.
      This is what a data plane concludes that consults both the entry and that list. */
  predicate DocumentAllows(rd: Reader, t: Tables, req: Request) {
    FeedAllows(rd, t, req) && !Denied(t, req)
  }

  ghost predicate DocumentServes(rd: Reader, builtIns: seq<RoleDefinition>, ids: seq<string>) {
    forall es, scope, c ::
      DocumentAllows(rd, Run(rd, Empty(builtIns), es), Decisions.Request.Request(scope, ids, c)) <==>
      Allowed(rd, Run(rd, Empty(builtIns), es), Decisions.Request.Request(scope, ids, c))
  }

  /** Read whole, the document never allows what Evaluate refuses. */
  lemma DocumentIsSafe(rd: Reader, t: Tables, req: Request)
    ensures DocumentAllows(rd, t, req) ==> Allowed(rd, t, req)
  {
    hide Effective, Qualifies, AnyPermissionDenies, Denied;
  }

  /** It still refuses more, through exclusions, exactly for callers whose ids name several people. */
  lemma DocumentServesIff(rd: Reader, builtIns: seq<RoleDefinition>, ids: seq<string>)
    ensures DocumentServes(rd, builtIns, ids) <==> OnePerson(ids)
  {
    hide FeedAllows, Denied, EqualFold, Run, RootHistory, AnyQualifies, Effective;
    if OnePerson(ids) {
      forall es, scope, c
        ensures DocumentAllows(rd, Run(rd, Empty(builtIns), es), Decisions.Request.Request(scope, ids, c)) <==>
                Allowed(rd, Run(rd, Empty(builtIns), es), Decisions.Request.Request(scope, ids, c))
      {
        FeedFaithful(rd, Run(rd, Empty(builtIns), es), Decisions.Request.Request(scope, ids, c));
      }
    } else {
      var i, j :| 0 <= i < |ids| && 0 <= j < |ids| && ids[i] != "" && ids[j] != "" && !EqualFold(ids[i], ids[j]);
      var c := Context("read", "", map[]);
      ExclusionMissedByFeed(rd, builtIns, ids, i, j, c);
      var d := RootDeny(c.action, [ALL_PRINCIPALS], [ids[j]]);
      var es := RootHistory(NewGuid(builtIns), ids[i], c.action, d);
      assert !(DocumentAllows(rd, Run(rd, Empty(builtIns), es), Decisions.Request.Request("/", ids, c)) <==>
               Allowed(rd, Run(rd, Empty(builtIns), es), Decisions.Request.Request("/", ids, c)));
    }
  }

  // ---- the denied list read with the grant's own matcher ----

  /** The feed read by a data plane that has one matcher and applies it to `denied` as well. */
  predicate FeedAllowsByGlob(rd: Reader, t: Tables, req: Request) {
    exists i :: 0 <= i < |Effective(rd, t, req.scope)| &&
      Qualifies(rd, Effective(rd, t, req.scope)[i], req) &&
      !SomeBlockGrants(Effective(rd, t, req.scope)[i].denied, req.context.action)
  }

  /** Every data action the permission mentions, denied or carved out, is one of the patterns. */
  predicate Within(p: Permission, patterns: set<string>) {
    (forall x :: x in p.dataActions ==> x in patterns) && (forall x :: x in p.notDataActions ==> x in patterns)
  }

  predicate Mentions(d: DenyAssignment, patterns: set<string>) {
    forall p :: p in d.permissions ==> Within(p, patterns)
  }

  predicate PlainPatterns(patterns: set<string>) {
    forall x :: x in patterns ==> '?' !in x
  }

  lemma SamePatterns(xs: seq<string>, action: string)
    requires '*' !in action && forall x :: x in xs ==> '?' !in x
    ensures AnyGlob(xs, action) <==> AnyCovers(xs, action)
  {
    hide Glob, Covers;
    forall i | 0 <= i < |xs| ensures Glob(xs[i], action) <==> Covers(xs[i], action) {
      assert xs[i] in xs;
      GrantsAndDeniesAgreeIff(xs[i]);
    }
  }

  lemma {:induction false} DeniedIsMentioned(ds: seq<DenyAssignment>, principal: string, patterns: set<string>)
    requires forall d :: d in ds ==> Mentions(d, patterns)
    ensures forall p :: p in DeniedTo(ds, principal) ==> Within(p, patterns)
  {
    hide AppliesToPrincipal, Within;
    if ds != [] {
      assert ds[0] in ds;
      DeniedIsMentioned(ds[1..], principal, patterns);
    }
  }

  lemma SameDenied(ps: seq<Permission>, patterns: set<string>, action: string)
    requires '*' !in action && PlainPatterns(patterns)
    requires forall p :: p in ps ==> Within(p, patterns)
    ensures AnyPermissionDenies(ps, action, true) <==> SomeBlockGrants(ps, action)
  {
    hide AnyGlob, AnyCovers;
    forall i | 0 <= i < |ps| ensures PermissionDenies(ps[i], action, true) <==> BlockGrants(ps[i], action) {
      assert ps[i] in ps;
      SamePatterns(ps[i].dataActions, action);
      SamePatterns(ps[i].notDataActions, action);
    }
  }

  lemma GlobReadingFaithful(rd: Reader, t: Tables, req: Request, patterns: set<string>)
    requires PlainPatterns(patterns) && forall d :: d in t.denies ==> Mentions(d, patterns)
    requires OnePerson(req.principalIds) && '*' !in req.context.action
    ensures FeedAllowsByGlob(rd, t, req) <==> Allowed(rd, t, req)
  {
    hide Effective, DeniesAt, DeniedTo, Mentions, Within, Qualifies, AnyPermissionDenies, SomeBlockGrants, OnePerson,
      Allowed;
    FeedFaithful(rd, t, req);
    var es, ds := Effective(rd, t, req.scope), DeniesAt(t.denies, req.scope);
    EffectiveCarriesDenies(rd, t, req.scope);
    ReachingAreStored(t.denies, req.scope);
    forall i | 0 <= i < |es|
      ensures AnyPermissionDenies(es[i].denied, req.context.action, true) <==>
              SomeBlockGrants(es[i].denied, req.context.action)
    {
      assert es[i] in es;
      DeniedIsMentioned(ds, es[i].principalId, patterns);
      SameDenied(es[i].denied, patterns, req.context.action);
    }
  }

  lemma ReachingAreStored(denies: seq<DenyAssignment>, scope: string)
    ensures forall d :: d in DeniesAt(denies, scope) ==> d in denies
  {}

  /** One deny on one person at the root, by one pattern. */
  function PatternDeny(user: string, pattern: string): DenyAssignment {
    DenyAssignment("d", "/", [Permission([], [], [pattern], [])], [user], [], false)
  }

  lemma OnePattern(pattern: string, action: string)
    ensures var ps := [Permission([], [], [pattern], [])];
            && (AnyPermissionDenies(ps, action, true) <==> Covers(pattern, action))
            && (SomeBlockGrants(ps, action) <==> Glob(pattern, action))
  {
    hide Covers, Glob;
    var p := Permission([], [], [pattern], []);
    assert [p][0] == p && [pattern][0] == pattern;
    assert AnyCovers([pattern], action) <==> Covers(pattern, action);
    assert AnyGlob([pattern], action) <==> Glob(pattern, action);
  }

  lemma PatternVerdicts(rd: Reader, builtIns: seq<RoleDefinition>, g: string, pattern: string, action: string)
    requires PlainGuid(g) && FindRole(builtIns, g).None? && '*' !in action
    ensures var t := RootStore(builtIns, g, "u", action, PatternDeny("u", pattern));
            var req := Decisions.Request.Request("/", ["u"], Context(action, "", map[]));
            && OnePerson(req.principalIds)
            && (FeedAllowsByGlob(rd, t, req) <==> !Glob(pattern, action))
            && (Allowed(rd, t, req) <==> !Covers(pattern, action))
  {
    hide Effective, DeniesAt, AnyGlob, PermissionDenies, AnyPermissionDenies, HoldsPrincipal, ScopeApplies, EqualFold,
      Qualifies, Allowed, DeniedTo, Denied, SomeBlockGrants, Glob, Covers, FindRole, RootGrant;
    var d, c := PatternDeny("u", pattern), Context(action, "", map[]);
    var t, req := RootStore(builtIns, g, "u", action, d), Decisions.Request.Request("/", ["u"], c);
    HoldsOwn(["u"], 0);
    OnlyMe("u");
    RootFacts(rd, builtIns, g, "u", action, d);
    SelfMatch(action);
    var e := Effective(rd, t, "/")[0];
    assert AppliesToPrincipal(d, ["u"]) by {
      assert d.principals[0] == "u";
    }
    RootEntryQualifies(rd, e, req);
    OnlyEntry(rd, t, req, e);
    OnePattern(pattern, action);
    FeedFaithful(rd, t, req);
  }

  lemma OnlyMe(p: string)
    ensures OnePerson([p])
  {}

  /** Reading `denied` with the grant's matcher serves one-person callers, on every action free of
      '*', in every store reached over the catalogue whose denies mention only these patterns. */
  ghost predicate GlobReadingServes(rd: Reader, builtIns: seq<RoleDefinition>, patterns: set<string>) {
    forall es, req: Request ::
      && (forall d :: d in Run(rd, Empty(builtIns), es).denies ==> Mentions(d, patterns))
      && OnePerson(req.principalIds) && '*' !in req.context.action ==>
      (FeedAllowsByGlob(rd, Run(rd, Empty(builtIns), es), req) <==> Allowed(rd, Run(rd, Empty(builtIns), es), req))
  }

  /** For those callers and actions the data plane's own matcher applies unchanged to `denied`
      exactly when no deny uses '?'. */
  lemma GlobReadingServesIff(rd: Reader, builtIns: seq<RoleDefinition>, patterns: set<string>)
    ensures GlobReadingServes(rd, builtIns, patterns) <==> PlainPatterns(patterns)
  {
    hide FeedAllowsByGlob, Allowed, Mentions, OnePerson, Glob, Covers, Run, RootHistory, FindRole;
    if PlainPatterns(patterns) {
      forall es, req: Request |
        && (forall d :: d in Run(rd, Empty(builtIns), es).denies ==> Mentions(d, patterns))
        && OnePerson(req.principalIds) && '*' !in req.context.action
        ensures FeedAllowsByGlob(rd, Run(rd, Empty(builtIns), es), req) <==>
                Allowed(rd, Run(rd, Empty(builtIns), es), req)
      {
        GlobReadingFaithful(rd, Run(rd, Empty(builtIns), es), req, patterns);
      }
    } else {
      var pattern :| pattern in patterns && '?' in pattern;
      GrantsAndDeniesAgreeIff(pattern);
      var action :| '*' !in action && !(Glob(pattern, action) <==> Covers(pattern, action));
      var g, d := NewGuid(builtIns), PatternDeny("u", pattern);
      LongGuidIsNew(builtIns, g);
      PatternVerdicts(rd, builtIns, g, pattern, action);
      RootReached(rd, builtIns, g, "u", action, d);
      MentionsItsPattern("u", pattern, patterns);
      var es, req := RootHistory(g, "u", action, d), Decisions.Request.Request("/", ["u"], Context(action, "", map[]));
      assert Run(rd, Empty(builtIns), es).denies == [d];
      assert !(FeedAllowsByGlob(rd, Run(rd, Empty(builtIns), es), req) <==>
               Allowed(rd, Run(rd, Empty(builtIns), es), req));
    }
  }

  lemma MentionsItsPattern(user: string, pattern: string, patterns: set<string>)
    requires pattern in patterns
    ensures Mentions(PatternDeny(user, pattern), patterns)
  {}
}
