/** Which way decisions may move. */
module DecisionLaws {
  import opened Text
  import opened Wildcard
  import opened Scopes
  import opened Conditions
  import opened Parser
  import opened Rendering
  import opened Joining
  import opened Evaluator
  import opened Directory
  import opened Decisions

  // ---- which way decisions move ----

  /** An entry as far as granting goes. */
  function Core(e: EffectiveAssignment): EffectiveAssignment {
    e.(denied := [])
  }

  function Cores(es: seq<EffectiveAssignment>): (r: seq<EffectiveAssignment>)
    ensures |r| == |es| && forall i :: 0 <= i < |es| ==> r[i] == Core(es[i])
  {
    seq(|es|, i requires 0 <= i < |es| => Core(es[i]))
  }

  /** Denies do not change which entries there are or what they grant. */
  lemma {:induction false} EntriesIgnoreDenies(rd: Reader, t: Tables, u: Tables, scope: string, rows: seq<Assignment>)
    requires t.builtIns == u.builtIns && t.customs == u.customs
    ensures Cores(Entries(rd, t, scope, rows)) == Cores(Entries(rd, u, scope, rows))
    ensures t.denies == u.denies ==> Entries(rd, t, scope, rows) == Entries(rd, u, scope, rows)
  {
    hide DeniesAt, ScopeApplies, EntryFor;
    if rows != [] {
      EntriesIgnoreDenies(rd, t, u, scope, rows[1..]);
      EntryIgnoresDenies(rd, t, u, DeniesAt(t.denies, scope), DeniesAt(u.denies, scope), rows[0]);
    }
  }

  lemma EntryIgnoresDenies(rd: Reader, t: Tables, u: Tables, ds: seq<DenyAssignment>, es: seq<DenyAssignment>,
                           a: Assignment)
    requires t.builtIns == u.builtIns && t.customs == u.customs
    ensures var e, f := EntryFor(rd, t, ds, a), EntryFor(rd, u, es, a);
            && e.Some? == f.Some? && (e.Some? ==> Core(e.value) == Core(f.value))
            && (ds == es ==> e == f)
  {
    hide DeniedTo, Parse, DataActionsOf, NotDataActionsOf, RoleGuidOf, FindRole;
  }

  lemma CoreQualifies(rd: Reader, es: seq<EffectiveAssignment>, fs: seq<EffectiveAssignment>, req: Request)
    requires Cores(es) == Cores(fs)
    ensures AnyQualifies(rd, es, req) <==> AnyQualifies(rd, fs, req)
  {
    hide ConditionHolds, HoldsPrincipal, AnyGlob;
    assert |es| == |Cores(es)| == |fs|;
    forall i | 0 <= i < |es| ensures Qualifies(rd, es[i], req) <==> Qualifies(rd, fs[i], req) {
      assert Core(es[i]) == Cores(es)[i] == Core(fs[i]);
    }
  }

  /** More denies, wherever they are listed, never turn a refusal into a permission. */
  lemma MoreDeniesNarrow(rd: Reader, t: Tables, denies: seq<DenyAssignment>, req: Request)
    requires forall d :: d in t.denies ==> d in denies
    ensures Allowed(rd, t.(denies := denies), req) ==> Allowed(rd, t, req)
  {
    var u := t.(denies := denies);
    hide Entries, Denied, AnyQualifies;
    DeniedGrows(t, u, req);
    EntriesIgnoreDenies(rd, t, u, req.scope, t.assignments);
    CoreQualifies(rd, Effective(rd, u, req.scope), Effective(rd, t, req.scope), req);
  }

  lemma DeniedGrows(t: Tables, u: Tables, req: Request)
    requires forall d :: d in t.denies ==> d in u.denies
    ensures Denied(t, req) ==> Denied(u, req)
  {
    hide AppliesAt, DeniesAction;
    if Denied(t, req) {
      var d :| d in DeniesAt(t.denies, req.scope) && DeniesAction(d, req.principalIds, req.context.action, true);
      assert d in DeniesAt(u.denies, req.scope);
    }
  }

  lemma {:induction false} EntriesConcat(rd: Reader, t: Tables, scope: string, xs: seq<Assignment>, ys: seq<Assignment>)
    ensures Entries(rd, t, scope, xs + ys) == Entries(rd, t, scope, xs) + Entries(rd, t, scope, ys)
  {
    hide EntryFor, DeniesAt, ScopeApplies;
    if xs == [] {
      assert xs + ys == ys;
    } else {
      assert (xs + ys)[1..] == xs[1..] + ys;
      EntriesConcat(rd, t, scope, xs[1..], ys);
    }
  }

  lemma AnyQualifiesConcat(rd: Reader, es: seq<EffectiveAssignment>, fs: seq<EffectiveAssignment>, req: Request)
    ensures AnyQualifies(rd, es + fs, req) <==> AnyQualifies(rd, es, req) || AnyQualifies(rd, fs, req)
  {
    hide Qualifies;
    if i :| 0 <= i < |es| && Qualifies(rd, es[i], req) {
      assert (es + fs)[i] == es[i];
    }
    if i :| 0 <= i < |fs| && Qualifies(rd, fs[i], req) {
      assert (es + fs)[|es| + i] == fs[i];
    }
  }

  /** One more assignment, anywhere in the table, never turns a permission into a refusal. */
  lemma MoreAssignmentsWiden(rd: Reader, t: Tables, before: seq<Assignment>, a: Assignment, after: seq<Assignment>,
                             req: Request)
    requires t.assignments == before + after
    ensures Allowed(rd, t, req) ==> Allowed(rd, t.(assignments := before + [a] + after), req)
  {
    hide Entries, Denied, AnyQualifies;
    var u := t.(assignments := before + [a] + after);
    DeniedIgnoresAssignments(t, u, req);
    EntriesConcat(rd, t, req.scope, before, after);
    EntriesConcat(rd, u, req.scope, before + [a], after);
    EntriesConcat(rd, u, req.scope, before, [a]);
    EntriesIgnoreDenies(rd, t, u, req.scope, before);
    EntriesIgnoreDenies(rd, t, u, req.scope, after);
    var es, fs := Entries(rd, t, req.scope, before), Entries(rd, t, req.scope, after);
    var x := Entries(rd, u, req.scope, [a]);
    AnyQualifiesConcat(rd, es, fs, req);
    AnyQualifiesConcat(rd, es + x, fs, req);
    AnyQualifiesConcat(rd, es, x, req);
  }

  lemma DeniedIgnoresAssignments(t: Tables, u: Tables, req: Request)
    requires t.denies == u.denies
    ensures Denied(t, req) == Denied(u, req)
  {}

  /** Conjoining two parseable conditions as text means both. */
  lemma ConjoinMeansBoth(rd: Reader, a: string, b: string, c: Context)
    requires a != "" && b != "" && Parse(rd, a).Ok? && Parse(rd, b).Ok?
    ensures ConditionHolds(rd, Conjoin(a, b), c) <==> ConditionHolds(rd, a, c) && ConditionHolds(rd, b, c)
  {
    hide Parse, Sane;
    ConjoinParses(rd, a, b);
    assert Conjoin(a, b) != "";
    var x, y := Parse(rd, a).value, Parse(rd, b).value;
    ParsedIsSane(rd, a, x);
    ParsedIsSane(rd, b, y);
    SaneIsEvaluable(rd, x);
    SaneIsEvaluable(rd, y);
  }

  /** The guard as administrators write it: operations the pattern misses pass whatever the
      attributes are, the others are decided by the rest. */
  lemma GuardTextScopes(rd: Reader, pattern: string, rest: string, c: Context)
    requires '\'' !in pattern && Parse(rd, rest).Ok?
    ensures ConditionHolds(rd, GuardText(pattern, rest), c) <==> !Glob(pattern, c.action) || ConditionHolds(rd, rest, c)
  {
    assert rest != "" by {
      assert TrimSpace("") == "";
    }
    hide Parse, Sane, Joined, MatchText, Glob;
    GuardParses(rd, pattern, rest);
    var root := Parse(rd, rest).value;
    ParsedIsSane(rd, rest, root);
    SaneIsEvaluable(rd, root);
    GuardScopes(rd, pattern, root, c);
  }

  /** The assignment with its condition made stricter by `extra`. */
  function Narrowed(a: Assignment, extra: string): Assignment {
    a.(condition := if a.condition == "" then extra else Conjoin(a.condition, extra))
  }

  lemma NarrowedQualifies(rd: Reader, t: Tables, ds: seq<DenyAssignment>, a: Assignment, extra: string, req: Request)
    requires a.condition == "" || (Parse(rd, a.condition).Ok? && extra != "" && Parse(rd, extra).Ok?)
    requires var e := EntryFor(rd, t, ds, Narrowed(a, extra)); e.Some? && Qualifies(rd, e.value, req)
    ensures var e := EntryFor(rd, t, ds, a); e.Some? && Qualifies(rd, e.value, req)
  {
    hide Parse, ResolveRoleFromId, DataActionsOf, NotDataActionsOf, DeniedTo, HoldsPrincipal, AnyGlob, Conjoin;
    if a.condition != "" {
      ConjoinMeansBoth(rd, a.condition, extra, req.context);
    }
    hide ConditionHolds;
    assert ConditionHolds(rd, a.condition, req.context) by { NoConditionHolds(rd, req.context); }
  }

  lemma NoConditionHolds(rd: Reader, c: Context)
    ensures ConditionHolds(rd, "", c)
  {}

  /** Conjoining a condition onto a stored assignment never widens what anyone may do. */
  lemma NarrowingNeverWidens(rd: Reader, t: Tables, i: nat, extra: string, req: Request)
    requires i < |t.assignments|
    requires var a := t.assignments[i];
             a.condition == "" || (Parse(rd, a.condition).Ok? && extra != "" && Parse(rd, extra).Ok?)
    ensures Allowed(rd, t.(assignments := t.assignments[i := Narrowed(t.assignments[i], extra)]), req) ==>
            Allowed(rd, t, req)
  {
    hide Entries, Denied, AnyQualifies, Narrowed, Parse;
    var a := t.assignments[i];
    var b := Narrowed(a, extra);
    var u := t.(assignments := t.assignments[i := b]);
    var before, after := t.assignments[..i], t.assignments[i + 1..];
    DeniedIgnoresAssignments(t, u, req);
    assert t.assignments == before + [a] + after && u.assignments == before + [b] + after;
    EntriesConcat(rd, t, req.scope, before + [a], after);
    EntriesConcat(rd, t, req.scope, before, [a]);
    EntriesConcat(rd, u, req.scope, before + [b], after);
    EntriesConcat(rd, u, req.scope, before, [b]);
    EntriesIgnoreDenies(rd, t, u, req.scope, before);
    EntriesIgnoreDenies(rd, t, u, req.scope, after);
    EntriesIgnoreDenies(rd, t, u, req.scope, [b]);
    var es, fs := Entries(rd, t, req.scope, before), Entries(rd, t, req.scope, after);
    var x, y := Entries(rd, t, req.scope, [a]), Entries(rd, t, req.scope, [b]);
    AnyQualifiesConcat(rd, es + x, fs, req);
    AnyQualifiesConcat(rd, es, x, req);
    AnyQualifiesConcat(rd, es + y, fs, req);
    AnyQualifiesConcat(rd, es, y, req);
    NarrowedRow(rd, t, a, extra, req);
  }

  lemma OneEntry(rd: Reader, t: Tables, scope: string, a: Assignment)
    ensures var e := EntryFor(rd, t, DeniesAt(t.denies, scope), a);
            Entries(rd, t, scope, [a]) == if ScopeApplies(a.scopeDisplay, scope) && e.Some? then [e.value] else []
  {
    hide EntryFor, DeniesAt, ScopeApplies;
    assert [a][1..] == [];
  }

  lemma NarrowedRow(rd: Reader, t: Tables, a: Assignment, extra: string, req: Request)
    requires a.condition == "" || (Parse(rd, a.condition).Ok? && extra != "" && Parse(rd, extra).Ok?)
    ensures AnyQualifies(rd, Entries(rd, t, req.scope, [Narrowed(a, extra)]), req) ==>
            AnyQualifies(rd, Entries(rd, t, req.scope, [a]), req)
  {
    hide Entries, EntryFor, DeniesAt, ScopeApplies, Qualifies, Parse;
    var ds := DeniesAt(t.denies, req.scope);
    OneEntry(rd, t, req.scope, a);
    OneEntry(rd, t, req.scope, Narrowed(a, extra));
    var e, f := EntryFor(rd, t, ds, Narrowed(a, extra)), EntryFor(rd, t, ds, a);
    if AnyQualifies(rd, Entries(rd, t, req.scope, [Narrowed(a, extra)]), req) {
      NarrowedQualifies(rd, t, ds, a, extra, req);
      assert [f.value][0] == f.value;
    }
  }

  // ---- flattening permission blocks ----

  /** One permission block taken by itself. */
  predicate BlockGrants(p: Permission, action: string) {
    AnyGlob(p.dataActions, action) && !AnyGlob(p.notDataActions, action)
  }

  predicate SomeBlockGrants(ps: seq<Permission>, action: string) {
    exists i :: 0 <= i < |ps| && BlockGrants(ps[i], action)
  }

  predicate SomeBlockCarvesOut(ps: seq<Permission>, action: string) {
    exists i :: 0 <= i < |ps| && AnyGlob(ps[i].notDataActions, action)
  }

  predicate FlatGrants(ps: seq<Permission>, action: string) {
    AnyGlob(DataActionsOf(ps), action) && !AnyGlob(NotDataActionsOf(ps), action)
  }

  lemma AnyGlobConcat(xs: seq<string>, ys: seq<string>, action: string)
    ensures AnyGlob(xs + ys, action) <==> AnyGlob(xs, action) || AnyGlob(ys, action)
  {
    hide Glob;
    if i :| 0 <= i < |xs| && Glob(xs[i], action) {
      assert (xs + ys)[i] == xs[i];
    }
    if i :| 0 <= i < |ys| && Glob(ys[i], action) {
      assert (xs + ys)[|xs| + i] == ys[i];
    }
  }

  lemma {:induction false} FlattenExact(ps: seq<Permission>, action: string)
    ensures AnyGlob(DataActionsOf(ps), action) <==> exists i :: 0 <= i < |ps| && AnyGlob(ps[i].dataActions, action)
    ensures AnyGlob(NotDataActionsOf(ps), action) <==> SomeBlockCarvesOut(ps, action)
  {
    if ps == [] {
      assert !AnyGlob([], action);
    } else {
      hide AnyGlob;
      FlattenExact(ps[1..], action);
      AnyGlobConcat(ps[0].dataActions, DataActionsOf(ps[1..]), action);
      AnyGlobConcat(ps[0].notDataActions, NotDataActionsOf(ps[1..]), action);
      assert forall i :: 1 <= i < |ps| ==> ps[i] == ps[1..][i - 1];
      assert forall i :: 0 <= i < |ps[1..]| ==> ps[1..][i] == ps[i + 1];
    }
  }

  /** Flattening never grants what no block grants, and loses a grant exactly when some block
      carves the action out. */
  lemma FlattenIff(ps: seq<Permission>, action: string)
    ensures FlatGrants(ps, action) <==> SomeBlockGrants(ps, action) && !SomeBlockCarvesOut(ps, action)
  {
    hide AnyGlob;
    FlattenExact(ps, action);
    if i :| 0 <= i < |ps| && AnyGlob(ps[i].dataActions, action) {
      assert BlockGrants(ps[i], action) || SomeBlockCarvesOut(ps, action);
    }
  }

  // ---- inheritance ----

  /** Grants inherit downward: what qualifies at a scope qualifies at every scope beneath it. */
  lemma {:induction false} EntriesInherit(rd: Reader, t: Tables, upper: string, lower: string, rows: seq<Assignment>,
                                          req: Request)
    requires ScopeApplies(upper, lower)
    ensures AnyQualifies(rd, Entries(rd, t, upper, rows), req) ==> AnyQualifies(rd, Entries(rd, t, lower, rows), req)
  {
    hide EntryFor, DeniesAt, ScopeApplies, Entries, AnyQualifies;
    if rows == [] {
      NoRows(rd, t, upper);
      NothingQualifies(rd, req);
    } else {
      EntriesInherit(rd, t, upper, lower, rows[1..], req);
      assert rows == [rows[0]] + rows[1..];
      EntriesConcat(rd, t, upper, [rows[0]], rows[1..]);
      EntriesConcat(rd, t, lower, [rows[0]], rows[1..]);
      var es, fs := Entries(rd, t, upper, [rows[0]]), Entries(rd, t, lower, [rows[0]]);
      AnyQualifiesConcat(rd, es, Entries(rd, t, upper, rows[1..]), req);
      AnyQualifiesConcat(rd, fs, Entries(rd, t, lower, rows[1..]), req);
      RowInherits(rd, t, upper, lower, rows[0], req);
    }
  }

  lemma RowInherits(rd: Reader, t: Tables, upper: string, lower: string, a: Assignment, req: Request)
    requires ScopeApplies(upper, lower)
    ensures AnyQualifies(rd, Entries(rd, t, upper, [a]), req) ==> AnyQualifies(rd, Entries(rd, t, lower, [a]), req)
  {
    hide EntryFor, DeniesAt, ScopeApplies, Entries, Qualifies, AnyQualifies;
    var ds, es := DeniesAt(t.denies, upper), DeniesAt(t.denies, lower);
    OneEntry(rd, t, upper, a);
    OneEntry(rd, t, lower, a);
    ScopeTreeOrder(a.scopeDisplay, upper, lower);
    EntryIgnoresDenies(rd, t, t, ds, es, a);
    NothingQualifies(rd, req);
    if ScopeApplies(a.scopeDisplay, upper) && EntryFor(rd, t, ds, a).Some? {
      var e, f := EntryFor(rd, t, ds, a).value, EntryFor(rd, t, es, a).value;
      OneCore(e, f);
      CoreQualifies(rd, [e], [f], req);
    }
  }

  lemma NoRows(rd: Reader, t: Tables, scope: string)
    ensures Entries(rd, t, scope, []) == []
  {}

  lemma NothingQualifies(rd: Reader, req: Request)
    ensures !AnyQualifies(rd, [], req)
  {}

  lemma OneCore(e: EffectiveAssignment, f: EffectiveAssignment)
    requires Core(e) == Core(f)
    ensures Cores([e]) == Cores([f])
  {
    assert Cores([e])[0] == Cores([f])[0];
  }

  /** A caller allowed at a scope is allowed beneath it, unless a deny reaches it there. */
  lemma DecisionsInherit(rd: Reader, t: Tables, req: Request, lower: string)
    ensures ScopeApplies(req.scope, lower) && Allowed(rd, t, req) ==>
            var below := req.(scope := lower); Allowed(rd, t, below) <==> !Denied(t, below)
  {
    hide Denied, AnyQualifies, Entries, ScopeApplies;
    if ScopeApplies(req.scope, lower) {
      EntriesInherit(rd, t, req.scope, lower, t.assignments, req);
      ScopeIsIrrelevant(rd, Effective(rd, t, lower), req, lower);
    }
  }

  lemma ScopeIsIrrelevant(rd: Reader, es: seq<EffectiveAssignment>, req: Request, scope: string)
    ensures AnyQualifies(rd, es, req) <==> AnyQualifies(rd, es, req.(scope := scope))
  {
    hide HoldsPrincipal, AnyGlob, ConditionHolds;
    var other := req.(scope := scope);
    assert forall i :: 0 <= i < |es| ==> (Qualifies(rd, es[i], req) <==> Qualifies(rd, es[i], other));
  }

  // ---- rows that grant nothing ----

  lemma BrokenHasNoEntry(rd: Reader, t: Tables, ds: seq<DenyAssignment>, a: Assignment, c: Context)
    requires ResolveRoleFromId(t, a.roleId).None? || (a.condition != "" && Parse(rd, a.condition).Err?)
    ensures EntryFor(rd, t, ds, a).None?
    ensures a.condition != "" && Parse(rd, a.condition).Err? ==> !ConditionHolds(rd, a.condition, c)
  {
    hide Parse, ResolveRoleFromId, DataActionsOf, NotDataActionsOf, DeniedTo;
  }

  /** An assignment whose role no longer resolves, or whose condition no longer parses, is as good as
      not stored. */
  lemma BrokenRowsGrantNothing(rd: Reader, t: Tables, before: seq<Assignment>, a: Assignment, after: seq<Assignment>,
                               req: Request)
    requires t.assignments == before + [a] + after
    requires ResolveRoleFromId(t, a.roleId).None? || (a.condition != "" && Parse(rd, a.condition).Err?)
    ensures Effective(rd, t, req.scope) == Effective(rd, t.(assignments := before + after), req.scope)
    ensures Allowed(rd, t, req) <==> Allowed(rd, t.(assignments := before + after), req)
    ensures a.condition != "" && Parse(rd, a.condition).Err? ==> !ConditionHolds(rd, a.condition, req.context)
  {
    hide Entries, Denied, AnyQualifies, Parse, EntryFor, ResolveRoleFromId, ConditionHolds;
    var u := t.(assignments := before + after);
    BrokenHasNoEntry(rd, t, DeniesAt(t.denies, req.scope), a, req.context);
    OneEntry(rd, t, req.scope, a);
    DeniedIgnoresAssignments(t, u, req);
    EntriesConcat(rd, t, req.scope, before + [a], after);
    EntriesConcat(rd, t, req.scope, before, [a]);
    EntriesConcat(rd, u, req.scope, before, after);
    EntriesIgnoreDenies(rd, t, u, req.scope, before);
    EntriesIgnoreDenies(rd, t, u, req.scope, after);
  }

  // ---- what an answer says ----

  lemma {:induction false} LabelsOfCandidates(es: seq<EffectiveAssignment>, req: Request)
    ensures forall x :: x in CandidateLabels(es, req) <==>
              exists e :: e in es && Candidate(e, req) && x == e.roleName + " at " + e.scope
  {
    hide Candidate;
    if es != [] {
      LabelsOfCandidates(es[1..], req);
      assert es == [es[0]] + es[1..];
    }
  }

  /** Every answer's reason fits its verdict: the deny it names reaches the scope and refuses the
      caller, the entry it names is held, grants the action and has its condition met, and a failed
      condition is reported for each held, granting entry, as "role at scope", when nothing else is
      the matter. */
  lemma AnswerMeaning(rd: Reader, t: Tables, req: Request, r: Answer)
    requires Explains(rd, t, req, r)
    ensures r.allowed <==> r.reason.Granted?
    ensures r.allowed ==>
              r.grantedBy.Some? && r.grantedBy.value in Effective(rd, t, req.scope)
              && Qualifies(rd, r.grantedBy.value, req)
              && r.reason == Granted(r.grantedBy.value.roleName, r.grantedBy.value.scope)
    ensures r.reason.DenyOverrides? <==> Denied(t, req)
    ensures Denied(t, req) ==>
              exists d :: && d in t.denies && AppliesAt(d, req.scope) && d.name == r.deniedBy
                          && DeniesAction(d, req.principalIds, req.context.action, true)
    ensures !r.allowed && !Denied(t, req) ==>
              && (r.reason == if r.conditionFailed == [] then NoAssignmentGrants else ConditionNotSatisfied)
              && forall x :: x in r.conditionFailed <==>
                   exists e :: e in Effective(rd, t, req.scope) && Candidate(e, req)
                               && x == e.roleName + " at " + e.scope
  {
    hide Effective, Candidate, Qualifies, DeniesAction, AppliesAt, CandidateLabels, Label;
    LabelsOfCandidates(Effective(rd, t, req.scope), req);
    var ds := DeniesAt(t.denies, req.scope);
    assert forall i :: 0 <= i < |ds| ==> ds[i] in ds;
  }
}
