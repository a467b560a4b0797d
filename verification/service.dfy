/** The authorization service's readers, as the loops of internal/arm/feed.go, evaluate.go and
    denyassignments.go. */
module Services {
  import opened Text
  import opened Wildcard
  import opened ActionPatterns
  import opened Scopes
  import opened Conditions
  import opened Parser
  import opened Cursors
  import opened Rendering
  import opened Evaluator
  import opened Dependencies
  import opened Directory
  import opened Decisions

  // ---- principals and denies ----

  method HoldsPrincipalLoop(held: seq<string>, principal: string) returns (r: bool)
    ensures r == HoldsPrincipal(held, principal)
  {
    for i := 0 to |held|
      invariant forall j :: 0 <= j < i ==> held[j] == "" || !EqualFold(held[j], principal)
    {
      if held[i] != "" && EqualFold(held[i], principal) {
        return true;
      }
    }
    return false;
  }

  method ContainsPrincipalLoop(list: seq<string>, ids: seq<string>) returns (r: bool)
    ensures r == ContainsPrincipal(list, ids)
  {
    for i := 0 to |list|
      invariant forall k :: 0 <= k < i ==> !HoldsPrincipal(ids, list[k])
    {
      for j := 0 to |ids|
        invariant forall k :: 0 <= k < j ==> ids[k] == "" || !EqualFold(ids[k], list[i])
      {
        if ids[j] != "" && EqualFold(list[i], ids[j]) {
          assert HoldsPrincipal(ids, list[i]);
          return true;
        }
      }
    }
    return false;
  }

  method AppliesToPrincipalLoop(d: DenyAssignment, ids: seq<string>) returns (r: bool)
    ensures r == AppliesToPrincipal(d, ids)
  {
    hide ContainsPrincipal;
    var excluded := ContainsPrincipalLoop(d.excludePrincipals, ids);
    if excluded {
      return false;
    }
    for i := 0 to |d.principals|
      invariant ALL_PRINCIPALS !in d.principals[..i]
    {
      if d.principals[i] == ALL_PRINCIPALS {
        return true;
      }
    }
    r := ContainsPrincipalLoop(d.principals, ids);
  }

  method DeniesActionLoop(d: DenyAssignment, ids: seq<string>, action: string, data: bool) returns (r: bool)
    ensures r == DeniesAction(d, ids, action, data)
  {
    hide AppliesToPrincipal, AnyCovers;
    var applies := AppliesToPrincipalLoop(d, ids);
    if !applies {
      return false;
    }
    for i := 0 to |d.permissions|
      invariant forall j :: 0 <= j < i ==> !PermissionDenies(d.permissions[j], action, data)
    {
      var p := d.permissions[i];
      var denied, except := p.actions, p.notActions;
      if data {
        denied, except := p.dataActions, p.notDataActions;
      }
      var hit := AnyMatch(denied, action);
      var carved := AnyMatch(except, action);
      if hit && !carved {
        assert PermissionDenies(p, action, data);
        return true;
      }
    }
    return false;
  }

  method DenyAssignmentsAt(denies: seq<DenyAssignment>, scope: string) returns (out: seq<DenyAssignment>)
    ensures out == DeniesAt(denies, scope)
  {
    hide DeniesAt, AppliesAt;
    out := [];
    DeniesAtNothing(scope);
    for i := 0 to |denies|
      invariant out == DeniesAt(denies[..i], scope)
    {
      assert denies[..i + 1] == denies[..i] + [denies[i]] + [];
      DeniesInOrder(denies[..i], denies[i], [], scope);
      if AppliesAt(denies[i], scope) {
        out := out + [denies[i]];
      }
    }
    assert denies[..|denies|] == denies;
  }

  lemma DeniesAtNothing(scope: string)
    ensures DeniesAt([], scope) == []
  {}

  // ---- the feed ----

  lemma {:induction false} DataActionsAppend(ps: seq<Permission>, p: Permission)
    ensures DataActionsOf(ps + [p]) == DataActionsOf(ps) + p.dataActions
    ensures NotDataActionsOf(ps + [p]) == NotDataActionsOf(ps) + p.notDataActions
  {
    if ps == [] {
      assert [p][1..] == [];
    } else {
      assert (ps + [p])[1..] == ps[1..] + [p];
      DataActionsAppend(ps[1..], p);
    }
  }

  lemma {:induction false} DeniedToAppend(ds: seq<DenyAssignment>, d: DenyAssignment, principal: string)
    ensures DeniedTo(ds + [d], principal) ==
            DeniedTo(ds, principal) + (if AppliesToPrincipal(d, [principal]) then d.permissions else [])
  {
    hide AppliesToPrincipal;
    if ds == [] {
      assert [d][1..] == [];
    } else {
      var first := if AppliesToPrincipal(ds[0], [principal]) then ds[0].permissions else [];
      var last := if AppliesToPrincipal(d, [principal]) then d.permissions else [];
      DeniedToAppend(ds[1..], d, principal);
      assert (ds + [d])[1..] == ds[1..] + [d] && (ds + [d])[0] == ds[0];
      assert first + (DeniedTo(ds[1..], principal) + last) == (first + DeniedTo(ds[1..], principal)) + last;
    }
  }

  /** Flattens a role's permission blocks. */
  method Flatten(ps: seq<Permission>) returns (data: seq<string>, notData: seq<string>)
    ensures data == DataActionsOf(ps) && notData == NotDataActionsOf(ps)
  {
    data, notData := [], [];
    for i := 0 to |ps|
      invariant data == DataActionsOf(ps[..i]) && notData == NotDataActionsOf(ps[..i])
    {
      assert ps[..i + 1] == ps[..i] + [ps[i]];
      DataActionsAppend(ps[..i], ps[i]);
      data := data + ps[i].dataActions;
      notData := notData + ps[i].notDataActions;
    }
    assert ps[..|ps|] == ps;
  }

  /** Attaches the permissions of every deny naming the principal. */
  method Attach(ds: seq<DenyAssignment>, principal: string) returns (denied: seq<Permission>)
    ensures denied == DeniedTo(ds, principal)
  {
    hide AppliesToPrincipal;
    denied := [];
    for i := 0 to |ds|
      invariant denied == DeniedTo(ds[..i], principal)
    {
      assert ds[..i + 1] == ds[..i] + [ds[i]];
      DeniedToAppend(ds[..i], ds[i], principal);
      var named := AppliesToPrincipalLoop(ds[i], [principal]);
      if named {
        denied := denied + ds[i].permissions;
      }
    }
    assert ds[..|ds|] == ds;
  }

  lemma {:induction false} EntriesAppend(rd: Reader, t: Tables, scope: string, rows: seq<Assignment>, a: Assignment)
    ensures Entries(rd, t, scope, rows + [a]) ==
            Entries(rd, t, scope, rows) +
            (var e := EntryFor(rd, t, DeniesAt(t.denies, scope), a);
             if ScopeApplies(a.scopeDisplay, scope) && e.Some? then [e.value] else [])
  {
    hide EntryFor, DeniesAt, ScopeApplies;
    if rows == [] {
      assert [a][1..] == [];
    } else {
      assert (rows + [a])[1..] == rows[1..] + [a];
      EntriesAppend(rd, t, scope, rows[1..], a);
    }
  }

  /** One turn of EffectiveAt's loop. */
  method Entry(rd: Reader, t: Tables, ds: seq<DenyAssignment>, a: Assignment) returns (r: Option<EffectiveAssignment>)
    ensures r == EntryFor(rd, t, ds, a)
  {
    hide Parse, ResolveRoleFromId, DataActionsOf, NotDataActionsOf, DeniedTo, AttributesOf;
    var def := ResolveRoleFromId(t, a.roleId);
    if def.None? {
      return None;
    }
    var attributes: seq<string> := [];
    if a.condition != "" {
      var cond := ParseCondition(rd, a.condition);
      if cond.Err? {
        return None;
      }
      attributes := Attributes(cond.value);
    }
    var data, notData := Flatten(def.value.permissions);
    var denied := Attach(ds, a.principalId);
    return Some(EffectiveAssignment(
      a.principalId, a.principalType, def.value.roleName, a.roleId, a.scopeDisplay,
      data, notData, a.condition, a.conditionVersion, attributes, denied));
  }

  method EffectiveAt(rd: Reader, t: Tables, scope: string) returns (out: seq<EffectiveAssignment>)
    ensures out == Effective(rd, t, scope)
  {
    hide EntryFor, DeniesAt, ScopeApplies, Entries;
    var all := t.assignments;
    var ds := DenyAssignmentsAt(t.denies, scope);
    out := [];
    NoEntries(rd, t, scope);
    for i := 0 to |all|
      invariant out == Entries(rd, t, scope, all[..i])
    {
      assert all[..i + 1] == all[..i] + [all[i]];
      EntriesAppend(rd, t, scope, all[..i], all[i]);
      if !ScopeApplies(all[i].scopeDisplay, scope) {
        continue;
      }
      var e := Entry(rd, t, ds, all[i]);
      if e.None? {
        continue;
      }
      out := out + [e.value];
    }
    assert all[..|all|] == all;
  }

  lemma NoEntries(rd: Reader, t: Tables, scope: string)
    ensures Entries(rd, t, scope, []) == []
  {}

  // ---- the decision ----

  method AnyGlobLoop(patterns: seq<string>, action: string) returns (matched: bool)
    ensures matched == AnyGlob(patterns, action)
  {
    matched := false;
    for i := 0 to |patterns|
      invariant !matched && forall j :: 0 <= j < i ==> !Glob(patterns[j], action)
    {
      var hit, _ := GlobMatchLoop(Lower(patterns[i]), Lower(action));
      if hit {
        assert Glob(patterns[i], action);
        matched := true;
        break;
      }
    }
  }

  method GrantsActionLoop(e: EffectiveAssignment, action: string) returns (r: bool)
    ensures r == GrantsAction(e, action)
  {
    hide AnyGlob;
    var matched := AnyGlobLoop(e.dataActions, action);
    if !matched {
      return false;
    }
    var carved := AnyGlobLoop(e.notDataActions, action);
    return !carved;
  }

  /** Go's cond.Evaluate after abac.Parse; no condition is a condition that holds. */
  method CheckCondition(rd: Reader, condition: string, c: Context) returns (r: bool)
    ensures r == ConditionHolds(rd, condition, c)
  {
    hide Parse, Eval;
    if condition == "" {
      return true;
    }
    var cond := ParseCondition(rd, condition);
    if cond.Err? {
      return false;
    }
    ParsedIsSane(rd, condition, cond.value);
    SaneIsEvaluable(rd, cond.value);
    return Eval(rd, cond.value, c);
  }

  lemma {:induction false} LabelsAppend(es: seq<EffectiveAssignment>, e: EffectiveAssignment, req: Request)
    ensures CandidateLabels(es + [e], req) == CandidateLabels(es, req) + (if Candidate(e, req) then [Label(e)] else [])
  {
    hide Candidate, Label;
    if es == [] {
      assert [e][1..] == [];
    } else {
      assert (es + [e])[1..] == es[1..] + [e];
      LabelsAppend(es[1..], e, req);
    }
  }

  /** The answer to a question is the decision on the context its attributes build. */
  method Evaluate(rd: Reader, t: Tables, q: Question) returns (r: Answer)
    ensures exists req :: Poses(q, req) && Explains(rd, t, req, r)
    ensures NoReadRace(q.attributes) ==> forall req :: Poses(q, req) ==> Explains(rd, t, req, r)
  {
    hide Explains, BuiltFrom, NoReadRace, ReadAlike;
    OneReadingIff(q.attributes);
    var c := NewContext(q.action, q.attributes);
    c := c.(subOperation := q.subOperation);
    var req := Decisions.Request.Request(q.scope, q.principalIds, c);
    r := Decide(rd, t, req);
    assert Poses(q, req);
    if NoReadRace(q.attributes) {
      forall other | Poses(q, other) ensures Explains(rd, t, other, r) {
        SameAnswer(rd, t, req, other, r);
      }
    }
  }

  method Decide(rd: Reader, t: Tables, req: Request) returns (r: Answer)
    ensures Explains(rd, t, req, r)
  {
    hide DeniesAt, Effective, DeniesAction, GrantsAction, HoldsPrincipal, ConditionHolds, CandidateLabels, Label;
    var ds := DenyAssignmentsAt(t.denies, req.scope);
    for i := 0 to |ds|
      invariant forall j :: 0 <= j < i ==> !DeniesAction(ds[j], req.principalIds, req.context.action, true)
    {
      var denies := DeniesActionLoop(ds[i], req.principalIds, req.context.action, true);
      if denies {
        return Answer(false, DenyOverrides, None, ds[i].name, []);
      }
    }
    var eff := EffectiveAt(rd, t, req.scope);
    var failed: seq<string> := [];
    NoLabels(req);
    for i := 0 to |eff|
      invariant forall j :: 0 <= j < i ==> !Qualifies(rd, eff[j], req)
      invariant failed == CandidateLabels(eff[..i], req)
    {
      var a := eff[i];
      assert eff[..i + 1] == eff[..i] + [a];
      LabelsAppend(eff[..i], a, req);
      var holds := HoldsPrincipalLoop(req.principalIds, a.principalId);
      if !holds {
        continue;
      }
      var grants := GrantsActionLoop(a, req.context.action);
      if !grants {
        continue;
      }
      var ok := CheckCondition(rd, a.condition, req.context);
      if !ok {
        failed := failed + [Label(a)];
        continue;
      }
      return Answer(true, Granted(a.roleName, a.scope), Some(a), "", []);
    }
    assert eff[..|eff|] == eff;
    return Answer(false, if |failed| > 0 then ConditionNotSatisfied else NoAssignmentGrants, None, "", failed);
  }

  lemma NoLabels(req: Request)
    ensures CandidateLabels([], req) == []
  {}
}
