/** internal/arm/feed.go and internal/arm/evaluate.go: the published feed and the decision. */
module Decisions {
  import opened Text
  import opened Wildcard
  import opened Scopes
  import opened Conditions
  import opened Parser
  import opened Rendering
  import opened Evaluator
  import opened Dependencies
  import opened Directory

  /** One assignment applying at a scope, as published to data planes. */
  datatype EffectiveAssignment = EffectiveAssignment(
    principalId: string, principalType: string, roleName: string, roleId: string, scope: string,
    dataActions: seq<string>, notDataActions: seq<string>, condition: string, conditionVersion: string,
    conditionAttributes: seq<string>, denied: seq<Permission>)

  datatype Request = Request(scope: string, principalIds: seq<string>, context: Context)

  /** What a data plane asks, its attributes as it wrote them. */
  datatype Question = Question(
    scope: string, principalIds: seq<string>, action: string, subOperation: string, attributes: map<string, Attribute>)

  /** The question with a context built from its attributes. */
  ghost predicate Poses(q: Question, req: Request) {
    && req.scope == q.scope && req.principalIds == q.principalIds
    && req.context.action == q.action && req.context.subOperation == q.subOperation
    && BuiltFrom(q.attributes, req.context.attributes)
  }

  datatype Reason =
    | DenyOverrides | Granted(roleName: string, scope: string) | ConditionNotSatisfied | NoAssignmentGrants

  datatype Answer = Answer(
    allowed: bool, reason: Reason, grantedBy: Option<EffectiveAssignment>, deniedBy: string,
    conditionFailed: seq<string>)

  // ---- the feed ----

  function DataActionsOf(ps: seq<Permission>): seq<string> {
    if ps == [] then [] else ps[0].dataActions + DataActionsOf(ps[1..])
  }

  function NotDataActionsOf(ps: seq<Permission>): seq<string> {
    if ps == [] then [] else ps[0].notDataActions + NotDataActionsOf(ps[1..])
  }

  /** The permissions of the denies that name this principal. */
  function DeniedTo(denies: seq<DenyAssignment>, principal: string): seq<Permission> {
    if denies == [] then []
    else (if AppliesToPrincipal(denies[0], [principal]) then denies[0].permissions else [])
         + DeniedTo(denies[1..], principal)
  }

  /** The entry an assignment yields: none where its role dangles or its condition does not parse. */
  function EntryFor(rd: Reader, t: Tables, denies: seq<DenyAssignment>, a: Assignment): Option<EffectiveAssignment> {
    match ResolveRoleFromId(t, a.roleId)
    case None => None
    case Some(def) =>
      if a.condition != "" && Parse(rd, a.condition).Err? then None
      else Some(EffectiveAssignment(
        a.principalId, a.principalType, def.roleName, a.roleId, a.scopeDisplay,
        DataActionsOf(def.permissions), NotDataActionsOf(def.permissions), a.condition, a.conditionVersion,
        if a.condition == "" then [] else AttributesOf(Parse(rd, a.condition).value),
        DeniedTo(denies, a.principalId)))
  }

  /** The feed's entries for the assignments rows, in order. */
  function Entries(rd: Reader, t: Tables, scope: string, rows: seq<Assignment>): seq<EffectiveAssignment> {
    if rows == [] then []
    else
      var rest := Entries(rd, t, scope, rows[1..]);
      var e := EntryFor(rd, t, DeniesAt(t.denies, scope), rows[0]);
      if ScopeApplies(rows[0].scopeDisplay, scope) && e.Some? then [e.value] + rest else rest
  }

  function Effective(rd: Reader, t: Tables, scope: string): seq<EffectiveAssignment> {
    Entries(rd, t, scope, t.assignments)
  }

  // ---- the decision ----

  predicate AnyGlob(patterns: seq<string>, action: string) {
    exists i :: 0 <= i < |patterns| && Glob(patterns[i], action)
  }

  predicate GrantsAction(e: EffectiveAssignment, action: string) {
    AnyGlob(e.dataActions, action) && !AnyGlob(e.notDataActions, action)
  }

  lemma SaneIsEvaluable(rd: Reader, n: Node)
    requires Sane(rd, n)
    ensures Evaluable(n)
  {
    hide Printable, SaneLiteral;
  }

  predicate ConditionHolds(rd: Reader, condition: string, c: Context) {
    if condition == "" then true
    else match Parse(rd, condition)
      case Err(_) => false
      case Ok(root) =>
        ParsedIsSane(rd, condition, root);
        SaneIsEvaluable(rd, root);
        Eval(rd, root, c)
  }

  /** The caller holds the entry and its role grants the action; only the condition is open. */
  predicate Candidate(e: EffectiveAssignment, req: Request) {
    HoldsPrincipal(req.principalIds, e.principalId) && GrantsAction(e, req.context.action)
  }

  predicate Qualifies(rd: Reader, e: EffectiveAssignment, req: Request) {
    Candidate(e, req) && ConditionHolds(rd, e.condition, req.context)
  }

  predicate AnyQualifies(rd: Reader, es: seq<EffectiveAssignment>, req: Request) {
    exists i :: 0 <= i < |es| && Qualifies(rd, es[i], req)
  }

  predicate Denied(t: Tables, req: Request) {
    exists i :: 0 <= i < |DeniesAt(t.denies, req.scope)| &&
      DeniesAction(DeniesAt(t.denies, req.scope)[i], req.principalIds, req.context.action, true)
  }

  /** The rule: no deny reaching the scope denies the action to the caller, and some held,
      granting assignment's condition holds. */
  predicate Allowed(rd: Reader, t: Tables, req: Request) {
    !Denied(t, req) && AnyQualifies(rd, Effective(rd, t, req.scope), req)
  }

  function Label(e: EffectiveAssignment): string {
    e.roleName + " at " + e.scope
  }

  /** The labels of every held, granting entry, in order. */
  function CandidateLabels(es: seq<EffectiveAssignment>, req: Request): seq<string> {
    if es == [] then []
    else (if Candidate(es[0], req) then [Label(es[0])] else []) + CandidateLabels(es[1..], req)
  }

  /** What an answer must be: the verdict is the rule's, and its explanation is the first deny,
      the first qualifying assignment, or every assignment that failed on its condition. */
  ghost predicate Explains(rd: Reader, t: Tables, req: Request, r: Answer) {
    var ds, es := DeniesAt(t.denies, req.scope), Effective(rd, t, req.scope);
    && r.allowed == Allowed(rd, t, req)
    && (Denied(t, req) ==> exists i ::
          && 0 <= i < |ds| && DeniesAction(ds[i], req.principalIds, req.context.action, true)
          && (forall j :: 0 <= j < i ==> !DeniesAction(ds[j], req.principalIds, req.context.action, true))
          && r == Answer(false, DenyOverrides, None, ds[i].name, []))
    && (r.allowed ==> exists i ::
          && 0 <= i < |es| && Qualifies(rd, es[i], req)
          && (forall j :: 0 <= j < i ==> !Qualifies(rd, es[j], req))
          && r == Answer(true, Granted(es[i].roleName, es[i].scope), Some(es[i]), "", []))
    && (!Denied(t, req) && !r.allowed ==>
          var failed := CandidateLabels(es, req);
          r == Answer(false, if failed == [] then NoAssignmentGrants else ConditionNotSatisfied, None, "", failed))
  }

  /** The requests differ at most in attributes nobody reads differently. */
  ghost predicate SameReading(req: Request, other: Request) {
    && req.scope == other.scope && req.principalIds == other.principalIds
    && req.context.action == other.context.action && req.context.subOperation == other.context.subOperation
    && forall a :: ReadAlike(req.context.attributes, other.context.attributes, a)
  }

  lemma SameConditions(rd: Reader, condition: string, c: Context, d: Context)
    requires c.action == d.action && c.subOperation == d.subOperation
    requires forall a :: ReadAlike(c.attributes, d.attributes, a)
    ensures ConditionHolds(rd, condition, c) == ConditionHolds(rd, condition, d)
  {
    hide Parse, Sane, ReadAlike, Eval;
    if condition != "" && Parse(rd, condition).Ok? {
      var root := Parse(rd, condition).value;
      ParsedIsSane(rd, condition, root);
      SaneIsEvaluable(rd, root);
      ReadingsDecide(rd, root, c, d);
    }
  }

  lemma SameQualifies(rd: Reader, e: EffectiveAssignment, req: Request, other: Request)
    requires SameReading(req, other)
    ensures Candidate(e, req) == Candidate(e, other) && Qualifies(rd, e, req) == Qualifies(rd, e, other)
  {
    hide ConditionHolds, HoldsPrincipal, GrantsAction, ReadAlike;
    SameConditions(rd, e.condition, req.context, other.context);
  }

  lemma {:induction false} SameLabels(es: seq<EffectiveAssignment>, req: Request, other: Request)
    requires SameReading(req, other)
    ensures CandidateLabels(es, req) == CandidateLabels(es, other)
  {
    hide ReadAlike, HoldsPrincipal, GrantsAction;
    if es != [] {
      SameLabels(es[1..], req, other);
    }
  }

  /** Requests that read alike have the same answer. */
  lemma SameAnswer(rd: Reader, t: Tables, req: Request, other: Request, r: Answer)
    requires SameReading(req, other) && Explains(rd, t, req, r)
    ensures Explains(rd, t, other, r)
  {
    hide DeniesAt, Effective, DeniesAction, Candidate, Qualifies, CandidateLabels, Label, ReadAlike;
    var es := Effective(rd, t, req.scope);
    SameLabels(es, req, other);
    forall i | 0 <= i < |es| ensures Qualifies(rd, es[i], req) == Qualifies(rd, es[i], other) {
      SameQualifies(rd, es[i], req, other);
    }
  }
}
