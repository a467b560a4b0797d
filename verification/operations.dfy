/** internal/store/operations.go and internal/arm/operations.go: long-running operations whose
    status is derived from the controllable clock when it is read. */
module Operations {
  import opened Text
  import opened Clocks

  datatype Status = InProgress | Succeeded | Failed

  datatype Operation = Operation(
    id: string, kind: string, subscription: string, resourceId: string,
    createdAt: int, completeAt: int, failWith: string)
  {
    function StatusAt(now: int): Status {
      if now < completeAt then InProgress
      else if failWith != "" then Failed
      else Succeeded
    }
  }

  /** What a Location-style poll answers. */
  datatype PollOutcome = NotFound | Accepted | Conflict(code: string) | Done

  /** CreateOperation's defaults: a generated id, and a zero completion time read as "now". */
  function Recorded(o: Operation, freshId: string, now: int): Operation {
    o.(id := if o.id == "" then freshId else o.id,
       createdAt := now,
       completeAt := if o.completeAt == 0 then now else o.completeAt)
  }

  function Started(kind: string, sub: string, resource: string, delay: int, id: string, now: int): Operation {
    Recorded(Operation("", kind, sub, resource, 0, now + delay, ""), id, now)
  }

  predicate Holds(rows: seq<Operation>, id: string) {
    exists i :: 0 <= i < |rows| && rows[i].id == id
  }

  function Lookup(rows: seq<Operation>, id: string): (r: Option<Operation>)
    ensures r.Some? ==> r.value in rows && r.value.id == id
    ensures r.None? <==> !Holds(rows, id)
  {
    if rows == [] then None
    else if rows[0].id == id then Some(rows[0])
    else
      var r := Lookup(rows[1..], id);
      assert Holds(rows, id) <==> Holds(rows[1..], id);
      r
  }

  function Poll(rows: seq<Operation>, sub: string, id: string, now: int): PollOutcome {
    match Lookup(rows, id)
    case None => NotFound
    case Some(o) =>
      if !EqualFold(o.subscription, sub) then NotFound
      else match o.StatusAt(now)
        case InProgress => Accepted
        case Failed => Conflict(o.failWith)
        case Succeeded => Done
  }

  /** The operations table; ids are its primary key, rows keep insertion order. */
  class OperationTable {
    var rows: seq<Operation>

    constructor ()
      ensures rows == []
    {
      rows := [];
    }

    /** False when the id is already taken (the insert fails and nothing changes). */
    method CreateOperation(o: Operation, freshId: string, now: int) returns (recorded: Operation, ok: bool)
      modifies this
      ensures recorded == Recorded(o, freshId, now)
      ensures ok == !Holds(old(rows), recorded.id)
      ensures rows == if ok then old(rows) + [recorded] else old(rows)
    {
      recorded := o;
      if recorded.id == "" {
        recorded := recorded.(id := freshId);
      }
      recorded := recorded.(createdAt := now);
      if recorded.completeAt == 0 {
        recorded := recorded.(completeAt := recorded.createdAt);
      }
      ok := Lookup(rows, recorded.id).None?;
      if ok {
        rows := rows + [recorded];
      }
    }

    method StartOperation(kind: string, sub: string, resource: string, delay: int, freshId: string, now: int)
      returns (op: Operation, ok: bool)
      modifies this
      ensures op == Started(kind, sub, resource, delay, freshId, now)
      ensures ok == !Holds(old(rows), op.id)
      ensures rows == if ok then old(rows) + [op] else old(rows)
    {
      op, ok := CreateOperation(Operation("", kind, sub, resource, 0, now + delay, ""), freshId, now);
    }

    method OperationInFlight(resource: string, now: int) returns (inFlight: bool)
      ensures inFlight == InFlight(rows, resource, now)
    {
      var n := 0;
      for i := 0 to |rows|
        invariant 0 <= n
        invariant n > 0 <==> InFlight(rows[..i], resource, now)
      {
        assert rows[..i + 1] == rows[..i] + [rows[i]];
        InFlightAppend(rows[..i], rows[i], resource, now);
        if EqualFold(rows[i].resourceId, resource) && rows[i].completeAt > now {
          n := n + 1;
        }
      }
      assert rows[..|rows|] == rows;
      return n > 0;
    }
  }

  predicate Pending(o: Operation, resource: string, now: int) {
    EqualFold(o.resourceId, resource) && o.StatusAt(now) == InProgress
  }

  /** Some operation on the resource is InProgress. */
  predicate InFlight(rows: seq<Operation>, resource: string, now: int) {
    exists i :: 0 <= i < |rows| && Pending(rows[i], resource, now)
  }

  lemma InFlightAppend(rows: seq<Operation>, o: Operation, resource: string, now: int)
    ensures InFlight(rows + [o], resource, now) <==> InFlight(rows, resource, now) || Pending(o, resource, now)
  {
    var all := rows + [o];
    assert all[|rows|] == o;
    if InFlight(rows, resource, now) {
      var i :| 0 <= i < |rows| && Pending(rows[i], resource, now);
      assert Pending(all[i], resource, now);
    }
  }

  // ---- runs ----

  datatype World = World(moment: Moment, rows: seq<Operation>)

  datatype Happening =
    | ClockMoves(e: Event)
    | Start(kind: string, sub: string, resource: string, delay: int, id: string)

  function Step(w: World, h: Happening): World {
    match h
    case ClockMoves(e) => w.(moment := Clocks.Step(w.moment, e))
    case Start(kind, sub, resource, delay, id) =>
      var op := Started(kind, sub, resource, delay, id, NowAt(w.moment));
      if Holds(w.rows, op.id) then w else w.(rows := w.rows + [op])
  }

  function Run(w: World, hs: seq<Happening>): World
    decreases |hs|
  {
    if hs == [] then w else Run(Step(w, hs[0]), hs[1..])
  }

  predicate Forward(h: Happening) {
    h.ClockMoves? ==> Clocks.Forward(h.e)
  }

  lemma {:induction false} LookupAppend(rows: seq<Operation>, o: Operation, id: string)
    requires Holds(rows, id)
    ensures Lookup(rows + [o], id) == Lookup(rows, id)
  {
    assert (rows + [o])[0] == rows[0];
    if rows[0].id != id {
      assert (rows + [o])[1..] == rows[1..] + [o];
      var i :| 0 <= i < |rows| && rows[i].id == id;
      assert rows[1..][i - 1].id == id;
      LookupAppend(rows[1..], o, id);
    }
  }

  lemma StepKeepsOutcome(w: World, h: Happening, sub: string, id: string)
    requires Forward(h) && Holds(w.rows, id)
    requires !Poll(w.rows, sub, id, NowAt(w.moment)).Accepted?
    ensures Holds(Step(w, h).rows, id)
    ensures Poll(Step(w, h).rows, sub, id, NowAt(Step(w, h).moment)) == Poll(w.rows, sub, id, NowAt(w.moment))
  {
    hide EqualFold;
    var next := Step(w, h);
    if h.ClockMoves? {
      StepForwardIff(w.moment, h.e);
    } else if next.rows != w.rows {
      LookupAppend(w.rows, next.rows[|w.rows|], id);
    }
    var i :| 0 <= i < |w.rows| && w.rows[i].id == id;
    assert next.rows[i].id == id;
  }

  /** Once a poll stops answering 202 it keeps giving the same answer, in every forward run. */
  lemma {:induction false} PollOutcomeIsFinal(w: World, hs: seq<Happening>, sub: string, id: string)
    requires forall h :: h in hs ==> Forward(h)
    requires Holds(w.rows, id)
    requires !Poll(w.rows, sub, id, NowAt(w.moment)).Accepted?
    ensures Poll(Run(w, hs).rows, sub, id, NowAt(Run(w, hs).moment)) == Poll(w.rows, sub, id, NowAt(w.moment))
    decreases |hs|
  {
    hide Poll, Step, Holds, Forward;
    if hs != [] {
      assert hs[0] in hs;
      StepKeepsOutcome(w, hs[0], sub, id);
      PollOutcomeIsFinal(Step(w, hs[0]), hs[1..], sub, id);
    }
  }

  /** A resource with nothing running stays so until an operation is started on it. */
  lemma {:induction false} SettledStaysSettled(w: World, hs: seq<Happening>, resource: string)
    requires forall h :: h in hs ==> Forward(h)
    requires forall h :: h in hs && h.Start? ==> !EqualFold(h.resource, resource)
    requires !InFlight(w.rows, resource, NowAt(w.moment))
    ensures !InFlight(Run(w, hs).rows, resource, NowAt(Run(w, hs).moment))
    decreases |hs|
  {
    if hs != [] {
      assert hs[0] in hs;
      var next := Step(w, hs[0]);
      var now := NowAt(w.moment);
      match hs[0] {
        case ClockMoves(e) =>
          StepForwardIff(w.moment, e);
          forall i | 0 <= i < |w.rows| ensures !Pending(w.rows[i], resource, NowAt(next.moment)) {
            assert !Pending(w.rows[i], resource, now);
          }
        case Start(kind, sub, r, delay, id) =>
          InFlightAppend(w.rows, Started(kind, sub, r, delay, id, now), resource, now);
      }
      SettledStaysSettled(next, hs[1..], resource);
    }
  }

  // ---- ids ----

  predicate IdsDistinct(rows: seq<Operation>) {
    forall i, j :: 0 <= i < j < |rows| ==> rows[i].id != rows[j].id
  }

  lemma {:induction false} IdsStayDistinct(w: World, hs: seq<Happening>)
    requires IdsDistinct(w.rows)
    ensures IdsDistinct(Run(w, hs).rows)
    decreases |hs|
  {
    if hs != [] {
      IdsStayDistinct(Step(w, hs[0]), hs[1..]);
    }
  }

  lemma {:induction false} LookupRow(rows: seq<Operation>, i: nat)
    requires IdsDistinct(rows) && i < |rows|
    ensures Lookup(rows, rows[i].id) == Some(rows[i])
  {
    if i > 0 {
      assert forall j, k :: 0 <= j < k < |rows[1..]| ==>
          rows[1..][j].id == rows[j + 1].id && rows[1..][k].id == rows[k + 1].id;
      LookupRow(rows[1..], i - 1);
    }
  }

  /** In every run from an empty table, polling a recorded operation under its own subscription
      answers by its two times and its failure code alone; under another it is unknown. */
  lemma PollMeaning(m: Moment, hs: seq<Happening>, i: nat, sub: string)
    requires i < |Run(World(m, []), hs).rows|
    ensures var w := Run(World(m, []), hs);
            var o, now := w.rows[i], NowAt(w.moment);
            var answer := Poll(w.rows, sub, o.id, now);
            && (answer.NotFound? <==> !EqualFold(o.subscription, sub))
            && (EqualFold(o.subscription, sub) ==>
                  (answer.Accepted? <==> now < o.completeAt)
                  && (now >= o.completeAt ==> answer == if o.failWith == "" then Done else Conflict(o.failWith)))
  {
    hide Run, EqualFold, Lookup, IdsDistinct;
    assert IdsDistinct(World(m, []).rows) by {
      NoRowsDistinct();
    }
    IdsStayDistinct(World(m, []), hs);
    LookupRow(Run(World(m, []), hs).rows, i);
  }

  lemma NoRowsDistinct()
    ensures IdsDistinct([])
  {}

  /** Rows are only ever added, at the end. */
  lemma {:induction false} RowsGrow(w: World, hs: seq<Happening>)
    ensures w.rows <= Run(w, hs).rows
    decreases |hs|
  {
    hide Started;
    if hs != [] {
      RowsGrow(Step(w, hs[0]), hs[1..]);
    }
  }

  /** An operation started under a new id is answered 202 through every later run exactly until its
      delay has passed on the clock, and 200 from then on; a completion time of zero, which reads as
      "already complete", is the one exception and completes at the start. */
  lemma StartedUntilDelay(w: World, kind: string, sub: string, resource: string, delay: int, id: string,
                          hs: seq<Happening>)
    requires IdsDistinct(w.rows) && id != "" && !Holds(w.rows, id)
    ensures var start := NowAt(w.moment);
            var end := Run(Step(w, Start(kind, sub, resource, delay, id)), hs);
            var due := if start + delay == 0 then start else start + delay;
            && Lookup(end.rows, id) == Some(Operation(id, kind, sub, resource, start, due, ""))
            && Poll(end.rows, sub, id, NowAt(end.moment)) == if NowAt(end.moment) < due then Accepted else Done
  {
    hide Run, Lookup, IdsDistinct, Holds;
    var next := Step(w, Start(kind, sub, resource, delay, id));
    var end := Run(next, hs);
    var i := |w.rows|;
    AppendDistinct(w.rows, next.rows[i]);
    RowsGrow(next, hs);
    IdsStayDistinct(next, hs);
    assert end.rows[i] == end.rows[..|next.rows|][i] == next.rows[i];
    LookupRow(end.rows, i);
  }

  lemma AppendDistinct(rows: seq<Operation>, o: Operation)
    requires IdsDistinct(rows) && !Holds(rows, o.id)
    ensures IdsDistinct(rows + [o])
  {}

  // ---- what is in flight ----

  /** No row but the i-th is running on the resource. */
  predicate OnlyPending(rows: seq<Operation>, i: nat, resource: string, now: int) {
    forall j :: 0 <= j < |rows| && j != i ==> !Pending(rows[j], resource, now)
  }

  lemma StepKeepsOnly(w: World, h: Happening, i: nat, resource: string)
    requires Forward(h) && (h.Start? ==> !EqualFold(h.resource, resource))
    requires i < |w.rows| && OnlyPending(w.rows, i, resource, NowAt(w.moment))
    ensures i < |Step(w, h).rows| && Step(w, h).rows[i] == w.rows[i]
    ensures OnlyPending(Step(w, h).rows, i, resource, NowAt(Step(w, h).moment))
  {
    hide EqualFold;
    if h.ClockMoves? {
      StepForwardIff(w.moment, h.e);
      forall j | 0 <= j < |w.rows| && j != i ensures !Pending(w.rows[j], resource, NowAt(Step(w, h).moment)) {
        assert !Pending(w.rows[j], resource, NowAt(w.moment));
      }
    }
  }

  lemma {:induction false} RunKeepsOnly(w: World, hs: seq<Happening>, i: nat, resource: string)
    requires forall h :: h in hs ==> Forward(h) && (h.Start? ==> !EqualFold(h.resource, resource))
    requires i < |w.rows| && OnlyPending(w.rows, i, resource, NowAt(w.moment))
    ensures i < |Run(w, hs).rows| && Run(w, hs).rows[i] == w.rows[i]
    ensures OnlyPending(Run(w, hs).rows, i, resource, NowAt(Run(w, hs).moment))
    decreases |hs|
  {
    hide Step, OnlyPending, Forward, EqualFold;
    if hs != [] {
      assert hs[0] in hs;
      StepKeepsOnly(w, hs[0], i, resource);
      RunKeepsOnly(Step(w, hs[0]), hs[1..], i, resource);
    }
  }

  /** A resource with nothing running has something in flight from the start of an operation on it
      exactly until that operation's delay has passed, in every forward run without another. */
  lemma InFlightUntilDelay(w: World, kind: string, sub: string, resource: string, delay: int, id: string,
                           hs: seq<Happening>)
    requires id != "" && !Holds(w.rows, id) && !InFlight(w.rows, resource, NowAt(w.moment))
    requires forall h :: h in hs ==> Forward(h) && (h.Start? ==> !EqualFold(h.resource, resource))
    ensures var start := NowAt(w.moment);
            var end := Run(Step(w, Start(kind, sub, resource, delay, id)), hs);
            var due := if start + delay == 0 then start else start + delay;
            InFlight(end.rows, resource, NowAt(end.moment)) <==> NowAt(end.moment) < due
  {
    assert EqualFold(resource, resource);
    hide Run, EqualFold, Holds, Forward;
    var next := Step(w, Start(kind, sub, resource, delay, id));
    var i := |w.rows|;
    assert OnlyPending(next.rows, i, resource, NowAt(next.moment));
    RunKeepsOnly(next, hs, i, resource);
    var end := Run(next, hs);
    assert Pending(end.rows[i], resource, NowAt(end.moment)) <==> end.rows[i].StatusAt(NowAt(end.moment)) == InProgress;
  }

  /** An operation recorded under an id of its own keeps it, one without gets the fresh one; it is
      found there with its kind, subscription, resource and failure code, created now and complete at
      its time, or now if it has none. */
  lemma CreatedIsFound(rows: seq<Operation>, o: Operation, freshId: string, now: int)
    requires IdsDistinct(rows) && !Holds(rows, if o.id != "" then o.id else freshId)
    ensures var id := if o.id != "" then o.id else freshId;
            Lookup(rows + [Recorded(o, freshId, now)], id) ==
            Some(Operation(id, o.kind, o.subscription, o.resourceId, now,
                           if o.completeAt != 0 then o.completeAt else now, o.failWith))
  {
    hide Lookup, IdsDistinct, Holds;
    AppendDistinct(rows, Recorded(o, freshId, now));
    LookupRow(rows + [Recorded(o, freshId, now)], |rows|);
  }
}
