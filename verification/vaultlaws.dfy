/** What holds of vaults over whole histories of requests and clock operations. */
module VaultLaws {
  import opened Text
  import opened AccessPolicies
  import opened VaultTables
  import Clocks

  // ---- runs ----

  datatype World = World(moment: Clocks.Moment, state: State)
  {
    function Now(): int { Clocks.NowAt(moment) }
  }

  datatype Event =
    | ClockMoves(e: Clocks.Event)
    | GroupPut(sub: string, name: string, location: string)
    | GroupDelete(sub: string, name: string)
    | VaultPut(sub: string, rg: string, name: string, body: PutBody)
    | VaultDelete(sub: string, name: string)
    | VaultPurge(sub: string, name: string)
    | PolicyEdit(sub: string, name: string, kind: string, incoming: Option<seq<Entry>>)

  function Serve(cfg: Config, s: State, e: Event, now: int): State {
    match e
    case ClockMoves(_) => s
    case GroupPut(sub, name, location) => PutGroup(cfg, s, sub, name, location)
    case GroupDelete(sub, name) => DeleteGroup(cfg, s, sub, name)
    case VaultPut(sub, rg, name, body) => Put(cfg, s, sub, rg, name, body, now).0
    case VaultDelete(sub, name) => Delete(cfg, s, sub, name, now).0
    case VaultPurge(sub, name) => Purge(cfg, s, sub, name, now).0
    case PolicyEdit(sub, name, kind, incoming) => Edit(cfg, s, sub, name, kind, incoming).0
  }

  function Step(cfg: Config, w: World, e: Event): World {
    World(if e.ClockMoves? then Clocks.Step(w.moment, e.e) else w.moment, Serve(cfg, w.state, e, w.Now()))
  }

  function Run(cfg: Config, w: World, es: seq<Event>): World
    decreases |es|
  {
    if es == [] then w else Run(cfg, Step(cfg, w, es[0]), es[1..])
  }

  function Fresh(m: Clocks.Moment): World {
    World(m, State({}, map[], map[]))
  }

  /** No SetOffset, no negative Advance, no real time running back. */
  predicate Forward(e: Event) {
    e.ClockMoves? ==> Clocks.Forward(e.e)
  }

  lemma StepForward(cfg: Config, w: World, e: Event)
    requires Forward(e)
    ensures w.Now() <= Step(cfg, w, e).Now()
  {
    hide Serve;
    if e.ClockMoves? {
      Clocks.StepForwardIff(w.moment, e.e);
    }
  }

  lemma {:induction false} RunForward(cfg: Config, w: World, es: seq<Event>)
    requires forall e :: e in es ==> Forward(e)
    ensures w.Now() <= Run(cfg, w, es).Now()
    decreases |es|
  {
    hide Step, Forward;
    if es != [] {
      assert es[0] in es;
      StepForward(cfg, w, es[0]);
      RunForward(cfg, Step(cfg, w, es[0]), es[1..]);
    }
  }

  lemma PutKeepsConsistent(cfg: Config, s: State, sub: string, rg: string, name: string, body: PutBody, now: int)
    requires Consistent(s)
    ensures Consistent(Put(cfg, s, sub, rg, name, body, now).0)
  {
    hide Lower, PolicyOp, Listed, EqualFold, Recovers;
  }

  lemma ServeKeepsConsistent(cfg: Config, s: State, e: Event, now: int)
    requires Consistent(s)
    ensures Consistent(Serve(cfg, s, e, now))
  {
    hide Lower, PolicyOp, Listed, EqualFold, Put;
    if e.VaultPut? {
      PutKeepsConsistent(cfg, s, e.sub, e.rg, e.name, e.body, now);
    }
  }

  lemma {:induction false} RunKeepsConsistent(cfg: Config, w: World, es: seq<Event>)
    requires Consistent(w.state)
    ensures Consistent(Run(cfg, w, es).state)
    decreases |es|
  {
    hide Serve, Consistent;
    if es != [] {
      ServeKeepsConsistent(cfg, w.state, es[0], w.Now());
      RunKeepsConsistent(cfg, Step(cfg, w, es[0]), es[1..]);
    }
  }

  // ---- no name is both live and recoverable ----

  predicate Exclusive(s: State, now: int) {
    forall k :: k in s.live ==> !Recoverable(s, k, now)
  }

  lemma ServeKeepsExclusive(cfg: Config, s: State, e: Event, now: int)
    requires Exclusive(s, now)
    ensures Exclusive(Serve(cfg, s, e, now), now)
  {
    hide Lower, PolicyOp, Listed, Recovers, EqualFold;
  }

  /** Time moving forward only closes windows. */
  lemma LaterIsExclusive(s: State, now: int, later: int)
    requires Exclusive(s, now) && now <= later
    ensures Exclusive(s, later)
  {
    forall k | k in s.live ensures !Recoverable(s, k, later) {
      assert !Recoverable(s, k, now);
    }
  }

  /** Over every history under a clock that does not run back, no vault name is both live and
      recoverable. */
  lemma {:induction false} NeverBoth(cfg: Config, w: World, es: seq<Event>)
    requires forall e :: e in es ==> Forward(e)
    requires Exclusive(w.state, w.Now())
    ensures var end := Run(cfg, w, es); Exclusive(end.state, end.Now())
    decreases |es|
  {
    hide Serve, Exclusive, Forward;
    if es != [] {
      assert es[0] in es;
      var next := Step(cfg, w, es[0]);
      ServeKeepsExclusive(cfg, w.state, es[0], w.Now());
      StepForward(cfg, w, es[0]);
      LaterIsExclusive(next.state, w.Now(), next.Now());
      NeverBoth(cfg, next, es[1..]);
    }
  }

  // ---- exactly when that fails ----

  /** The clock operation takes the reading back inside the window of a tombstone whose name is
      live again. */
  predicate Reopens(w: World, e: Event) {
    e.ClockMoves? &&
    exists k :: && k in w.state.live && k in w.state.deleted
                && Clocks.NowAt(Clocks.Step(w.moment, e.e)) < w.state.deleted[k].scheduledPurgeAt
  }

  lemma StepExclusiveIff(cfg: Config, w: World, e: Event)
    requires Exclusive(w.state, w.Now())
    ensures Exclusive(Step(cfg, w, e).state, Step(cfg, w, e).Now()) <==> !Reopens(w, e)
  {
    hide Serve;
    if e.ClockMoves? {
      assert Serve(cfg, w.state, e, w.Now()) == w.state by { ClockServesNothing(cfg, w.state, e, w.Now()); }
    } else {
      hide Exclusive;
      ServeKeepsExclusive(cfg, w.state, e, w.Now());
    }
  }

  lemma ClockServesNothing(cfg: Config, s: State, e: Event, now: int)
    requires e.ClockMoves?
    ensures Serve(cfg, s, e, now) == s
  {}

  lemma {:induction false} RunAppend(cfg: Config, w: World, xs: seq<Event>, ys: seq<Event>)
    ensures Run(cfg, w, xs + ys) == Run(cfg, Run(cfg, w, xs), ys)
    decreases |xs|
  {
    hide Step;
    if xs == [] {
      assert xs + ys == ys;
    } else {
      RunAppend(cfg, Step(cfg, w, xs[0]), xs[1..], ys);
      assert (xs + ys)[1..] == xs[1..] + ys;
    }
  }

  lemma RunOne(cfg: Config, w: World, e: Event)
    ensures Run(cfg, w, [e]) == Step(cfg, w, e)
  {
    hide Step;
    assert [e][1..] == [];
  }

  /** The world after the first n events. */
  function After(cfg: Config, w: World, es: seq<Event>, n: nat): World
    requires n <= |es|
  {
    Run(cfg, w, es[..n])
  }

  lemma AfterNext(cfg: Config, w: World, es: seq<Event>, n: nat)
    requires n < |es|
    ensures After(cfg, w, es, n + 1) == Step(cfg, After(cfg, w, es, n), es[n])
  {
    hide Step, Run;
    RunAppend(cfg, w, es[..n], [es[n]]);
    assert es[..n + 1] == es[..n] + [es[n]];
    RunOne(cfg, After(cfg, w, es, n), es[n]);
  }

  predicate ExclusiveAfter(cfg: Config, w: World, es: seq<Event>, n: nat)
    requires n <= |es|
  {
    Exclusive(After(cfg, w, es, n).state, After(cfg, w, es, n).Now())
  }

  lemma {:induction false} ExclusiveUntil(cfg: Config, w: World, es: seq<Event>, n: nat)
    requires n <= |es| && Exclusive(w.state, w.Now())
    requires forall k :: 0 <= k < |es| ==> !Reopens(After(cfg, w, es, k), es[k])
    ensures ExclusiveAfter(cfg, w, es, n)
  {
    hide Step, Exclusive, Reopens, After;
    if n == 0 {
      AfterNothing(cfg, w, es);
    } else {
      ExclusiveUntil(cfg, w, es, n - 1);
      AfterNext(cfg, w, es, n - 1);
      StepExclusiveIff(cfg, After(cfg, w, es, n - 1), es[n - 1]);
    }
  }

  lemma AfterNothing(cfg: Config, w: World, es: seq<Event>)
    ensures After(cfg, w, es, 0) == w
  {}

  /** For every history under any clock: no name is ever both live and recoverable along it exactly
      when no clock operation in it reopens the window of a name that is live again. */
  lemma NeverBothIff(cfg: Config, w: World, es: seq<Event>)
    requires Exclusive(w.state, w.Now())
    ensures (forall n :: 0 <= n <= |es| ==> ExclusiveAfter(cfg, w, es, n)) <==>
            (forall n :: 0 <= n < |es| ==> !Reopens(After(cfg, w, es, n), es[n]))
  {
    hide Step, Exclusive, Reopens, After;
    if forall n :: 0 <= n < |es| ==> !Reopens(After(cfg, w, es, n), es[n]) {
      forall n | 0 <= n <= |es| ensures ExclusiveAfter(cfg, w, es, n) {
        ExclusiveUntil(cfg, w, es, n);
      }
    }
    if forall n :: 0 <= n <= |es| ==> ExclusiveAfter(cfg, w, es, n) {
      forall n | 0 <= n < |es| ensures !Reopens(After(cfg, w, es, n), es[n]) {
        assert ExclusiveAfter(cfg, w, es, n) && ExclusiveAfter(cfg, w, es, n + 1);
        AfterNext(cfg, w, es, n);
        StepExclusiveIff(cfg, After(cfg, w, es, n), es[n]);
      }
    }
  }

  // ---- a deleted vault is held for its window and comes back as it was ----

  /** Only these two requests on a deleted vault's key change it inside its window. */
  predicate Disturbs(e: Event, k: Key) {
    || (e.VaultPut? && KeyOf(e.sub, e.name) == k && Recovers(e.body))
    || (e.VaultPurge? && KeyOf(e.sub, e.name) == k)
  }

  lemma ServeHolds(cfg: Config, s: State, e: Event, now: int, k: Key)
    requires k !in s.live && Recoverable(s, k, now) && !Disturbs(e, k)
    ensures var t := Serve(cfg, s, e, now); k !in t.live && k in t.deleted && t.deleted[k] == s.deleted[k]
  {
    hide Lower, PolicyOp, Listed, Recovers, EqualFold;
  }

  lemma {:induction false} RunHolds(cfg: Config, w: World, es: seq<Event>, k: Key)
    requires forall e :: e in es ==> Forward(e) && !Disturbs(e, k)
    requires k !in w.state.live && k in w.state.deleted
    requires Run(cfg, w, es).Now() < w.state.deleted[k].scheduledPurgeAt
    ensures var t := Run(cfg, w, es).state; k !in t.live && k in t.deleted && t.deleted[k] == w.state.deleted[k]
    decreases |es|
  {
    hide Serve, Forward, Disturbs;
    if es != [] {
      assert es[0] in es;
      RunForward(cfg, w, es);
      ServeHolds(cfg, w.state, es[0], w.Now(), k);
      RunHolds(cfg, Step(cfg, w, es[0]), es[1..], k);
    }
  }

  /** The history the retention results speak about: a live vault is deleted at w.Now(), then es. */
  function AfterDelete(cfg: Config, w: World, sub: string, name: string, es: seq<Event>): World {
    Run(cfg, Step(cfg, w, VaultDelete(sub, name)), es)
  }

  function WindowEnd(cfg: Config, w: World): int {
    w.Now() + cfg.retentionDays * (24 * 60 * 60)
  }

  /** Inside the window the tombstone is exactly the deleted vault, dated by the deletion. */
  lemma DeletedIsHeld(cfg: Config, w: World, sub: string, name: string, es: seq<Event>)
    requires Consistent(w.state) && Admits(cfg, sub) && KeyOf(sub, name) in w.state.live
    requires forall e :: e in es ==> Forward(e) && !Disturbs(e, KeyOf(sub, name))
    requires AfterDelete(cfg, w, sub, name, es).Now() < WindowEnd(cfg, w)
    ensures var k, s := KeyOf(sub, name), AfterDelete(cfg, w, sub, name, es).state;
            var v := w.state.live[k];
            && k !in s.live && k in s.deleted
            && s.deleted[k] == DeletedVault(v.subscription, v.group,
                 if k in w.state.deleted then w.state.deleted[k].name else v.name,
                 v.location, v.tags, v.properties, w.Now(), WindowEnd(cfg, w))
  {
    hide Lower, EqualFold, Run, Forward, Disturbs;
    RunHolds(cfg, Step(cfg, w, VaultDelete(sub, name)), es, KeyOf(sub, name));
  }

  /** Inside the window an ordinary PUT of the name changes nothing, and is answered with the
      conflict whenever it gets as far as looking the name up. */
  lemma NameIsReserved(cfg: Config, w: World, sub: string, name: string, es: seq<Event>, rg: string, spelled: string,
                       body: PutBody)
    requires Consistent(w.state) && Admits(cfg, sub) && KeyOf(sub, name) in w.state.live
    requires forall e :: e in es ==> Forward(e) && !Disturbs(e, KeyOf(sub, name))
    requires AfterDelete(cfg, w, sub, name, es).Now() < WindowEnd(cfg, w)
    requires EqualFold(spelled, name) && !Recovers(body)
    ensures var end := AfterDelete(cfg, w, sub, name, es);
            var (s, answer) := Put(cfg, end.state, sub, rg, spelled, body, end.Now());
            && s == end.state
            && (answer.NameReserved? <==> rg != "" && body.location != "" && KeyOf(sub, rg) in end.state.groups)
  {
    hide Lower, AfterDelete, Recovers, Consistent, Forward, Disturbs, WithVault, NewVault;
    DeletedIsHeld(cfg, w, sub, name, es);
  }

  /** A later recover restores the vault: group, location, tags and properties exactly, with the
      recovery's creation time, and nothing else changes. The name comes back as it was spelled
      exactly when no lapsed tombstone of another spelling was left under its key. */
  lemma RecoverRestores(cfg: Config, w: World, sub: string, name: string, es: seq<Event>, rg: string, spelled: string,
                        body: PutBody)
    requires Consistent(w.state) && Admits(cfg, sub) && KeyOf(sub, name) in w.state.live
    requires forall e :: e in es ==> Forward(e) && !Disturbs(e, KeyOf(sub, name))
    requires AfterDelete(cfg, w, sub, name, es).Now() < WindowEnd(cfg, w)
    requires EqualFold(spelled, name) && Recovers(body) && rg != "" && body.location != ""
    requires KeyOf(sub, rg) in AfterDelete(cfg, w, sub, name, es).state.groups
    ensures var k, end := KeyOf(sub, name), AfterDelete(cfg, w, sub, name, es);
            var v, (s, answer) := w.state.live[k], Put(cfg, end.state, sub, rg, spelled, body, end.Now());
            && answer.Recovered? && k !in s.deleted && k in s.live && s.live[k] == answer.v
            && answer.v.(name := v.name) == v.(createdAt := end.Now())
            && (answer.v.name == v.name <==> (k in w.state.deleted ==> w.state.deleted[k].name == v.name))
            && s.groups == end.state.groups && s.live - {k} == end.state.live - {k}
            && s.deleted == end.state.deleted - {k}
  {
    hide Lower, AfterDelete, Recovers, Consistent, Forward, Disturbs, WithVault, NewVault;
    DeletedIsHeld(cfg, w, sub, name, es);
  }

  // ---- and only for its window ----

  predicate Leaves(e: Event, k: Key) {
    e.VaultPut? || e.VaultPurge? ==> KeyOf(e.sub, e.name) != k
  }

  lemma ServeLeaves(cfg: Config, s: State, e: Event, now: int, k: Key)
    requires k !in s.live && k in s.deleted && Leaves(e, k)
    ensures var t := Serve(cfg, s, e, now); k !in t.live && k in t.deleted && t.deleted[k] == s.deleted[k]
  {
    hide Lower, PolicyOp, Listed, Recovers, EqualFold;
  }

  lemma {:induction false} RunLeaves(cfg: Config, w: World, es: seq<Event>, k: Key)
    requires forall e :: e in es ==> Leaves(e, k)
    requires k !in w.state.live && k in w.state.deleted
    ensures var t := Run(cfg, w, es).state; k !in t.live && k in t.deleted && t.deleted[k] == w.state.deleted[k]
    decreases |es|
  {
    hide Serve, Leaves;
    if es != [] {
      assert es[0] in es;
      ServeLeaves(cfg, w.state, es[0], w.Now(), k);
      RunLeaves(cfg, Step(cfg, w, es[0]), es[1..], k);
    }
  }

  /** Whatever the clock did meanwhile: a name nobody asked for since its deletion is reserved
      exactly while the clock reads before the end of the window, and free afterwards. */
  lemma ReservedIffInWindow(cfg: Config, w: World, sub: string, name: string, es: seq<Event>,
                            rg: string, spelled: string, body: PutBody)
    requires EqualFold(spelled, name)
    requires Admits(cfg, sub) && KeyOf(sub, name) in w.state.live
    requires forall e :: e in es ==> Leaves(e, KeyOf(sub, name))
    requires rg != "" && body.location != "" && !Recovers(body)
    requires KeyOf(sub, rg) in AfterDelete(cfg, w, sub, name, es).state.groups
    ensures var end := AfterDelete(cfg, w, sub, name, es);
            var (s, answer) := Put(cfg, end.state, sub, rg, spelled, body, end.Now());
            && (answer.NameReserved? <==> end.Now() < WindowEnd(cfg, w))
            && (!answer.NameReserved? ==>
                answer.Created? && KeyOf(sub, name) in s.live && s.live[KeyOf(sub, name)] == answer.v)
  {
    assert KeyOf(sub, spelled) == KeyOf(sub, name);
    hide Lower, Run, Recovers, Leaves, EqualFold, Listed;
    RunLeaves(cfg, Step(cfg, w, VaultDelete(sub, name)), es, KeyOf(sub, name));
  }

  // ---- why the clock must not run back ----

  lemma TwoSteps(cfg: Config, w: World, a: Event, b: Event)
    ensures Run(cfg, w, [a, b]) == Step(cfg, Step(cfg, w, a), b)
  {
    hide Step;
    var next := Step(cfg, w, a);
    assert [a, b][1..] == [b] && [b][1..] == [];
    assert Run(cfg, next, [b]) == Step(cfg, next, b);
  }

  /** A name deleted, left to lapse and created again is recoverable once more exactly when a
      clock operation takes the reading back before the end of the old window: nothing removes a
      lapsed tombstone. SetOffset can do that. */
  lemma BothAgainIff(cfg: Config, w: World, sub: string, name: string, es: seq<Event>, rg: string, body: PutBody,
                     e: Clocks.Event)
    requires Admits(cfg, sub) && KeyOf(sub, name) in w.state.live
    requires forall e :: e in es ==> Leaves(e, KeyOf(sub, name))
    requires rg != "" && body.location != "" && !Recovers(body)
    requires KeyOf(sub, rg) in AfterDelete(cfg, w, sub, name, es).state.groups
    requires AfterDelete(cfg, w, sub, name, es).Now() >= WindowEnd(cfg, w)
    ensures var end := AfterDelete(cfg, w, sub, name, es);
            var last := Run(cfg, end, [VaultPut(sub, rg, name, body), ClockMoves(e)]);
            && KeyOf(sub, name) in last.state.live
            && (Recoverable(last.state, KeyOf(sub, name), last.Now()) <==> last.Now() < WindowEnd(cfg, w))
            && (e == Clocks.SetOffset(WindowEnd(cfg, w) - 1 - end.moment.wall) ==> last.Now() < WindowEnd(cfg, w))
  {
    hide Lower, Run, Recovers, Leaves, EqualFold, Listed;
    RunLeaves(cfg, Step(cfg, w, VaultDelete(sub, name)), es, KeyOf(sub, name));
    TwoSteps(cfg, AfterDelete(cfg, w, sub, name, es), VaultPut(sub, rg, name, body), ClockMoves(e));
  }
}
