/** What depends on how a name or a subscription id is spelled: where the reservation of a deleted
    name ends, and which name comes back. */
module VaultSpellings {
  import opened Text
  import opened AccessPolicies
  import opened VaultTables
  import opened VaultLaws

  // ---- one subscription, several spellings ----

  /** No event creates or recovers a vault under the key. */
  predicate NeverPut(es: seq<Event>, k: Key) {
    forall e :: e in es && e.VaultPut? ==> KeyOf(e.sub, e.name) != k
  }

  lemma ServeAbsent(cfg: Config, s: State, e: Event, now: int, k: Key)
    requires k !in s.live && k !in s.deleted && (e.VaultPut? ==> KeyOf(e.sub, e.name) != k)
    ensures k !in Serve(cfg, s, e, now).live && k !in Serve(cfg, s, e, now).deleted
  {
    hide Lower, PolicyOp, Listed, Recovers, EqualFold;
  }

  lemma {:induction false} RunAbsent(cfg: Config, w: World, es: seq<Event>, k: Key)
    requires k !in w.state.live && k !in w.state.deleted && NeverPut(es, k)
    ensures k !in Run(cfg, w, es).state.live && k !in Run(cfg, w, es).state.deleted
    decreases |es|
  {
    hide Serve;
    if es != [] {
      assert es[0] in es;
      ServeAbsent(cfg, w.state, es[0], w.Now(), k);
      RunAbsent(cfg, Step(cfg, w, es[0]), es[1..], k);
    }
  }

  /** The reservation holds, all through the window, for the subscription as spelled at the
      deletion and for no other spelling of it under which the name was not yet put: such a PUT
      creates the name, which is then live under one spelling and recoverable under the other. */
  lemma ReservedOnlyAsSpelled(cfg: Config, w: World, sub: string, name: string, es: seq<Event>,
                              other: string, rg: string, body: PutBody)
    requires Consistent(w.state) && Admits(cfg, sub) && KeyOf(sub, name) in w.state.live
    requires forall e :: e in es ==> Forward(e) && !Disturbs(e, KeyOf(sub, name))
    requires AfterDelete(cfg, w, sub, name, es).Now() < WindowEnd(cfg, w)
    requires EqualFold(sub, other) && other != "" && rg != "" && body.location != "" && !Recovers(body)
    requires KeyOf(other, rg) in AfterDelete(cfg, w, sub, name, es).state.groups
    requires other != sub ==>
               KeyOf(other, name) !in w.state.live && KeyOf(other, name) !in w.state.deleted
               && NeverPut(es, KeyOf(other, name))
    ensures var end := AfterDelete(cfg, w, sub, name, es);
            var (s, answer) := Put(cfg, end.state, other, rg, name, body, end.Now());
            && (answer.NameReserved? <==> other == sub)
            && (other != sub ==> KeyOf(other, name) in s.live && Recoverable(s, KeyOf(sub, name), end.Now()))
  {
    hide Lower, Run, Recovers, Consistent, Forward, Disturbs, NeverPut, Listed;
    DeletedIsHeld(cfg, w, sub, name, es);
    if other != sub {
      RunAbsent(cfg, Step(cfg, w, VaultDelete(sub, name)), es, KeyOf(other, name));
    }
  }

  /** Vaults are put under these spellings of the subscription only. */
  predicate SpelledIn(cfg: Config, e: Event, spellings: set<string>) {
    e.VaultPut? && Admits(cfg, e.sub) ==> e.sub in spellings
  }

  predicate AllUnder(cfg: Config, s: State, spellings: set<string>) {
    && (forall k :: k in s.live ==> k.0 in spellings && Admits(cfg, k.0))
    && (forall k :: k in s.deleted ==> k.0 in spellings && Admits(cfg, k.0))
  }

  lemma ServeKeepsUnder(cfg: Config, s: State, e: Event, now: int, spellings: set<string>)
    requires AllUnder(cfg, s, spellings) && SpelledIn(cfg, e, spellings)
    ensures AllUnder(cfg, Serve(cfg, s, e, now), spellings)
  {
    hide Lower, PolicyOp, Listed, Recovers, EqualFold;
  }

  lemma {:induction false} RunKeepsUnder(cfg: Config, w: World, es: seq<Event>, spellings: set<string>)
    requires AllUnder(cfg, w.state, spellings) && forall e :: e in es ==> SpelledIn(cfg, e, spellings)
    ensures AllUnder(cfg, Run(cfg, w, es).state, spellings)
    decreases |es|
  {
    hide Serve, AllUnder, SpelledIn;
    if es != [] {
      assert es[0] in es;
      ServeKeepsUnder(cfg, w.state, es[0], w.Now(), spellings);
      RunKeepsUnder(cfg, Step(cfg, w, es[0]), es[1..], spellings);
    }
  }

  /** One vault name, with subscription ids compared in any case. */
  predicate SameVault(k: Key, l: Key) {
    EqualFold(k.0, l.0) && k.1 == l.1
  }

  predicate BothInAnyCase(w: World, live: Key, dead: Key) {
    SameVault(live, dead) && live in w.state.live && Recoverable(w.state, dead, w.Now())
  }

  predicate OneSpelling(cfg: Config, spellings: set<string>) {
    forall s, t :: s in spellings && t in spellings && Admits(cfg, s) && Admits(cfg, t) ==> s == t
  }

  lemma NeverBothInAnyCase(cfg: Config, m: Clocks.Moment, es: seq<Event>, spellings: set<string>, live: Key, dead: Key)
    requires OneSpelling(cfg, spellings) && forall e :: e in es ==> Forward(e) && SpelledIn(cfg, e, spellings)
    ensures !BothInAnyCase(Run(cfg, Fresh(m), es), live, dead)
  {
    hide Run, Forward, SpelledIn, Admits, EqualFold;
    NeverBoth(cfg, Fresh(m), es);
    RunKeepsUnder(cfg, Fresh(m), es, spellings);
  }

  function SomeBody(mode: string): PutBody {
    PutBody("westus", None, Properties("", None, "", mode, "", ""))
  }

  lemma OrdinaryBody()
    ensures !Recovers(SomeBody("")) && SomeBody("").location != "" && Recovers(SomeBody("recover"))
  {
    assert |Lower("")| != |Lower("recover")|;
  }

  /** Groups under both spellings, and a vault under the first. */
  function SetUp(sub: string, other: string, name: string): seq<Event> {
    [GroupPut(sub, "g", "westus"), GroupPut(other, "g", "westus"), VaultPut(sub, "g", name, SomeBody(""))]
  }

  lemma ThreeSteps(cfg: Config, w: World, a: Event, b: Event, c: Event)
    ensures Run(cfg, w, [a, b, c]) == Step(cfg, Step(cfg, Step(cfg, w, a), b), c)
  {
    hide Step, Run;
    RunAppend(cfg, w, [a, b], [c]);
    TwoSteps(cfg, w, a, b);
    RunOne(cfg, Step(cfg, Step(cfg, w, a), b), c);
    assert [a, b] + [c] == [a, b, c];
  }

  lemma AfterSetUp(cfg: Config, m: Clocks.Moment, sub: string, other: string, name: string)
    requires Admits(cfg, sub) && Admits(cfg, other)
    ensures var now := Clocks.NowAt(m);
            Run(cfg, Fresh(m), SetUp(sub, other, name)) ==
            World(m, State({KeyOf(sub, "g"), KeyOf(other, "g")},
                           map[KeyOf(sub, name) := NewVault(cfg, sub, "g", name, SomeBody(""), now)], map[]))
  {
    OrdinaryBody();
    hide Lower, Run, EqualFold, Listed, NewVault, Recovers;
    ThreeSteps(cfg, Fresh(m), SetUp(sub, other, name)[0], SetUp(sub, other, name)[1], SetUp(sub, other, name)[2]);
    var v := NewVault(cfg, sub, "g", name, SomeBody(""), Clocks.NowAt(m));
    assert v.subscription == sub && v.name == name by { NewVaultNames(cfg, sub, name, Clocks.NowAt(m)); }
    assert {} + {KeyOf(sub, "g")} + {KeyOf(other, "g")} == {KeyOf(sub, "g"), KeyOf(other, "g")};
  }

  lemma NewVaultNames(cfg: Config, sub: string, name: string, now: int)
    ensures var v := NewVault(cfg, sub, "g", name, SomeBody(""), now);
            v.subscription == sub && v.name == name && v.location != "" && v.tags != ""
  {}

  /** From an empty store: delete a vault, then put its name under another spelling of the id. */
  function SpellingHistory(sub: string, other: string): seq<Event> {
    SetUp(sub, other, "v") + [VaultDelete(sub, "v"), VaultPut(other, "g", "v", SomeBody(""))]
  }

  lemma TwoSpellingsBoth(cfg: Config, m: Clocks.Moment, sub: string, other: string)
    requires Admits(cfg, sub) && Admits(cfg, other) && sub != other && cfg.retentionDays > 0
    ensures BothInAnyCase(Run(cfg, Fresh(m), SpellingHistory(sub, other)), KeyOf(other, "v"), KeyOf(sub, "v"))
  {
    OrdinaryBody();
    AfterSetUp(cfg, m, sub, other, "v");
    NewVaultNames(cfg, sub, "v", Clocks.NowAt(m));
    var w := Run(cfg, Fresh(m), SetUp(sub, other, "v"));
    RunAppend(cfg, Fresh(m), SetUp(sub, other, "v"), [VaultDelete(sub, "v"), VaultPut(other, "g", "v", SomeBody(""))]);
    TwoSteps(cfg, w, VaultDelete(sub, "v"), VaultPut(other, "g", "v", SomeBody("")));
    assert AfterDelete(cfg, w, sub, "v", []) == Step(cfg, w, VaultDelete(sub, "v")) by { hide Step; }
    hide Lower, Run, Listed, NewVault, Recovers, AfterDelete, Put, SetUp;
    assert NeverPut([], KeyOf(other, "v"));
    ReservedOnlyAsSpelled(cfg, w, sub, "v", [], other, "g", SomeBody(""));
  }

  /** Every forward history that puts vaults under these spellings keeps each name, its
      subscription compared in any case, from being both live and recoverable. */
  ghost predicate SpellingsAreSafe(cfg: Config, spellings: set<string>) {
    forall m, es, live, dead :: (forall e :: e in es ==> Forward(e) && SpelledIn(cfg, e, spellings)) ==>
      !BothInAnyCase(Run(cfg, Fresh(m), es), live, dead)
  }

  /** That is so exactly when only one of the spellings is the configured subscription's. */
  lemma OneSpellingIff(cfg: Config, spellings: set<string>)
    requires cfg.retentionDays > 0
    ensures SpellingsAreSafe(cfg, spellings) <==> OneSpelling(cfg, spellings)
  {
    hide Run, BothInAnyCase, Admits;
    if OneSpelling(cfg, spellings) {
      forall m, es, live, dead | forall e :: e in es ==> Forward(e) && SpelledIn(cfg, e, spellings)
        ensures !BothInAnyCase(Run(cfg, Fresh(m), es), live, dead)
      {
        NeverBothInAnyCase(cfg, m, es, spellings, live, dead);
      }
    } else {
      var s, t :| s in spellings && t in spellings && Admits(cfg, s) && Admits(cfg, t) && s != t;
      var m := Clocks.Moment(Clocks.Setting(0, false, 0), 0);
      TwoSpellingsBoth(cfg, m, s, t);
      assert forall e :: e in SpellingHistory(s, t) ==> Forward(e) && SpelledIn(cfg, e, spellings);
    }
  }

  // ---- a recovered name in an older spelling ----

  /** From an empty store: create and delete a vault, let its window lapse, create it again under
      another spelling of its name, delete that and recover it. */
  function NameHistory(cfg: Config, sub: string, a: string, b: string): seq<Event> {
    SetUp(sub, sub, a) +
    [VaultDelete(sub, a), ClockMoves(Clocks.Advance(cfg.retentionDays * DAY)), VaultPut(sub, "g", b, SomeBody("")),
     VaultDelete(sub, b), VaultPut(sub, "g", b, SomeBody("recover"))]
  }

  lemma DeletesOnly(cfg: Config, m: Clocks.Moment, g: Key, v: Vault, d: map<Key, DeletedVault>, sub: string,
                    name: string)
    requires Admits(cfg, sub)
    ensures var k := KeyOf(sub, name);
            var w := World(m, State({g}, map[k := v], d));
            Step(cfg, w, VaultDelete(sub, name)) ==
            World(m, State({g}, map[], d[k := Tombstone(w.state, k, v, w.Now(), cfg.retentionDays)]))
  {
    hide Lower, EqualFold;
    var k := KeyOf(sub, name);
    assert map[k := v] - {k} == map[];
  }

  lemma PutsAfterLapse(cfg: Config, m: Clocks.Moment, d: DeletedVault, sub: string, name: string)
    requires Admits(cfg, sub) && d.scheduledPurgeAt <= Clocks.NowAt(m)
    ensures var k := KeyOf(sub, name);
            var w := World(m, State({KeyOf(sub, "g")}, map[], map[k := d]));
            Step(cfg, w, VaultPut(sub, "g", name, SomeBody(""))) ==
            World(m, State(w.state.groups, map[k := NewVault(cfg, sub, "g", name, SomeBody(""), w.Now())], map[k := d]))
  {
    OrdinaryBody();
    NewVaultNames(cfg, sub, name, Clocks.NowAt(m));
    hide Lower, EqualFold, Listed, NewVault, Recovers;
  }

  lemma RecoversOnly(cfg: Config, m: Clocks.Moment, d: DeletedVault, sub: string, name: string)
    requires Admits(cfg, sub) && d.scheduledPurgeAt > Clocks.NowAt(m)
    ensures var k := KeyOf(sub, name);
            var w := World(m, State({KeyOf(sub, "g")}, map[], map[k := d]));
            Step(cfg, w, VaultPut(sub, "g", name, SomeBody("recover"))) ==
            World(m, State(w.state.groups, map[k := Revived(d, w.Now())], map[]))
  {
    OrdinaryBody();
    hide Lower, EqualFold, Listed, NewVault, Recovers;
    var k := KeyOf(sub, name);
    assert map[k := d] - {k} == map[];
  }

  lemma NameHistoryEvents(cfg: Config, sub: string, a: string, b: string)
    ensures var es := NameHistory(cfg, sub, a, b);
            && |es| == 8 && es[..3] == SetUp(sub, sub, a) && es[3] == VaultDelete(sub, a)
            && es[4] == ClockMoves(Clocks.Advance(cfg.retentionDays * DAY))
            && es[5] == VaultPut(sub, "g", b, SomeBody(""))
            && es[6] == VaultDelete(sub, b) && es[7] == VaultPut(sub, "g", b, SomeBody("recover"))
  {
    SetUpIsThree(sub, sub, a);
    hide SetUp, SomeBody;
  }

  /** The moment the first window ends. */
  function Lapsed(cfg: Config, m: Clocks.Moment): Clocks.Moment {
    Clocks.Step(m, Clocks.Advance(cfg.retentionDays * DAY))
  }

  lemma LapsedLater(cfg: Config, m: Clocks.Moment)
    ensures Clocks.NowAt(Lapsed(cfg, m)) == Clocks.NowAt(m) + cfg.retentionDays * DAY
  {}

  /** Until the name is live again, with its old tombstone behind it. */
  lemma CreatedAgain(cfg: Config, m: Clocks.Moment, sub: string, a: string, b: string) returns (d: DeletedVault)
    requires Admits(cfg, sub) && EqualFold(a, b)
    ensures d.name == a
    ensures var m' := Lapsed(cfg, m);
            After(cfg, Fresh(m), NameHistory(cfg, sub, a, b), 6) ==
            World(m', State({KeyOf(sub, "g")},
                            map[KeyOf(sub, b) := NewVault(cfg, sub, "g", b, SomeBody(""), Clocks.NowAt(m'))],
                            map[KeyOf(sub, b) := d]))
  {
    var es, k, g := NameHistory(cfg, sub, a, b), KeyOf(sub, a), KeyOf(sub, "g");
    assert KeyOf(sub, b) == k;
    LapsedLater(cfg, m);
    AfterSetUp(cfg, m, sub, sub, a);
    NewVaultNames(cfg, sub, a, Clocks.NowAt(m));
    NameHistoryEvents(cfg, sub, a, b);
    hide KeyOf, EqualFold, NewVault, SetUp, Run, Step, NameHistory, SomeBody, Clocks.NowAt;
    var v := NewVault(cfg, sub, "g", a, SomeBody(""), Clocks.NowAt(m));
    assert {g, g} == {g};
    AfterNext(cfg, Fresh(m), es, 3);
    AfterNext(cfg, Fresh(m), es, 4);
    AfterNext(cfg, Fresh(m), es, 5);
    DeletesOnly(cfg, m, g, v, map[], sub, a);
    d := Tombstone(State({g}, map[k := v], map[]), k, v, Clocks.NowAt(m), cfg.retentionDays);
    ClockOnly(cfg, World(m, State({g}, map[], map[k := d])), Clocks.Advance(cfg.retentionDays * DAY));
    PutsAfterLapse(cfg, Lapsed(cfg, m), d, sub, b);
  }

  /** The vault deleted last is spelled b, the one recovered is spelled a. */
  lemma OlderSpellingReturns(cfg: Config, m: Clocks.Moment, sub: string, a: string, b: string)
    requires Admits(cfg, sub) && EqualFold(a, b) && cfg.retentionDays > 0
    ensures var es, k := NameHistory(cfg, sub, a, b), KeyOf(sub, b);
            var deleted, recovered := After(cfg, Fresh(m), es, 6).state.live, After(cfg, Fresh(m), es, 8).state.live;
            k in deleted && deleted[k].name == b && k in recovered && recovered[k].name == a
  {
    var es, k, g, m' := NameHistory(cfg, sub, a, b), KeyOf(sub, b), KeyOf(sub, "g"), Lapsed(cfg, m);
    var now := Clocks.NowAt(m');
    var d := CreatedAgain(cfg, m, sub, a, b);
    NewVaultNames(cfg, sub, b, now);
    NameHistoryEvents(cfg, sub, a, b);
    hide KeyOf, EqualFold, NewVault, SetUp, Run, Step, After, NameHistory, SomeBody, Clocks.NowAt, Lapsed;
    var v := NewVault(cfg, sub, "g", b, SomeBody(""), now);
    AfterNext(cfg, Fresh(m), es, 6);
    AfterNext(cfg, Fresh(m), es, 7);
    DeletesOnly(cfg, m', g, v, map[k := d], sub, b);
    var d' := Tombstone(State({g}, map[k := v], map[k := d]), k, v, now, cfg.retentionDays);
    assert map[k := d][k := d'] == map[k := d'];
    RecoversOnly(cfg, m', d', sub, b);
  }

  lemma SetUpIsThree(sub: string, other: string, name: string)
    ensures |SetUp(sub, other, name)| == 3
  {}

  lemma ClockOnly(cfg: Config, w: World, e: Clocks.Event)
    ensures Step(cfg, w, ClockMoves(e)) == World(Clocks.Step(w.moment, e), w.state)
  {}
}
