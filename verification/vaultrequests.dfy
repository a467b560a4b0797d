/** What each vault request answers and changes, and what stays as it was. */
module VaultRequests {
  import opened Text
  import opened AccessPolicies
  import opened VaultTables
  import opened VaultLaws

  // ---- what a request leaves alone ----

  predicate SameAt(s: State, t: State, k: Key) {
    && (k in s.live <==> k in t.live) && (k in s.live ==> s.live[k] == t.live[k])
    && (k in s.deleted <==> k in t.deleted) && (k in s.deleted ==> s.deleted[k] == t.deleted[k])
  }

  predicate NamesVault(e: Event, k: Key) {
    (e.VaultPut? || e.VaultDelete? || e.VaultPurge? || e.PolicyEdit?) && KeyOf(e.sub, e.name) == k
  }

  /** An event changes no vault but the one it names, and only group requests change the groups:
      deleting a group leaves its vaults where they are. */
  lemma OthersUntouched(cfg: Config, s: State, e: Event, now: int, k: Key)
    ensures !NamesVault(e, k) ==> SameAt(s, Serve(cfg, s, e, now), k)
    ensures !e.GroupPut? && !e.GroupDelete? ==> Serve(cfg, s, e, now).groups == s.groups
  {
    hide Lower, PolicyOp, Listed, Recovers, EqualFold, NewVault;
    if e.VaultPut? {
      PutLeavesOthers(cfg, s, e.sub, e.rg, e.name, e.body, now, k);
    }
  }

  lemma PutLeavesOthers(cfg: Config, s: State, sub: string, rg: string, name: string, body: PutBody, now: int, k: Key)
    ensures var t := Put(cfg, s, sub, rg, name, body, now).0;
            t.groups == s.groups && (KeyOf(sub, name) != k ==> SameAt(s, t, k))
  {
    var v := NewVault(cfg, sub, rg, name, body, now);
    assert v.subscription == sub && v.name == name;
    hide Lower, Listed, Recovers, EqualFold, NewVault;
  }

  predicate MakesGroup(cfg: Config, e: Event, g: Key) {
    e.GroupPut? && EqualFold(e.sub, cfg.subscription) && e.location != "" && KeyOf(e.sub, e.name) == g
  }

  predicate DropsGroup(cfg: Config, e: Event, g: Key) {
    e.GroupDelete? && EqualFold(e.sub, cfg.subscription) && KeyOf(e.sub, e.name) == g
  }

  lemma GroupStep(cfg: Config, s: State, e: Event, now: int, g: Key)
    ensures g in Serve(cfg, s, e, now).groups <==>
            MakesGroup(cfg, e, g) || (g in s.groups && !DropsGroup(cfg, e, g))
  {
    OthersUntouched(cfg, s, e, now, g);
    hide Lower, EqualFold, Put, Delete, Purge, Edit;
  }

  /** Over every history, under any clock: a group is there exactly when some accepted PUT made it,
      or it was there at the start, and no later request deleted it. */
  lemma {:induction false} GroupExistsIff(cfg: Config, w: World, es: seq<Event>, g: Key)
    ensures g in Run(cfg, w, es).state.groups <==>
            || (g in w.state.groups && forall m :: 0 <= m < |es| ==> !DropsGroup(cfg, es[m], g))
            || (exists n :: 0 <= n < |es| && MakesGroup(cfg, es[n], g)
                            && forall m :: n < m < |es| ==> !DropsGroup(cfg, es[m], g))
    decreases |es|
  {
    hide Serve, MakesGroup, DropsGroup;
    if es != [] {
      var e, rest := es[0], es[1..];
      GroupStep(cfg, w.state, e, w.Now(), g);
      MakesOrDrops(cfg, e, g);
      GroupExistsIff(cfg, Step(cfg, w, e), rest, g);
      assert forall m :: 0 <= m < |rest| ==> rest[m] == es[m + 1];
      assert forall m :: 1 <= m < |es| ==> es[m] == rest[m - 1];
      if n :| 0 <= n < |es| && MakesGroup(cfg, es[n], g) && forall m :: n < m < |es| ==> !DropsGroup(cfg, es[m], g) {
        if n > 0 {
          assert MakesGroup(cfg, rest[n - 1], g);
        }
      }
      if n :| && 0 <= n < |rest| && MakesGroup(cfg, rest[n], g)
              && forall m :: n < m < |rest| ==> !DropsGroup(cfg, rest[m], g) {
        assert MakesGroup(cfg, es[n + 1], g);
      }
    }
  }

  lemma MakesOrDrops(cfg: Config, e: Event, g: Key)
    ensures !(MakesGroup(cfg, e, g) && DropsGroup(cfg, e, g))
  {}

  // ---- what a PUT answers and stores ----

  /** A PUT under the configured subscription that names a group of the store and a location. */
  predicate WellPut(cfg: Config, s: State, sub: string, rg: string, body: PutBody) {
    sub != "" && EqualFold(sub, cfg.subscription) && rg != "" && body.location != "" && KeyOf(sub, rg) in s.groups
  }

  /** Which of its answers a PUT gets; all but the last two and a recovery change nothing. */
  lemma PutAnswers(cfg: Config, s: State, sub: string, rg: string, name: string, body: PutBody, now: int)
    ensures var k, (t, answer), recover := KeyOf(sub, name), Put(cfg, s, sub, rg, name, body, now),
              Lower(body.properties.createMode) == "recover";
            var open := k in s.deleted && now < s.deleted[k].scheduledPurgeAt;
            && (WellPut(cfg, s, sub, rg, body) ==>
                  && (answer.Updated? <==> k in s.live)
                  && (answer.Recovered? <==> k !in s.live && open && recover)
                  && (answer.NameReserved? <==> k !in s.live && open && !recover)
                  && (answer.NothingToRecover? <==> k !in s.live && !open && recover)
                  && (answer.Created? <==> k !in s.live && !open && !recover))
            && (answer.PutRefused? <==> sub == "" || !EqualFold(sub, cfg.subscription))
            && (answer.GroupRequired? <==> Admits(cfg, sub) && rg == "")
            && (answer.LocationRequired? <==> Admits(cfg, sub) && rg != "" && body.location == "")
            && (answer.GroupNotFound? <==>
                  Admits(cfg, sub) && rg != "" && body.location != "" && KeyOf(sub, rg) !in s.groups)
            && (answer.Updated? || answer.Created? || answer.Recovered? || t == s)
  {
    assert Lower("recover") == "recover";
    hide Lower, Listed, NewVault, WithVault;
  }

  /** What an accepted PUT stores: the fields it gave with their defaults, and for a vault already
      there the subscription, the name as first spelled and the creation time it had. */
  lemma PutStores(cfg: Config, s: State, sub: string, rg: string, name: string, body: PutBody, now: int)
    requires Put(cfg, s, sub, rg, name, body, now).1.Created? || Put(cfg, s, sub, rg, name, body, now).1.Updated?
    ensures var k, (t, answer), p := KeyOf(sub, name), Put(cfg, s, sub, rg, name, body, now), body.properties;
            && k in t.live && t.live - {k} == s.live - {k} && t.deleted == s.deleted && t.groups == s.groups
            && var v := t.live[k];
               && v.group == rg && v.location == body.location
               && v.tags == (if body.tags.Some? && body.tags.value != "" then body.tags.value else "{}")
               && v.properties == Properties(if p.tenantId != "" then p.tenantId else cfg.tenantId,
                    Some(if p.policies.Some? then p.policies.value else []), "https://" + name + ".vault.azure.net/",
                    p.createMode, "Succeeded", p.others)
               && (answer.Created? ==> v.subscription == sub && v.name == name && v.createdAt == now)
               && (answer.Updated? ==> v.subscription == s.live[k].subscription && v.name == s.live[k].name
                                       && v.createdAt == s.live[k].createdAt)
  {
    hide Lower, EqualFold, Recovers;
  }

  // ---- purging ----

  /** A purge in the window takes the tombstone away and nothing else; any other purge changes
      nothing. */
  lemma PurgeMeaning(cfg: Config, s: State, sub: string, name: string, now: int)
    ensures var k, (t, answer) := KeyOf(sub, name), Purge(cfg, s, sub, name, now);
            && (answer.Purged? <==> Admits(cfg, sub) && k in s.deleted && now < s.deleted[k].scheduledPurgeAt)
            && (answer.Purged? ==> t == State(s.groups, s.live, s.deleted - {k}))
            && (!answer.Purged? ==> t == s && (answer.NotDeleted? <==> Admits(cfg, sub)))
  {
    hide Lower;
  }

  lemma ServeGone(cfg: Config, s: State, e: Event, now: int, k: Key)
    requires k !in s.live && k !in s.deleted && (e.VaultPut? ==> KeyOf(e.sub, e.name) != k)
    ensures k !in Serve(cfg, s, e, now).live && k !in Serve(cfg, s, e, now).deleted
  {
    OthersUntouched(cfg, s, e, now, k);
    hide Lower, PolicyOp, Listed, EqualFold, Put;
  }

  lemma {:induction false} RunGone(cfg: Config, w: World, es: seq<Event>, k: Key)
    requires k !in w.state.live && k !in w.state.deleted
    requires forall e :: e in es && e.VaultPut? ==> KeyOf(e.sub, e.name) != k
    ensures k !in Run(cfg, w, es).state.live && k !in Run(cfg, w, es).state.deleted
    decreases |es|
  {
    hide Serve;
    if es != [] {
      assert es[0] in es;
      ServeGone(cfg, w.state, es[0], w.Now(), k);
      RunGone(cfg, Step(cfg, w, es[0]), es[1..], k);
    }
  }

  /** A vault deleted and purged in its window is gone: through every later history without a PUT of
      its name, whatever the clock does, there is nothing to recover, and an ordinary PUT creates
      the name afresh. */
  lemma PurgedIsGone(cfg: Config, w: World, sub: string, name: string, es: seq<Event>, rg: string, spelled: string,
                     body: PutBody, now: int)
    requires Admits(cfg, sub) && KeyOf(sub, name) !in w.state.live
    requires Recoverable(w.state, KeyOf(sub, name), w.Now())
    requires forall e :: e in es && e.VaultPut? ==> KeyOf(e.sub, e.name) != KeyOf(sub, name)
    requires EqualFold(spelled, name)
    ensures var k, end := KeyOf(sub, name), Run(cfg, Step(cfg, w, VaultPurge(sub, name)), es);
            var (t, answer) := Put(cfg, end.state, sub, rg, spelled, body, now);
            && k !in end.state.live && !Recoverable(end.state, k, now)
            && (WellPut(cfg, end.state, sub, rg, body) ==>
                  if Recovers(body) then answer.NothingToRecover? && t == end.state
                  else answer.Created? && k in t.live)
  {
    var k := KeyOf(sub, name);
    assert KeyOf(sub, spelled) == k;
    hide Lower, Run, EqualFold, Listed, Recovers, NewVault;
    PurgeMeaning(cfg, w.state, sub, name, w.Now());
    RunGone(cfg, Step(cfg, w, VaultPurge(sub, name)), es, k);
    var end := Run(cfg, Step(cfg, w, VaultPurge(sub, name)), es);
    if Put(cfg, end.state, sub, rg, spelled, body, now).1.Created? {
      PutStores(cfg, end.state, sub, rg, spelled, body, now);
    }
  }

  // ---- editing access policies ----

  /** An edit of a live vault rewrites its policy list as its kind says, and nothing else; the three
      kinds are the only ones. */
  lemma EditStores(cfg: Config, s: State, sub: string, name: string, kind: string, incoming: Option<seq<Entry>>)
    ensures var k, (t, answer) := KeyOf(sub, name), Edit(cfg, s, sub, name, kind, incoming);
            && (answer.Edited? <==> Admits(cfg, sub) && Lower(kind) in {"add", "replace", "remove"} && k in s.live)
            && (answer.UnsupportedKind? <==> Admits(cfg, sub) && Lower(kind) !in {"add", "replace", "remove"})
            && (!answer.Edited? ==> t == s)
            && (answer.Edited? ==>
                  var was, v := s.live[k], t.live[k];
                  && v == was.(properties := was.properties.(policies := Some(answer.policies)))
                  && Edits(Listed(was.properties.policies), Listed(incoming), Lower(kind), answer.policies)
                  && t == State(s.groups, s.live[k := v], s.deleted))
  {
    hide Lower, EqualFold, PolicyOp, Listed, Edits;
    var k := KeyOf(sub, name);
    if k in s.live {
      EditMeaning(s.live[k].properties.policies, incoming, Lower(kind));
    }
  }

  // ---- deleting ----

  /** A delete of a live vault empties its key in the live table and nothing else there; any other
      delete changes nothing. */
  lemma DeleteMeaning(cfg: Config, s: State, sub: string, name: string, now: int)
    ensures var k, (t, answer) := KeyOf(sub, name), Delete(cfg, s, sub, name, now);
            && (answer.Deleted? <==> Admits(cfg, sub) && k in s.live)
            && (answer.NothingThere? <==> Admits(cfg, sub) && k !in s.live)
            && (answer.Deleted? ==> t.live == s.live - {k} && t.groups == s.groups && k in t.deleted
                                    && t.deleted - {k} == s.deleted - {k})
            && (!answer.Deleted? ==> t == s)
  {
    hide Lower, EqualFold;
  }
}
