/** Key vaults and their recoverable tombstones: the handlers of internal/arm/keyvault.go and
    deletedvaults.go over the two tables of internal/store/vaults.go and deletedvaults.go. Each
    handler is one atomic step; the clock's reading is an argument. */
module VaultTables {
  import opened Text
  import opened AccessPolicies

  /** The properties document; `others` stands for the members the handlers never look at. */
  datatype Properties = Properties(
    tenantId: string, policies: Option<seq<Entry>>, vaultUri: string, createMode: string,
    provisioningState: string, others: string)

  datatype Vault = Vault(
    subscription: string, group: string, name: string, location: string, tags: string,
    properties: Properties, createdAt: int)

  datatype DeletedVault = DeletedVault(
    subscription: string, group: string, name: string, location: string, tags: string,
    properties: Properties, deletedAt: int, scheduledPurgeAt: int)

  /** The primary key of both tables (and of resource groups): the subscription as spelled, the
      name in any case. */
  type Key = (string, string)

  function KeyOf(sub: string, name: string): Key {
    (sub, Lower(name))
  }

  datatype State = State(groups: set<Key>, live: map<Key, Vault>, deleted: map<Key, DeletedVault>)

  datatype Config = Config(subscription: string, tenantId: string, retentionDays: int)

  const DAY := 86400

  // ---- the tables ----

  /** A tombstone past its window is already gone, as if purged. */
  predicate Recoverable(s: State, k: Key, now: int) {
    k in s.deleted && s.deleted[k].scheduledPurgeAt > now
  }

  /** The upsert of the live table: an update keeps the row's spelling and creation time. */
  function Stored(s: State, v: Vault): Vault {
    var k := KeyOf(v.subscription, v.name);
    if k in s.live then
      s.live[k].(group := v.group, location := v.location, tags := v.tags, properties := v.properties)
    else v
  }

  function WithVault(s: State, v: Vault): State {
    s.(live := s.live[KeyOf(v.subscription, v.name) := Stored(s, v)])
  }

  /** The upsert of the deleted table: a leftover row keeps its spelling of the name. */
  function Tombstone(s: State, k: Key, v: Vault, now: int, days: int): DeletedVault {
    DeletedVault(if k in s.deleted then s.deleted[k].subscription else v.subscription, v.group,
                 if k in s.deleted then s.deleted[k].name else v.name, v.location, v.tags, v.properties,
                 now, now + days * DAY)
  }

  function SoftDeleted(s: State, k: Key, now: int, days: int): State
    requires k in s.live
  {
    s.(deleted := s.deleted[k := Tombstone(s, k, s.live[k], now, days)], live := s.live - {k})
  }

  function Revived(d: DeletedVault, now: int): Vault {
    Vault(d.subscription, d.group, d.name, d.location, d.tags, d.properties, now)
  }

  // ---- the handlers ----

  /** Every vault path needs a subscription, and only the configured one exists. */
  predicate Admits(cfg: Config, sub: string) {
    sub != "" && EqualFold(sub, cfg.subscription)
  }

  datatype PutBody = PutBody(location: string, tags: Option<string>, properties: Properties)

  datatype PutOutcome =
    | PutRefused | GroupRequired | LocationRequired | GroupNotFound | Recovered(v: Vault)
    | NameReserved | NothingToRecover | Created(v: Vault) | Updated(v: Vault)

  predicate Recovers(body: PutBody) {
    EqualFold(body.properties.createMode, "recover")
  }

  function NewVault(cfg: Config, sub: string, rg: string, name: string, body: PutBody, now: int): Vault {
    var p := body.properties;
    Vault(sub, rg, name, body.location, if body.tags.None? || body.tags.value == "" then "{}" else body.tags.value,
          p.(policies := Some(Listed(p.policies)),
             tenantId := if p.tenantId == "" then cfg.tenantId else p.tenantId,
             vaultUri := "https://" + name + ".vault.azure.net/",
             provisioningState := "Succeeded"), now)
  }

  function Put(cfg: Config, s: State, sub: string, rg: string, name: string, body: PutBody,
               now: int): (State, PutOutcome)
  {
    var k := KeyOf(sub, name);
    if !Admits(cfg, sub) then (s, PutRefused)
    else if rg == "" then (s, GroupRequired)
    else if body.location == "" then (s, LocationRequired)
    else if KeyOf(sub, rg) !in s.groups then (s, GroupNotFound)
    else if k !in s.live && Recoverable(s, k, now) then
      if Recovers(body) then
        var v := Revived(s.deleted[k], now);
        (s.(live := s.live[k := v], deleted := s.deleted - {k}), Recovered(v))
      else (s, NameReserved)
    else if k !in s.live && Recovers(body) then (s, NothingToRecover)
    else
      var v := NewVault(cfg, sub, rg, name, body, now);
      (WithVault(s, v), if k in s.live then Updated(v) else Created(v))
  }

  datatype DeleteOutcome = DeleteRefused | NothingThere | Deleted

  function Delete(cfg: Config, s: State, sub: string, name: string, now: int): (State, DeleteOutcome) {
    var k := KeyOf(sub, name);
    if !Admits(cfg, sub) then (s, DeleteRefused)
    else if k !in s.live then (s, NothingThere)
    else (SoftDeleted(s, k, now, cfg.retentionDays), Deleted)
  }

  datatype PurgeOutcome = PurgeRefused | NotDeleted | Purged

  function Purge(cfg: Config, s: State, sub: string, name: string, now: int): (State, PurgeOutcome) {
    var k := KeyOf(sub, name);
    if !Admits(cfg, sub) then (s, PurgeRefused)
    else if !Recoverable(s, k, now) then (s, NotDeleted)
    else (s.(deleted := s.deleted - {k}), Purged)
  }

  datatype EditOutcome = EditRefused | UnsupportedKind | NoSuchVault | Edited(policies: seq<Entry>)

  const KINDS := ["add", "replace", "remove"]

  function Edit(cfg: Config, s: State, sub: string, name: string, kind: string,
                incoming: Option<seq<Entry>>): (State, EditOutcome)
  {
    var k := KeyOf(sub, name);
    if !Admits(cfg, sub) then (s, EditRefused)
    else if Lower(kind) !in KINDS then (s, UnsupportedKind)
    else if k !in s.live then (s, NoSuchVault)
    else
      var p := s.live[k].properties;
      var policies := PolicyOp(Listed(p.policies), Listed(incoming), Lower(kind));
      (s.(live := s.live[k := s.live[k].(properties := p.(policies := Some(policies)))]), Edited(policies))
  }

  /** Deleting a resource group leaves its vaults where they are. */
  function PutGroup(cfg: Config, s: State, sub: string, name: string, location: string): State {
    if EqualFold(sub, cfg.subscription) && location != "" then s.(groups := s.groups + {KeyOf(sub, name)}) else s
  }

  function DeleteGroup(cfg: Config, s: State, sub: string, name: string): State {
    if EqualFold(sub, cfg.subscription) then s.(groups := s.groups - {KeyOf(sub, name)}) else s
  }

  /** Rows sit under their own key, with the columns PutVault defaults filled in. */
  predicate Consistent(s: State) {
    && (forall k :: k in s.live ==>
          k == KeyOf(s.live[k].subscription, s.live[k].name) && s.live[k].location != "" && s.live[k].tags != "")
    && (forall k :: k in s.deleted ==>
          k == KeyOf(s.deleted[k].subscription, s.deleted[k].name) && s.deleted[k].location != ""
          && s.deleted[k].tags != "")
  }

  // ---- the store and the handlers as methods ----

  class VaultStore {
    const cfg: Config
    var groups: set<Key>
    var live: map<Key, Vault>
    var deleted: map<Key, DeletedVault>

    function View(): State
      reads this
    {
      State(groups, live, deleted)
    }

    constructor (cfg: Config)
      ensures View() == State({}, map[], map[]) && this.cfg == cfg
    {
      this.cfg := cfg;
      groups, live, deleted := {}, map[], map[];
    }

    method GetVault(sub: string, name: string) returns (v: Option<Vault>)
      ensures v == if KeyOf(sub, name) in live then Some(live[KeyOf(sub, name)]) else None
    {
      var k := KeyOf(sub, name);
      return if k in live then Some(live[k]) else None;
    }

    method GetDeletedVault(sub: string, name: string, now: int) returns (d: Option<DeletedVault>)
      ensures d.Some? <==> Recoverable(View(), KeyOf(sub, name), now)
      ensures d.Some? ==> d.value == deleted[KeyOf(sub, name)]
    {
      var k := KeyOf(sub, name);
      return if k in deleted && deleted[k].scheduledPurgeAt > now then Some(deleted[k]) else None;
    }

    /** Fills in defaults and the creation time, then upserts. */
    method PutVault(given: Vault, now: int) returns (v: Vault)
      modifies this
      ensures v == given.(tags := if given.tags == "" then "{}" else given.tags,
                          location := if given.location == "" then "westeurope" else given.location, createdAt := now)
      ensures View() == WithVault(old(View()), v)
    {
      v := given;
      if v.tags == "" {
        v := v.(tags := "{}");
      }
      if v.location == "" {
        v := v.(location := "westeurope");
      }
      v := v.(createdAt := now);
      var k := KeyOf(v.subscription, v.name);
      if k in live {
        var row := live[k];
        live := live[k := row.(group := v.group, location := v.location, tags := v.tags, properties := v.properties)];
      } else {
        live := live[k := v];
      }
    }

    method SoftDeleteVault(sub: string, name: string, days: int, now: int) returns (found: bool)
      modifies this
      ensures found <==> KeyOf(sub, name) in old(live)
      ensures View() == if found then SoftDeleted(old(View()), KeyOf(sub, name), now, days) else old(View())
    {
      var k := KeyOf(sub, name);
      if k !in live {
        return false;
      }
      var v := live[k];
      if k in deleted {
        deleted := deleted[k := deleted[k].(group := v.group, location := v.location, tags := v.tags,
                                            properties := v.properties, deletedAt := now,
                                            scheduledPurgeAt := now + days * DAY)];
      } else {
        deleted := deleted[k := DeletedVault(v.subscription, v.group, v.name, v.location, v.tags, v.properties,
                                              now, now + days * DAY)];
      }
      live := live - {k};
      return true;
    }

    method PurgeVault(sub: string, name: string) returns (found: bool)
      modifies this
      ensures found <==> KeyOf(sub, name) in old(deleted)
      ensures View() == old(View()).(deleted := old(deleted) - {KeyOf(sub, name)})
    {
      found := KeyOf(sub, name) in deleted;
      deleted := deleted - {KeyOf(sub, name)};
    }

    /** Restores a tombstone inside its window; the insert would update a live row if there were one. */
    method RecoverVault(sub: string, name: string, now: int) returns (v: Option<Vault>)
      modifies this
      ensures v.Some? <==> Recoverable(old(View()), KeyOf(sub, name), now)
      ensures v.Some? ==> v.value == Revived(old(deleted)[KeyOf(sub, name)], now)
      ensures v.Some? && Consistent(old(View())) ==>
              View() == WithVault(old(View()), v.value).(deleted := old(deleted) - {KeyOf(sub, name)})
      ensures v.None? ==> View() == old(View())
    {
      var d := GetDeletedVault(sub, name, now);
      if d.None? {
        return None;
      }
      var r := Revived(d.value, now);
      var k := KeyOf(r.subscription, r.name);
      if k in live {
        var row := live[k];
        live := live[k := row.(group := r.group, location := r.location, tags := r.tags, properties := r.properties)];
      } else {
        live := live[k := r];
      }
      deleted := deleted - {KeyOf(sub, name)};
      return Some(r);
    }

    method HandlePut(sub: string, rg: string, name: string, body: PutBody, now: int) returns (r: PutOutcome)
      requires Consistent(View())
      modifies this
      ensures (View(), r) == Put(cfg, old(View()), sub, rg, name, body, now)
    {
      hide Consistent, Lower, Listed;
      if !Admits(cfg, sub) {
        return PutRefused;
      }
      if rg == "" {
        return GroupRequired;
      }
      if body.location == "" {
        return LocationRequired;
      }
      if KeyOf(sub, rg) !in groups {
        return GroupNotFound;
      }
      var found := GetVault(sub, name);
      var existed := found.Some?;
      if !existed {
        var tombstone := GetDeletedVault(sub, name, now);
        if tombstone.Some? {
          if Recovers(body) {
            KeyOfTombstone(View(), KeyOf(sub, name));
            var v := RecoverVault(sub, name, now);
            return Recovered(v.value);
          }
          return NameReserved;
        }
        if Recovers(body) {
          return NothingToRecover;
        }
      }
      var props := body.properties;
      if props.policies.None? {
        props := props.(policies := Some([]));
      }
      if props.tenantId == "" {
        props := props.(tenantId := cfg.tenantId);
      }
      props := props.(vaultUri := "https://" + name + ".vault.azure.net/", provisioningState := "Succeeded");
      var v := Vault(sub, rg, name, body.location, if body.tags.Some? then body.tags.value else "", props, 0);
      v := PutVault(v, now);
      assert v == NewVault(cfg, sub, rg, name, body, now) by {
        ListedAgain(body.properties.policies);
      }
      return if existed then Updated(v) else Created(v);
    }

    method HandleDelete(sub: string, name: string, now: int) returns (r: DeleteOutcome)
      modifies this
      ensures (View(), r) == Delete(cfg, old(View()), sub, name, now)
    {
      if !Admits(cfg, sub) {
        return DeleteRefused;
      }
      var found := SoftDeleteVault(sub, name, cfg.retentionDays, now);
      return if found then Deleted else NothingThere;
    }

    method HandlePurge(sub: string, name: string, now: int) returns (r: PurgeOutcome)
      modifies this
      ensures (View(), r) == Purge(cfg, old(View()), sub, name, now)
    {
      if !Admits(cfg, sub) {
        return PurgeRefused;
      }
      var d := GetDeletedVault(sub, name, now);
      if d.None? {
        return NotDeleted;
      }
      var found := PurgeVault(sub, name);
      return Purged;
    }

    method HandleEdit(sub: string, name: string, kind: string, incoming: Option<seq<Entry>>,
                      now: int) returns (r: EditOutcome)
      requires Consistent(View())
      modifies this
      ensures (View(), r) == Edit(cfg, old(View()), sub, name, kind, incoming)
    {
      hide PolicyOp, Lower, Listed;
      if !Admits(cfg, sub) {
        return EditRefused;
      }
      if Lower(kind) !in KINDS {
        return UnsupportedKind;
      }
      var found := GetVault(sub, name);
      if found.None? {
        return NoSuchVault;
      }
      var policies := ApplyPolicyOp(found.value.properties.policies, incoming, Lower(kind));
      var v := PutVault(found.value.(properties := found.value.properties.(policies := Some(policies))), now);
      return Edited(policies);
    }
  }

  lemma ListedAgain(list: Option<seq<Entry>>)
    ensures Listed(list) == if list.None? then [] else list.value
  {}

  lemma KeyOfTombstone(s: State, k: Key)
    requires Consistent(s) && k in s.deleted
    ensures KeyOf(s.deleted[k].subscription, s.deleted[k].name) == k
  {}
}
