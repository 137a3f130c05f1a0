/**
 * Whole runs of the controller registry: any sequence of registrations, poll successes, presence
 * reconciliations, synchronisations and restarts, from any synchronised state.
 */
module RegistryRuns {
  import opened Options
  import opened Text
  import opened Inventory
  import opened InventoryInvariant
  import opened Attribution
  import opened Scopes

  datatype Event =
    | Observe(observation: Observation, now: nat, owner: Option<ControllerId>, rows: seq<(ControllerId, DeviceId)>)
    | RecordSuccess(uid: Uid, key: Key, now: nat)
    | ReconcilePresence(observed: set<(Uid, Key)>)
    | MarkAllOffline
    | Synchronize(rows: seq<(ControllerId, DeviceId)>)

  /** The controller ids current for the observed UIDs; unknown UIDs are dropped. */
  function Translate(s: ScopeTables, observed: set<(Uid, Key)>): set<(ControllerId, Key)> {
    set p | p in observed && p.0 in s.physical :: (s.physical[p.0].current, p.1)
  }

  ghost predicate Step(w: World, e: Event, w': World) {
    match e
    case Observe(o, now, owner, rows) =>
      && IsEndpointOwner(w.tables, KeyOf(o), owner)
      && w'.tables == Register(w.tables, o, now, owner).tables
      && Listing(w'.tables, rows)
      && SyncRows(w.scopes, rows) == Some(w'.scopes)
    case RecordSuccess(uid, key, now) =>
      && w'.scopes == w.scopes
      && w'.tables == if uid in w.scopes.physical then Succeed(w.tables, CurrentOf(w, uid), key, now) else w.tables
    case ReconcilePresence(observed) =>
      w' == w.(tables := SetActive(w.tables, Translate(w.scopes, observed)))
    case MarkAllOffline =>
      w' == w.(tables := SetActive(w.tables, {}))
    case Synchronize(rows) =>
      w'.tables == w.tables && Listing(w.tables, rows) && SyncRows(w.scopes, rows) == Some(w'.scopes)
  }

  ghost predicate Reuses(w: World, e: Event) {
    e.Observe? && ReusesRetiredAlias(w, e.observation, e.owner)
  }

  ghost predicate Run(ws: seq<World>, es: seq<Event>) {
    |ws| == |es| + 1 && forall i :: 0 <= i < |es| ==> Step(ws[i], es[i], ws[i + 1])
  }

  lemma FlagsKeepValid(w: World, t': Tables)
    requires Valid(w) && Inv(t') && Evolves(w.tables, t')
    requires t'.identities == w.tables.identities
    ensures Valid(w.(tables := t')) && Extends(w, w.(tables := t'))
  {
    FlagsKeepSynced(w.tables, t', w.scopes);
    EvolvedExtends(w, w.(tables := t'));
  }

  lemma FlagsKeepSynced(t: Tables, t': Tables, s: ScopeTables)
    requires Synced(t, s) && t'.identities == t.identities
    ensures Synced(t', s)
  {
    forall c | c in t'.identities
      ensures Settled(t', s, c) && AliasAgrees(t', s, c)
    {
      assert Settled(t, s, c);
    }
    forall u | u in s.physical
      ensures Alive(t', s.physical[u].canonical)
    {
      assert Alive(t, s.physical[u].canonical);
      var c :| c in t.identities && t.identities[c].canonical == s.physical[u].canonical;
    }
  }

  lemma StepKeepsValid(w: World, e: Event, w': World)
    requires Valid(w) && Step(w, e, w') && !Reuses(w, e)
    ensures Valid(w') && Extends(w, w')
  {
    match e
    case Observe(o, now, owner, rows) =>
      RegisterKeepsValid(w, o, now, owner, rows);
    case RecordSuccess(uid, key, now) =>
      if uid in w.scopes.physical {
        SucceedKeepsInv(w.tables, CurrentOf(w, uid), key, now);
        FlagsKeepValid(w, w'.tables);
      } else {
        ExtendsReflexive(w);
      }
    case ReconcilePresence(observed) =>
      PresenceKeepsInv(w.tables, Translate(w.scopes, observed));
      FlagsKeepValid(w, w'.tables);
    case MarkAllOffline =>
      PresenceKeepsInv(w.tables, {});
      FlagsKeepValid(w, w'.tables);
    case Synchronize(rows) =>
      SyncIdempotent(w.tables, w.scopes, rows);
      ExtendsReflexive(w);
  }

  /** A success refreshes the connection of the UID's current identity at that key, if there is one, and nothing else. */
  lemma SuccessExactly(w: World, uid: Uid, key: Key, now: nat, w': World, c: ControllerId, k: Key)
    requires Step(w, RecordSuccess(uid, key, now), w')
    ensures w'.scopes == w.scopes && (w'.tables.Connected(c, k) <==> w.tables.Connected(c, k))
    ensures w.tables.Connected(c, k) ==>
      var refreshed := uid in w.scopes.physical && c == CurrentOf(w, uid) && k == key;
      w'.tables.connections[c][k] == if refreshed then Connection(now, true) else w.tables.connections[c][k]
  {
    if uid in w.scopes.physical {
      SucceedExactly(w.tables, CurrentOf(w, uid), key, now, c, k);
    }
  }

  /** Marking everything offline leaves no connection active, and every other part of it as it was. */
  lemma OfflineExactly(w: World, w': World, c: ControllerId, k: Key)
    requires Step(w, MarkAllOffline, w')
    ensures w'.scopes == w.scopes && (w'.tables.Connected(c, k) <==> w.tables.Connected(c, k))
    ensures w.tables.Connected(c, k) ==> w'.tables.connections[c][k] == w.tables.connections[c][k].(active := false)
  {
  }

  /** UID immutability over whole runs: every earlier world is extended by every later one. */
  lemma {:induction false} UidsAreImmutable(ws: seq<World>, es: seq<Event>, i: nat, j: nat)
    requires Run(ws, es) && i <= j < |ws| && Valid(ws[0])
    requires forall k :: 0 <= k < |es| ==> !Reuses(ws[k], es[k])
    ensures Valid(ws[i]) && Valid(ws[j]) && Extends(ws[i], ws[j])
    decreases j
  {
    if j == 0 {
      ExtendsReflexive(ws[0]);
    } else {
      UidsAreImmutable(ws, es, if i < j then i else i - 1, j - 1);
      StepKeepsValid(ws[j - 1], es[j - 1], ws[j]);
      if i < j {
        ExtendsTransitive(ws[i], ws[j - 1], ws[j]);
      } else {
        ExtendsReflexive(ws[j]);
      }
    }
  }

  /** An identifier that ever resolved keeps resolving to the same UID and device over the whole run. */
  lemma ResolvedOnceResolvedForEver(ws: seq<World>, es: seq<Event>, i: nat, j: nat, id: Identifier)
    requires Run(ws, es) && i <= j < |ws| && Valid(ws[0])
    requires forall k :: 0 <= k < |es| ==> !Reuses(ws[k], es[k])
    requires Resolve(ws[i], id).Some?
    ensures Resolve(ws[j], id).Some?
    ensures Resolve(ws[j], id).value.uid == Resolve(ws[i], id).value.uid
    ensures Resolve(ws[j], id).value.canonical == Resolve(ws[i], id).value.canonical
    ensures Resolve(ws[i], id).value.history <= Resolve(ws[j], id).value.history
  {
    UidsAreImmutable(ws, es, i, j);
    ResolutionIsStable(ws[i], ws[j], id);
  }

  // ----- Serials never merge -----

  /** The UID and device an observation step returned. */
  ghost function ReturnedUid(ws: seq<World>, es: seq<Event>, i: nat): Uid
    requires i < |es| && |ws| == |es| + 1 && es[i].Observe?
    requires es[i].owner.Some? ==> es[i].owner.value in ws[i].tables.identities
  {
    var c := Register(ws[i].tables, es[i].observation, es[i].now, es[i].owner).controller;
    if c in ws[i + 1].scopes.aliases then ws[i + 1].scopes.aliases[c] else 0
  }

  /** A registration returns the UID whose identity and device it was attributed to. */
  lemma ReturnedUidIsAttributed(ws: seq<World>, es: seq<Event>, i: nat) returns (r: Registered)
    requires Run(ws, es) && i < |es| && Valid(ws[i]) && es[i].Observe? && !Reuses(ws[i], es[i])
    ensures Step(ws[i], es[i], ws[i + 1])
    ensures r == Register(ws[i].tables, es[i].observation, es[i].now, es[i].owner)
    ensures Attributed(es[i].observation, r)
    ensures ReturnedUid(ws, es, i) in ws[i + 1].scopes.physical
    ensures ws[i + 1].scopes.physical[ReturnedUid(ws, es, i)] == Physical(r.device, r.controller)
  {
    assert Step(ws[i], es[i], ws[i + 1]);
    r := ObserveOutcome(ws[i], es[i], ws[i + 1]);
    SettledUid(ws[i + 1], r.controller);
  }

  lemma ObserveOutcome(w: World, e: Event, w': World) returns (r: Registered)
    requires Valid(w) && e.Observe? && Step(w, e, w') && !Reuses(w, e)
    ensures r == Register(w.tables, e.observation, e.now, e.owner) && r.tables == w'.tables
    ensures Attributed(e.observation, r) && Evolves(w.tables, w'.tables) && Synced(w'.tables, w'.scopes)
  {
    r := Register(w.tables, e.observation, e.now, e.owner);
    RegisterKeepsInv(w.tables, e.observation, e.now, e.owner);
    StepKeepsValid(w, e, w');
  }

  /**
   * The answer to an observation: the current identity is the controller that is meant, connected
   * where it was observed, under the UID it had before, or under one never in use if it is new.
   */
  ghost predicate Answers(w: World, o: Observation, owner: Option<ControllerId>, uid: Uid, device: DeviceId, w': World)
    requires owner.Some? ==> owner.value in w.tables.identities
  {
    && uid in w'.scopes.physical && w'.scopes.physical[uid] == Physical(device, Meant(w.tables, o, owner))
    && w'.tables.Connected(Meant(w.tables, o, owner), KeyOf(o))
    && (if Newcomer(w.tables, o, owner) then uid !in w.scopes.physical
        else Former(w.tables, o, owner) in w.scopes.aliases && uid == w.scopes.aliases[Former(w.tables, o, owner)])
  }

  /** A registration that reuses no retired alias answers with the controller that is meant. */
  lemma StepAnswers(w: World, e: Event, w': World)
    requires Valid(w) && e.Observe? && Step(w, e, w') && !Reuses(w, e)
    ensures e.owner.Some? ==> e.owner.value in w.tables.identities
    ensures var r := Register(w.tables, e.observation, e.now, e.owner);
      r.controller in w'.scopes.aliases && Answers(w, e.observation, e.owner, w'.scopes.aliases[r.controller], r.device, w')
  {
    OwnerIsKnown(w.tables, e.observation, e.owner);
    hide Inv, Synced, Evolves, SyncRows, Listing, Extends, Register, Meant, Former, Newcomer, IdOf, KeyOf, IsEndpointOwner;
    var r := ObserveOutcome(w, e, w');
    StepKeepsValid(w, e, w');
    AttributionExactly(w.tables, e.observation, e.now, e.owner);
    SettledUid(w', r.controller);
    if Newcomer(w.tables, e.observation, e.owner) {
      FreshDeviceFreshUid(w, w', r.controller);
    } else {
      SameDeviceSameUid(w, w', Former(w.tables, e.observation, e.owner), r.controller);
    }
  }

  /** What a registration returned resolves at every later point, under the UID and under the id, to one scope of its device. */
  lemma ReturnedResolvesForEver(ws: seq<World>, es: seq<Event>, i: nat, j: nat)
    requires Run(ws, es) && i < j < |ws| && Valid(ws[0]) && es[i].Observe?
    requires forall k :: 0 <= k < |es| ==> !Reuses(ws[k], es[k])
    ensures es[i].owner.Some? ==> es[i].owner.value in ws[i].tables.identities
    ensures
      var r := Register(ws[i].tables, es[i].observation, es[i].now, es[i].owner);
      var scope := Resolve(ws[j], ByUid(ReturnedUid(ws, es, i)));
      && scope.Some? && scope.value.canonical == r.device && r.device in scope.value.history
      && Resolve(ws[j], ById(r.controller)) == scope
      && ws[j].tables.Connected(scope.value.controller, KeyOf(es[i].observation))
      && (r.controller.SerialId? ==> scope.value.controller == r.controller)
  {
    UidsAreImmutable(ws, es, i, j);
    UidsAreImmutable(ws, es, i + 1, j);
    var r := ReturnedUidIsAttributed(ws, es, i);
    hide Valid, Step, Reuses, Register;
    StaysResolved(ws[i + 1], ws[j], r.controller);
    ResolvesExactly(ws[j], ByUid(ReturnedUid(ws, es, i)));
  }

  lemma StaysResolved(w: World, w': World, c: ControllerId)
    requires Valid(w) && Valid(w') && Extends(w, w') && c in w.tables.identities
    ensures c in w.scopes.aliases && Resolve(w', ById(c)) == Resolve(w', ByUid(w.scopes.aliases[c]))
    ensures var scope := Resolve(w', ById(c));
      && scope.Some? && scope.value.canonical == w.tables.identities[c].canonical
      && (c.SerialId? ==> scope.value.controller == c)
      && (forall k :: w.tables.Connected(c, k) ==> w'.tables.Connected(scope.value.controller, k))
  {
    hide Inv, Synced, History;
    SettledUid(w, c);
    assert KeepsUid(w, w', w.scopes.aliases[c]);
  }

  /** Every identity and every alias of some point of a run resolves at all later ones, to the UID it had. */
  lemma KnownResolvesForEver(ws: seq<World>, es: seq<Event>, i: nat, j: nat, c: ControllerId)
    requires Run(ws, es) && i <= j < |ws| && Valid(ws[0])
    requires forall k :: 0 <= k < |es| ==> !Reuses(ws[k], es[k])
    requires c in ws[i].tables.identities || c in ws[i].scopes.aliases
    ensures c in ws[i].scopes.aliases
    ensures Resolve(ws[j], ById(c)).Some? && Resolve(ws[j], ById(c)).value.uid == ws[i].scopes.aliases[c]
  {
    UidsAreImmutable(ws, es, i, j);
    hide Step, Reuses, Inv, History;
    if c in ws[i].tables.identities {
      SettledUid(ws[i], c);
    }
    ResolvesExactly(ws[j], ById(c));
  }

  ghost predicate SerialsDiffer(e: Event, f: Event) {
    && e.Observe? && Strip(e.observation.serial) != ""
    && f.Observe? && Strip(f.observation.serial) != ""
    && Fold(e.observation.serial) != Fold(f.observation.serial)
  }

  /** Different serials, without reuse of a retired alias: in any order of the listings. */
  lemma SerialsApartWithoutReuse(ws: seq<World>, es: seq<Event>, i: nat, j: nat)
    requires Run(ws, es) && i <= j < |es| && Valid(ws[0])
    requires forall k :: 0 <= k < |es| ==> !Reuses(ws[k], es[k])
    requires SerialsDiffer(es[i], es[j])
    ensures Step(ws[i], es[i], ws[i + 1]) && Step(ws[j], es[j], ws[j + 1])
    ensures ReturnedUid(ws, es, i) != ReturnedUid(ws, es, j)
    ensures Register(ws[i].tables, es[i].observation, es[i].now, es[i].owner).device
         != Register(ws[j].tables, es[j].observation, es[j].now, es[j].owner).device
  {
    UidsAreImmutable(ws, es, i, j);
    UidsAreImmutable(ws, es, i + 1, j + 1);
    var r := ReturnedUidIsAttributed(ws, es, i);
    var r' := ReturnedUidIsAttributed(ws, es, j);
    KeptApart(ws[i + 1], ws[j + 1], ReturnedUid(ws, es, i), ReturnedUid(ws, es, j));
  }

  /** A UID that is one serial identity now is not another one later, nor does its device move there. */
  lemma KeptApart(w: World, w': World, u: Uid, v: Uid)
    requires Extends(w, w') && UniqueCanonical(w'.scopes) && u in w.scopes.physical && v in w'.scopes.physical
    requires CurrentOf(w, u).SerialId? && CurrentOf(w', v) != CurrentOf(w, u)
    ensures u != v && w'.scopes.physical[v].canonical != w.scopes.physical[u].canonical
  {
  }

  // Runs that do reuse a retired alias: the listing by time of last sight still keeps serials apart.

  /** The identity an observation was attributed to was seen last, so it is listed last. */
  ghost predicate ObservedLast(w: World, e: Event) {
    e.Observe? && IsEndpointOwner(w.tables, KeyOf(e.observation), e.owner) ==>
      ListedLast(e.rows, Register(w.tables, e.observation, e.now, e.owner).controller)
  }

  /** What is left of the joint invariant after a reuse. */
  ghost predicate SerialsApart(w: World) {
    && Inv(w.tables) && Bounded(w.scopes) && SerialAliasesDiffer(w.scopes)
    && w.tables.identities.Keys <= w.scopes.aliases.Keys
    && (forall c :: c in w.scopes.aliases && c.SerialId? ==> c in w.tables.identities)
  }

  ghost predicate KeepsSerials(w: World, w': World) {
    && (forall c :: c in w.scopes.aliases ==> c in w'.scopes.aliases && w'.scopes.aliases[c] == w.scopes.aliases[c])
    && (forall c :: c in w.tables.identities && c.SerialId? ==>
          c in w'.tables.identities && w'.tables.identities[c].canonical == w.tables.identities[c].canonical)
  }

  lemma ValidIsApart(w: World)
    requires Valid(w)
    ensures SerialsApart(w)
  {
    forall c | c in w.scopes.aliases && c.SerialId?
      ensures w.scopes.physical[w.scopes.aliases[c]].current == c
    {
      assert Settled(w.tables, w.scopes, c);
    }
  }

  lemma ObserveKeepsApart(w: World, e: Event, w': World)
    requires SerialsApart(w) && e.Observe? && Step(w, e, w') && ObservedLast(w, e)
    ensures SerialsApart(w') && KeepsSerials(w, w')
  {
    var r := Register(w.tables, e.observation, e.now, e.owner);
    RegisterKeepsInv(w.tables, e.observation, e.now, e.owner);
    AddedController(w.tables, e.observation, e.now, e.owner);
    ListedApart(w, r.tables, r.controller, e.rows, w');
  }

  lemma ListedApart(w: World, t': Tables, c: ControllerId, rows: seq<(ControllerId, DeviceId)>, w': World)
    requires SerialsApart(w) && Inv(t') && Evolves(w.tables, t') && c in t'.identities
    requires t'.identities.Keys <= w.tables.identities.Keys + {c}
    requires w'.tables == t' && Listing(t', rows) && SyncRows(w.scopes, rows) == Some(w'.scopes) && ListedLast(rows, c)
    ensures SerialsApart(w') && KeepsSerials(w, w')
  {
    BeforePass(w, t', c);
    InvDistinct(t');
    hide *;
    LastPassKeepsApart(t', w.scopes, rows, c);
    SyncNeverRepoints(w.scopes, rows);
    AfterPass(w, c, w');
  }

  lemma BeforePass(w: World, t': Tables, c: ControllerId)
    requires SerialsApart(w) && Evolves(w.tables, t') && t'.identities.Keys <= w.tables.identities.Keys + {c}
    ensures Bounded(w.scopes) && SerialAliasesDiffer(w.scopes)
    ensures forall x :: x in t'.identities ==> x == c || x in w.scopes.aliases
    ensures forall x :: x in w.scopes.aliases && x.SerialId? ==> x in t'.identities
  {
    hide Inv, Bounded, SerialAliasesDiffer;
    SerialsStay(w.tables, t');
  }

  lemma AfterPass(w: World, c: ControllerId, w': World)
    requires Inv(w'.tables) && Evolves(w.tables, w'.tables) && c in w'.tables.identities
    requires Bounded(w'.scopes) && SerialAliasesDiffer(w'.scopes) && w'.scopes.aliases.Keys == w.scopes.aliases.Keys + {c}
    requires forall x :: x in w'.tables.identities ==> x == c || x in w.scopes.aliases
    requires forall x :: x in w.scopes.aliases && x.SerialId? ==> x in w'.tables.identities
    requires forall x :: x in w.scopes.aliases ==> x in w'.scopes.aliases && w'.scopes.aliases[x] == w.scopes.aliases[x]
    ensures SerialsApart(w') && KeepsSerials(w, w')
  {
    AliasesCover(w, c, w');
    SerialsStay(w.tables, w'.tables);
    hide Inv, Bounded, SerialAliasesDiffer, Evolves;
  }

  lemma AliasesCover(w: World, c: ControllerId, w': World)
    requires c in w'.tables.identities && w'.scopes.aliases.Keys == w.scopes.aliases.Keys + {c}
    requires forall x :: x in w'.tables.identities ==> x == c || x in w.scopes.aliases
    requires forall x :: x in w.scopes.aliases && x.SerialId? ==> x in w'.tables.identities
    ensures w'.tables.identities.Keys <= w'.scopes.aliases.Keys
    ensures forall x :: x in w'.scopes.aliases && x.SerialId? ==> x in w'.tables.identities
  {
    assert forall x :: x in w'.scopes.aliases <==> x in w.scopes.aliases || x == c;
  }

  lemma SerialsStay(t: Tables, t': Tables)
    requires Evolves(t, t')
    ensures forall c :: c in t.identities && c.SerialId? ==>
      c in t'.identities && t'.identities[c].canonical == t.identities[c].canonical
  {
  }

  lemma AddedController(t: Tables, o: Observation, now: nat, owner: Option<ControllerId>)
    requires IsEndpointOwner(t, KeyOf(o), owner)
    ensures var r := Register(t, o, now, owner);
      r.controller in r.tables.identities && r.tables.identities.Keys <= t.identities.Keys + {r.controller}
  {
    RegisterAdds(t, o, now, owner);
  }

  lemma StepKeepsApart(w: World, e: Event, w': World)
    requires SerialsApart(w) && Step(w, e, w') && ObservedLast(w, e)
    ensures SerialsApart(w') && KeepsSerials(w, w')
  {
    match e
    case Observe(_, _, _, _) =>
      ObserveKeepsApart(w, e, w');
    case RecordSuccess(uid, key, now) =>
      if uid in w.scopes.physical {
        SucceedKeepsInv(w.tables, CurrentOf(w, uid), key, now);
      }
    case ReconcilePresence(observed) =>
      PresenceKeepsInv(w.tables, Translate(w.scopes, observed));
    case MarkAllOffline =>
      PresenceKeepsInv(w.tables, {});
    case Synchronize(rows) =>
      AliasedPass(w.scopes, rows);
  }

  lemma {:induction false} RunsKeepApart(ws: seq<World>, es: seq<Event>, i: nat, j: nat)
    requires Run(ws, es) && i <= j < |ws| && SerialsApart(ws[0])
    requires forall k :: 0 <= k < |es| ==> ObservedLast(ws[k], es[k])
    ensures SerialsApart(ws[i]) && SerialsApart(ws[j]) && KeepsSerials(ws[i], ws[j])
    decreases j
  {
    hide SerialsApart, Step, ObservedLast;
    if j > 0 {
      RunsKeepApart(ws, es, if i < j then i else i - 1, j - 1);
      StepKeepsApart(ws[j - 1], es[j - 1], ws[j]);
    }
  }

  /** The serial identity an observation was attributed to, with its alias and device. */
  lemma SerialAttributed(w: World, e: Event, w': World) returns (r: Registered)
    requires SerialsApart(w) && e.Observe? && Step(w, e, w') && ObservedLast(w, e) && Strip(e.observation.serial) != ""
    ensures r == Register(w.tables, e.observation, e.now, e.owner)
    ensures r.controller.SerialId? && r.controller.serial == Fold(e.observation.serial)
    ensures r.controller in w'.tables.identities && w'.tables.identities[r.controller].canonical == r.device
    ensures r.controller in w'.scopes.aliases
  {
    r := Register(w.tables, e.observation, e.now, e.owner);
    RegisterKeepsInv(w.tables, e.observation, e.now, e.owner);
    ObserveKeepsApart(w, e, w');
  }

  lemma SerialsApartInOrder(ws: seq<World>, es: seq<Event>, i: nat, j: nat)
    requires Run(ws, es) && i <= j < |es| && SerialsApart(ws[0])
    requires forall k :: 0 <= k < |es| ==> ObservedLast(ws[k], es[k])
    requires SerialsDiffer(es[i], es[j])
    ensures Step(ws[i], es[i], ws[i + 1]) && Step(ws[j], es[j], ws[j + 1])
    ensures ReturnedUid(ws, es, i) != ReturnedUid(ws, es, j)
    ensures Register(ws[i].tables, es[i].observation, es[i].now, es[i].owner).device
         != Register(ws[j].tables, es[j].observation, es[j].now, es[j].owner).device
  {
    RunsKeepApart(ws, es, i, j);
    RunsKeepApart(ws, es, i + 1, j + 1);
    var r := SerialAttributed(ws[i], es[i], ws[i + 1]);
    var r' := SerialAttributed(ws[j], es[j], ws[j + 1]);
    InvDistinct(ws[j + 1].tables);
  }

  /**
   * Two observations with different serials never get the same UID or device, on any endpoints:
   * over runs that reuse no retired alias, and over all runs whose passes list the identities by
   * the time they were last seen.
   */
  lemma SerialsNeverMerge(ws: seq<World>, es: seq<Event>, i: nat, j: nat)
    requires Run(ws, es) && i <= j < |es| && Valid(ws[0])
    requires (forall k :: 0 <= k < |es| ==> ObservedLast(ws[k], es[k])) || (forall k :: 0 <= k < |es| ==> !Reuses(ws[k], es[k]))
    requires SerialsDiffer(es[i], es[j])
    ensures Step(ws[i], es[i], ws[i + 1]) && Step(ws[j], es[j], ws[j + 1])
    ensures ReturnedUid(ws, es, i) != ReturnedUid(ws, es, j)
    ensures Register(ws[i].tables, es[i].observation, es[i].now, es[i].owner).device
         != Register(ws[j].tables, es[j].observation, es[j].now, es[j].owner).device
  {
    if forall k :: 0 <= k < |es| ==> ObservedLast(ws[k], es[k]) {
      ValidIsApart(ws[0]);
      SerialsApartInOrder(ws, es, i, j);
    } else {
      SerialsApartWithoutReuse(ws, es, i, j);
    }
  }

  // ----- When no retired alias can come back -----

  /** USB fallback ids name one endpoint key each. */
  ghost predicate KeyedBy(keyOf: ControllerId -> Key, e: Endpoint) {
    Strip(e.usbSerial) != "" ==> keyOf(UsbId(Fold(e.usbSerial), e.unit)) == StableKey(e)
  }

  function FallbackKey(keyOf: ControllerId -> Key, c: ControllerId): Key {
    if c.EndpointId? then c.key else keyOf(c)
  }

  /** Every fallback id with an alias still has its endpoint connected to some controller. */
  ghost predicate Remembered(keyOf: ControllerId -> Key, w: World) {
    && (forall c :: c in w.tables.identities && !c.SerialId? ==> HasOwner(w.tables, FallbackKey(keyOf, c)))
    && (forall c :: c in w.scopes.aliases && !c.SerialId? ==> HasOwner(w.tables, FallbackKey(keyOf, c)))
  }

  lemma {:induction false} SyncAliases(s: ScopeTables, rows: seq<(ControllerId, DeviceId)>)
    requires SyncRows(s, rows).Some?
    ensures forall c :: c in SyncRows(s, rows).value.aliases ==> c in s.aliases || exists i :: 0 <= i < |rows| && rows[i].0 == c
  {
    if rows != [] {
      var n := |rows| - 1;
      SyncAliases(s, rows[..n]);
      forall c | c in SyncRows(s, rows).value.aliases && c !in s.aliases
        ensures exists i :: 0 <= i < |rows| && rows[i].0 == c
      {
        if c == rows[n].0 {
        } else {
          var init := rows[..n];
          var i :| 0 <= i < |init| && init[i].0 == c;
          assert rows[i].0 == c;
        }
      }
    }
  }

  lemma ObserveRemembers(keyOf: ControllerId -> Key, w: World, e: Event, w': World)
    requires Valid(w) && Remembered(keyOf, w) && e.Observe? && Step(w, e, w') && KeyedBy(keyOf, e.observation.endpoint)
    ensures Remembered(keyOf, w')
  {
    var o := e.observation;
    NothingToReuse(keyOf, w, o, e.owner);
    ObserveConnects(w, e, w');
    ListedAliases(w, e.rows, w');
    StillRemembered(keyOf, w, w', IdOf(o), KeyOf(o));
  }

  lemma ObserveConnects(w: World, e: Event, w': World)
    requires Valid(w) && e.Observe? && Step(w, e, w') && !Reuses(w, e)
    ensures HasOwner(w'.tables, KeyOf(e.observation))
    ensures forall k :: HasOwner(w.tables, k) ==> HasOwner(w'.tables, k)
    ensures w'.tables.identities.Keys <= w.tables.identities.Keys + {IdOf(e.observation)}
  {
    var r := ObserveOutcome(w, e, w');
    assert w'.tables.Connected(r.controller, KeyOf(e.observation));
    RegisterAdds(w.tables, e.observation, e.now, e.owner);
  }

  lemma ListedAliases(w: World, rows: seq<(ControllerId, DeviceId)>, w': World)
    requires SyncRows(w.scopes, rows) == Some(w'.scopes) && Listing(w'.tables, rows)
    ensures forall c :: c in w'.scopes.aliases ==> c in w.scopes.aliases || c in w'.tables.identities
  {
    SyncAliases(w.scopes, rows);
    forall c | c in w'.scopes.aliases
      ensures c in w.scopes.aliases || c in w'.tables.identities
    {
      if c !in w.scopes.aliases {
        var i :| 0 <= i < |rows| && rows[i].0 == c;
      }
    }
  }

  lemma StillRemembered(keyOf: ControllerId -> Key, w: World, w': World, id: ControllerId, k: Key)
    requires Remembered(keyOf, w) && HasOwner(w'.tables, k)
    requires forall k :: HasOwner(w.tables, k) ==> HasOwner(w'.tables, k)
    requires w'.tables.identities.Keys <= w.tables.identities.Keys + {id}
    requires forall c :: c in w'.scopes.aliases ==> c in w.scopes.aliases || c in w'.tables.identities
    requires !id.SerialId? ==> FallbackKey(keyOf, id) == k
    ensures Remembered(keyOf, w')
  {
  }

  lemma NothingToReuse(keyOf: ControllerId -> Key, w: World, o: Observation, owner: Option<ControllerId>)
    requires Owned(w.tables) && Remembered(keyOf, w) && KeyedBy(keyOf, o.endpoint) && IsEndpointOwner(w.tables, KeyOf(o), owner)
    requires Syncable(w.tables, w.scopes)
    ensures !ReusesRetiredAlias(w, o, owner)
  {
  }

  lemma StepRemembers(keyOf: ControllerId -> Key, w: World, e: Event, w': World)
    requires Valid(w) && Remembered(keyOf, w) && Step(w, e, w')
    requires e.Observe? ==> KeyedBy(keyOf, e.observation.endpoint)
    ensures !Reuses(w, e) && Remembered(keyOf, w')
  {
    match e
    case Observe(o, now, owner, rows) =>
      NothingToReuse(keyOf, w, o, owner);
      ObserveRemembers(keyOf, w, e, w');
    case RecordSuccess(uid, key, now) =>
      if uid in w.scopes.physical {
        SucceedKeepsInv(w.tables, CurrentOf(w, uid), key, now);
      }
    case ReconcilePresence(observed) =>
      PresenceKeepsInv(w.tables, Translate(w.scopes, observed));
    case MarkAllOffline =>
      PresenceKeepsInv(w.tables, {});
    case Synchronize(rows) =>
      SyncIdempotent(w.tables, w.scopes, rows);
  }

  /** As long as each USB fallback id is used by one endpoint key, no run ever reuses a retired alias. */
  lemma {:induction false} KeyedRunsNeverReuse(keyOf: ControllerId -> Key, ws: seq<World>, es: seq<Event>, n: nat)
    requires Run(ws, es) && n <= |es| && Valid(ws[0]) && Remembered(keyOf, ws[0])
    requires forall k :: 0 <= k < |es| && es[k].Observe? ==> KeyedBy(keyOf, es[k].observation.endpoint)
    ensures Valid(ws[n]) && Remembered(keyOf, ws[n])
    ensures forall k :: 0 <= k < n ==> !Reuses(ws[k], es[k])
  {
    if n > 0 {
      KeyedRunsNeverReuse(keyOf, ws, es, n - 1);
      StepRemembers(keyOf, ws[n - 1], es[n - 1], ws[n]);
      StepKeepsValid(ws[n - 1], es[n - 1], ws[n]);
    }
  }

  // ----- Where runs start -----

  const NO_SCOPES := ScopeTables(map[], map[], 0)

  /** The first initialization over a legacy database, empty or not, gives a valid world. */
  lemma InitialWorldIsValid(rows: map<DeviceId, LegacyRow>, newest: map<ControllerId, DeviceId>, listing: seq<(ControllerId, DeviceId)>)
    requires LegacyDevices(rows) && IsNewest(rows, newest) && Listing(Bootstrap(rows, newest), listing)
    ensures SyncRows(NO_SCOPES, listing).Some?
    ensures Valid(World(Bootstrap(rows, newest), SyncRows(NO_SCOPES, listing).value))
  {
    BootstrapEstablishesInv(rows, newest);
    SyncSucceeds(Bootstrap(rows, newest), NO_SCOPES, listing);
  }

  lemma InitialWorldRemembers(keyOf: ControllerId -> Key, rows: map<DeviceId, LegacyRow>, newest: map<ControllerId, DeviceId>,
                              listing: seq<(ControllerId, DeviceId)>)
    requires LegacyDevices(rows) && IsNewest(rows, newest) && Listing(Bootstrap(rows, newest), listing)
    requires forall d :: d in rows ==> KeyedBy(keyOf, rows[d].endpoint)
    ensures SyncRows(NO_SCOPES, listing).Some?
    ensures Remembered(keyOf, World(Bootstrap(rows, newest), SyncRows(NO_SCOPES, listing).value))
  {
    InitialWorldIsValid(rows, newest, listing);
    BootstrapRemembers(keyOf, rows, newest);
    hide *;
    var t := Bootstrap(rows, newest);
    var w := World(t, SyncRows(NO_SCOPES, listing).value);
    ListedAliases(World(t, NO_SCOPES), listing, w);
    RememberedAtFirst(keyOf, w);
  }

  lemma RememberedAtFirst(keyOf: ControllerId -> Key, w: World)
    requires forall c :: c in w.tables.identities && !c.SerialId? ==> HasOwner(w.tables, FallbackKey(keyOf, c))
    requires forall c :: c in w.scopes.aliases ==> c in NO_SCOPES.aliases || c in w.tables.identities
    ensures Remembered(keyOf, w)
  {
  }

  lemma KeyOfFallback(keyOf: ControllerId -> Key, r: LegacyRow)
    requires KeyedBy(keyOf, r.endpoint) && !LegacyId(r).SerialId?
    ensures FallbackKey(keyOf, LegacyId(r)) == StableKey(r.endpoint)
  {
  }

  lemma BootstrapRemembers(keyOf: ControllerId -> Key, rows: map<DeviceId, LegacyRow>, newest: map<ControllerId, DeviceId>)
    requires LegacyDevices(rows) && IsNewest(rows, newest)
    requires forall d :: d in rows ==> KeyedBy(keyOf, rows[d].endpoint)
    ensures var t := Bootstrap(rows, newest);
      forall c :: c in t.identities && !c.SerialId? ==> HasOwner(t, FallbackKey(keyOf, c))
  {
    hide LegacyConnections, LegacyDeviceKeys;
    var t := Bootstrap(rows, newest);
    forall c | c in t.identities && !c.SerialId?
      ensures HasOwner(t, FallbackKey(keyOf, c))
    {
      var d := newest[c];
      assert LegacyId(rows[d]) == c && KeyedBy(keyOf, rows[d].endpoint);
      BootstrapExactly(rows, newest, d);
      KeyOfFallback(keyOf, rows[d]);
    }
  }

  // ----- The promise is not unconditional -----

  function UsbEndpoint(usb: string): Endpoint {
    Endpoint(Serial, "t", "1", "", usb, None)
  }

  const FIRST := Observation(UsbEndpoint("A"), "p", "")
  const SECOND := Observation(UsbEndpoint("A"), "p", "1")
  const THIRD := Observation(UsbEndpoint("a"), "p", "")

  lemma ObservedIds()
    ensures IdOf(FIRST) == UsbId("a", "1") && IdOf(SECOND) == SerialId("p", "1") && IdOf(THIRD) == UsbId("a", "1")
    ensures KeyOf(FIRST) == KeyOf(SECOND) && KeyOf(FIRST) != KeyOf(THIRD)
    ensures Strip("") == "" && Strip("1") == "1"
  {
    assert Strip("") == "" && Strip("A") == "A" && Strip("a") == "a" && Strip("p") == "p" && Strip("1") == "1";
    assert Lower("A") == "a" && Lower("a") == "a" && Lower("p") == "p" && Lower("1") == "1";
    assert "serial:usb:" + "A" + ":unit:" + "1" == "serial:usb:A:unit:1";
    assert "serial:usb:" + "a" + ":unit:" + "1" == "serial:usb:a:unit:1";
    assert "serial:usb:A:unit:1"[11] != "serial:usb:a:unit:1"[11];
  }

  const EMPTY := World(Tables(map[], map[], map[], map[]), NO_SCOPES)

  const USB := UsbId("a", "1")
  const SERIAL := SerialId("p", "1")
  const DEVICE := EndpointDevice(KeyOf(FIRST))
  const ROWS0 := [(USB, DEVICE)]
  const ROWS1 := [(SERIAL, DEVICE)]

  lemma SingleListing(t: Tables, c: ControllerId, d: DeviceId)
    requires t.identities.Keys == {c} && t.identities[c].canonical == d
    ensures Listing(t, [(c, d)])
  {
    assert [(c, d)][0].0 == c;
  }

  lemma FirstTables() returns (t: Tables)
    ensures t == Register(EMPTY.tables, FIRST, 0, None).tables
    ensures t.identities == map[USB := Identity(DEVICE, "")]
    ensures t.connections == map[USB := map[KeyOf(FIRST) := Connection(0, true)]]
  {
    ObservedIds();
    assert MatchOf(EMPTY.tables, FIRST, None) == NewController;
    t := Register(EMPTY.tables, FIRST, 0, None).tables;
  }

  lemma SecondTables(t1: Tables) returns (t: Tables)
    requires t1.identities == map[USB := Identity(DEVICE, "")]
    requires t1.connections == map[USB := map[KeyOf(FIRST) := Connection(0, true)]]
    ensures IsEndpointOwner(t1, KeyOf(SECOND), Some(USB))
    ensures t == Register(t1, SECOND, 1, Some(USB)).tables
    ensures t.identities.Keys == {SERIAL} && t.identities[SERIAL].canonical == DEVICE
    ensures t.connections.Keys == {SERIAL} && t.connections[SERIAL].Keys == {KeyOf(FIRST)}
  {
    ObservedIds();
    hide Strip, Lower, StableKey, IdentityOf;
    assert t1.Connected(USB, KeyOf(SECOND));
    assert MatchOf(t1, SECOND, Some(USB)) == Promotion;
    var p := Promote(t1, USB, SERIAL, "1");
    assert p.connections == map[SERIAL := map[KeyOf(FIRST) := Connection(0, true)]];
    assert p.identities.Keys == {SERIAL};
    t := Register(t1, SECOND, 1, Some(USB)).tables;
  }

  lemma EmptyIsValid()
    ensures Valid(EMPTY)
  {
  }

  lemma FirstWorld() returns (w: World)
    ensures Step(EMPTY, Observe(FIRST, 0, None, ROWS0), w) && Valid(w)
    ensures w.tables.identities == map[USB := Identity(DEVICE, "")]
    ensures w.tables.connections == map[USB := map[KeyOf(FIRST) := Connection(0, true)]]
    ensures USB in w.scopes.aliases
  {
    EmptyIsValid();
    var t := FirstTables();
    SingleListing(t, USB, DEVICE);
    RegisterKeepsValid(EMPTY, FIRST, 0, None, ROWS0);
    w := World(t, SyncRows(NO_SCOPES, ROWS0).value);
    SettledUid(w, USB);
  }

  lemma SecondWorld(w1: World) returns (w: World)
    requires Valid(w1) && USB in w1.scopes.aliases
    requires w1.tables.identities == map[USB := Identity(DEVICE, "")]
    requires w1.tables.connections == map[USB := map[KeyOf(FIRST) := Connection(0, true)]]
    ensures Step(w1, Observe(SECOND, 1, Some(USB), ROWS1), w) && Valid(w)
    ensures w.tables.identities.Keys == {SERIAL}
    ensures w.tables.connections.Keys == {SERIAL} && w.tables.connections[SERIAL].Keys == {KeyOf(FIRST)}
    ensures USB in w.scopes.aliases
  {
    var t := SecondTables(w1.tables);
    SingleListing(t, SERIAL, DEVICE);
    RegisterKeepsValid(w1, SECOND, 1, Some(USB), ROWS1);
    w := World(t, SyncRows(w1.scopes, ROWS1).value);
  }

  lemma ThirdReuses(w: World)
    requires w.tables.identities.Keys == {SERIAL} && USB in w.scopes.aliases
    requires w.tables.connections.Keys == {SERIAL} && w.tables.connections[SERIAL].Keys == {KeyOf(FIRST)}
    ensures IsEndpointOwner(w.tables, KeyOf(THIRD), None) && ReusesRetiredAlias(w, THIRD, None)
  {
    ObservedIds();
  }

  /**
   * A concrete run that breaks it: an adapter "A" without a controller serial, the same adapter
   * once its serial is read, then an adapter "a" on an endpoint not seen before. The third
   * observation folds to the id that the second one retired.
   */
  lemma RetiredAliasCanReturn() returns (ws: seq<World>, es: seq<Event>)
    ensures Run(ws, es) && ws[0] == EMPTY
    ensures Valid(ws[|es|])
    ensures IsEndpointOwner(ws[|es|].tables, KeyOf(THIRD), None)
    ensures ReusesRetiredAlias(ws[|es|], THIRD, None)
  {
    var w1 := FirstWorld();
    var w2 := SecondWorld(w1);
    ThirdReuses(w2);
    ws, es := TwoSteps(EMPTY, Observe(FIRST, 0, None, ROWS0), w1, Observe(SECOND, 1, Some(USB), ROWS1), w2);
  }

  lemma TwoSteps(a: World, e: Event, b: World, f: Event, c: World) returns (ws: seq<World>, es: seq<Event>)
    requires Step(a, e, b) && Step(b, f, c)
    ensures Run(ws, es) && ws[0] == a && ws[|es|] == c
  {
    ws, es := [a, b, c], [e, f];
  }
}
