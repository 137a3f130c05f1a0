/**
 * One discovery cycle of runtime/watcher.py: every device found is registered, one endpoint is
 * selected for each controller, and exactly the selected connections become active.
 */
module Watcher {
  import opened Options
  import opened Text
  import opened Inventory
  import I = InventoryInvariant
  import S = Scopes
  import R = RegistryRuns
  import opened Registry

  datatype Resolved = Resolved(uid: S.Uid, device: DeviceId, observation: Observation)

  // ----- Endpoint preference -----

  function Rank(e: Endpoint): nat {
    if e.transport == Tcp then 0 else if e.usbSerial != "" then 1 else 2
  }

  predicate Preferred(a: Observation, b: Observation) {
    Rank(a.endpoint) < Rank(b.endpoint)
    || (Rank(a.endpoint) == Rank(b.endpoint) && TextBefore(KeyOf(a), KeyOf(b)))
  }

  /** The choice among one controller's candidates: its existing key when offered, else a most preferred one. */
  ghost predicate Chosen(candidates: seq<Resolved>, existing: Option<Key>, choice: Resolved) {
    && choice in candidates
    && (existing.Some? && (exists c :: c in candidates && KeyOf(c.observation) == existing.value) ==>
          KeyOf(choice.observation) == existing.value)
    && (!(existing.Some? && exists c :: c in candidates && KeyOf(c.observation) == existing.value) ==>
          forall c :: c in candidates ==> !Preferred(c.observation, choice.observation))
  }

  method Choose(candidates: seq<Resolved>, existing: Option<Key>) returns (choice: Resolved)
    requires candidates != []
    ensures Chosen(candidates, existing, choice)
  {
    for i := 0 to |candidates|
      invariant existing.Some? ==> forall c :: c in candidates[..i] ==> KeyOf(c.observation) != existing.value
    {
      if existing == Some(KeyOf(candidates[i].observation)) {
        return candidates[i];
      }
    }
    assert candidates[..|candidates|] == candidates;
    choice := candidates[0];
    TextBeforeTotal(KeyOf(choice.observation), KeyOf(choice.observation));
    assert candidates[..1] == [choice];
    for i := 1 to |candidates|
      invariant choice in candidates[..i]
      invariant forall c :: c in candidates[..i] ==> !Preferred(c.observation, choice.observation)
    {
      TextBeforeTotal(KeyOf(candidates[i].observation), KeyOf(choice.observation));
      if Preferred(candidates[i].observation, choice.observation) {
        forall c | c in candidates[..i]
          ensures !Preferred(c.observation, candidates[i].observation)
        {
          NotPreferredBack(c.observation, candidates[i].observation, choice.observation);
        }
        TextBeforeTotal(KeyOf(candidates[i].observation), KeyOf(candidates[i].observation));
        choice := candidates[i];
      }
      assert candidates[..i + 1] == candidates[..i] + [candidates[i]];
    }
    assert candidates[..|candidates|] == candidates;
  }

  lemma NotPreferredBack(a: Observation, b: Observation, c: Observation)
    requires Preferred(b, c) && !Preferred(a, c)
    ensures !Preferred(a, b)
  {
    if Preferred(a, b) && Rank(a.endpoint) == Rank(b.endpoint) == Rank(c.endpoint) {
      TextBeforeTransitive(KeyOf(a), KeyOf(b), KeyOf(c));
    }
  }

  /** With no connection to keep: TCP goes before a USB adapter, an adapter before any other port, then the least key. */
  lemma ChoicePrefers(candidates: seq<Resolved>, existing: Option<Key>, choice: Resolved, other: Resolved)
    requires Chosen(candidates, existing, choice) && other in candidates
    requires forall c :: c in candidates ==> Some(KeyOf(c.observation)) != existing
    ensures var e, f := choice.observation.endpoint, other.observation.endpoint;
      && (f.transport == Tcp ==> e.transport == Tcp)
      && (e.transport == Serial && f.usbSerial != "" ==> e.usbSerial != "")
      && (e.transport == f.transport && (e.usbSerial == "" <==> f.usbSerial == "") ==>
            StableKey(e) == StableKey(f) || TextBefore(StableKey(e), StableKey(f)))
  {
    TextBeforeTotal(KeyOf(choice.observation), KeyOf(other.observation));
    hide StableKey, TextBefore;
    assert !Preferred(other.observation, choice.observation);
  }

  // ----- Selection -----

  function Candidates(resolved: seq<Resolved>, uid: S.Uid): (c: seq<Resolved>)
    ensures forall r :: r in c <==> r in resolved && r.uid == uid
  {
    if resolved == [] then []
    else
      var n := |resolved| - 1;
      assert resolved == resolved[..n] + [resolved[n]];
      Candidates(resolved[..n], uid) + if resolved[n].uid == uid then [resolved[n]] else []
  }

  function Uids(resolved: seq<Resolved>): set<S.Uid> {
    set i | 0 <= i < |resolved| :: resolved[i].uid
  }

  function ExistingKey(keys: map<S.Uid, Key>, u: S.Uid): Option<Key> {
    if u in keys then Some(keys[u]) else None
  }

  ghost predicate ChosenFor(resolved: seq<Resolved>, keys: map<S.Uid, Key>, u: S.Uid, choice: Resolved) {
    Chosen(Candidates(resolved, u), ExistingKey(keys, u), choice)
  }

  ghost predicate Selection(resolved: seq<Resolved>, keys: map<S.Uid, Key>, selected: map<S.Uid, Resolved>) {
    selected.Keys == Uids(resolved) && forall u :: u in selected ==> ChosenFor(resolved, keys, u, selected[u])
  }

  // ----- One cycle -----

  /** The device's UID holds its canonical device, carries the serial read, and is connected where it was observed. */
  ghost predicate Reachable(w: S.World, r: Resolved) {
    && S.Holds(w.scopes, r.uid, r.device)
    && w.tables.Connected(w.scopes.physical[r.uid].current, KeyOf(r.observation))
    && (Strip(r.observation.serial) != "" ==> HasSerial(w.scopes.physical[r.uid].current, Fold(r.observation.serial)))
  }

  predicate HasSerial(c: ControllerId, serial: string) {
    c.SerialId? && c.serial == serial
  }

  ghost predicate SelectedAt(w: S.World, selected: map<S.Uid, Resolved>, c: ControllerId, k: Key) {
    exists u :: u in selected && u in w.scopes.physical
      && c == w.scopes.physical[u].current && k == KeyOf(selected[u].observation)
  }

  ghost predicate ActiveExactly(w: S.World, selected: map<S.Uid, Resolved>) {
    && (forall u :: u in selected ==> selected[u].uid == u && Reachable(w, selected[u]))
    && (forall c, k :: w.tables.Connected(c, k) ==> (w.tables.connections[c][k].active <==> SelectedAt(w, selected, c, k)))
  }

  /**
   * Registering the found devices in turn never reuses a retired alias, whichever owner the
   * endpoint query and whichever listing the sync pass happen to see.
   */
  ghost predicate NeverReuses(w: S.World, found: seq<Observation>, start: nat)
    decreases |found|
  {
    found == [] ||
    (&& (forall owner :: IsEndpointOwner(w.tables, KeyOf(found[0]), owner) ==> !S.ReusesRetiredAlias(w, found[0], owner))
     && (forall owner, rows, w' :: R.Step(w, R.Observe(found[0], start, owner, rows), w') ==> NeverReuses(w', found[1..], start + 1)))
  }

  /** One endpoint key for each USB fallback id is enough. */
  lemma {:induction false} KeyedCycleNeverReuses(keyOf: ControllerId -> Key, w: S.World, found: seq<Observation>, start: nat)
    requires S.Valid(w) && R.Remembered(keyOf, w) && forall o :: o in found ==> R.KeyedBy(keyOf, o.endpoint)
    ensures NeverReuses(w, found, start)
    decreases |found|
  {
    if found != [] {
      hide R.Step, R.Remembered, R.KeyedBy, S.Valid, S.Synced, IsEndpointOwner, S.ReusesRetiredAlias;
      forall owner | IsEndpointOwner(w.tables, KeyOf(found[0]), owner)
        ensures !S.ReusesRetiredAlias(w, found[0], owner)
      {
        ValidParts(w);
        R.NothingToReuse(keyOf, w, found[0], owner);
      }
      forall owner, rows, w' | R.Step(w, R.Observe(found[0], start, owner, rows), w')
        ensures NeverReuses(w', found[1..], start + 1)
      {
        R.StepRemembers(keyOf, w, R.Observe(found[0], start, owner, rows), w');
        R.StepKeepsValid(w, R.Observe(found[0], start, owner, rows), w');
        KeyedCycleNeverReuses(keyOf, w', found[1..], start + 1);
      }
    }
  }

  lemma ValidParts(w: S.World)
    requires S.Valid(w)
    ensures I.Owned(w.tables) && S.Syncable(w.tables, w.scopes)
  {
  }

  lemma ReachableLater(w: S.World, w': S.World, r: Resolved)
    requires S.Extends(w, w') && Reachable(w, r)
    ensures Reachable(w', r)
  {
  }

  class ControllerWatcher {
    const registry: ControllerRegistry
    var controllerKeys: map<S.Uid, Key>

    constructor (registry: ControllerRegistry)
      ensures this.registry == registry && controllerKeys == map[]
    {
      this.registry := registry;
      controllerKeys := map[];
    }

    method SelectControllerEndpoints(resolved: seq<Resolved>) returns (selected: map<S.Uid, Resolved>)
      ensures Selection(resolved, controllerKeys, selected)
    {
      selected := map[];
      var rest := Uids(resolved);
      while rest != {}
        invariant rest <= Uids(resolved)
        invariant selected.Keys == Uids(resolved) - rest
        invariant forall u :: u in selected ==> ChosenFor(resolved, controllerKeys, u, selected[u])
        decreases |rest|
      {
        var u :| u in rest;
        rest := rest - {u};
        var choice := ChooseFor(resolved, u);
        selected := selected[u := choice];
      }
    }

    method ChooseFor(resolved: seq<Resolved>, u: S.Uid) returns (choice: Resolved)
      requires u in Uids(resolved)
      ensures ChosenFor(resolved, controllerKeys, u, choice)
    {
      ghost var i :| 0 <= i < |resolved| && resolved[i].uid == u;
      assert resolved[i] in Candidates(resolved, u);
      choice := Choose(Candidates(resolved, u), ExistingKey(controllerKeys, u));
    }

    lemma NothingYet()
      requires registry.Valid()
      ensures S.Extends(registry.World(), registry.World())
    {
      S.ExtendsReflexive(registry.World());
    }

    /** Registers every found device; each stays reachable through its UID, whatever is registered after it. */
    method RegisterFound(found: seq<Observation>, start: nat) returns (resolved: seq<Resolved>)
      requires registry.Valid() && NeverReuses(registry.World(), found, start)
      modifies registry.inventory, registry.scopes
      ensures registry.Valid() && S.Extends(old(registry.World()), registry.World())
      ensures |resolved| == |found|
      ensures forall i :: 0 <= i < |found| ==> resolved[i].observation == found[i]
      ensures forall r :: r in resolved ==> Reachable(registry.World(), r)
    {
      hide *;
      resolved := [];
      NothingYet();
      for i := 0 to |found|
        invariant registry.Valid() && NeverReuses(registry.World(), found[i..], start + i)
        invariant S.Extends(old(registry.World()), registry.World())
        invariant |resolved| == i
        invariant forall j :: 0 <= j < i ==> resolved[j].observation == found[j]
        invariant forall r :: r in resolved ==> Reachable(registry.World(), r)
      {
        assert found[i..][1..] == found[i + 1..];
        var one := RegisterOne(found[i], start + i, found[i..], resolved, old(registry.World()));
        resolved := resolved + [one];
      }
    }

    method RegisterOne(o: Observation, now: nat, ghost left: seq<Observation>, ghost before: seq<Resolved>, ghost first: S.World)
      returns (r: Resolved)
      requires registry.Valid() && left != [] && left[0] == o && NeverReuses(registry.World(), left, now)
      requires S.Extends(first, registry.World())
      requires forall x :: x in before ==> Reachable(registry.World(), x)
      modifies registry.inventory, registry.scopes
      ensures registry.Valid() && NeverReuses(registry.World(), left[1..], now + 1) && S.Extends(first, registry.World())
      ensures r.observation == o && Reachable(registry.World(), r)
      ensures forall x :: x in before ==> Reachable(registry.World(), x)
    {
      ghost var w := registry.World();
      var result, owner, rows := registry.RegisterObservation(o, now);
      S.ExtendsTransitive(first, w, registry.World());
      forall x | x in before
        ensures Reachable(registry.World(), x)
      {
        ReachableLater(w, registry.World(), x);
      }
      r := Resolved(result.value.0, result.value.1, o);
    }

    /** A complete cycle leaves one active connection per selected controller, and no other. */
    method RefreshDevices(found: seq<Observation>, start: nat)
      returns (ghost resolved: seq<Resolved>, selected: map<S.Uid, Resolved>)
      requires registry.Valid() && NeverReuses(registry.World(), found, start)
      modifies this, registry.inventory, registry.scopes
      ensures registry.Valid() && S.Extends(old(registry.World()), registry.World())
      ensures |resolved| == |found| && forall i :: 0 <= i < |found| ==> resolved[i].observation == found[i]
      ensures Selection(resolved, old(controllerKeys), selected)
      ensures ActiveExactly(registry.World(), selected)
      ensures controllerKeys == old(controllerKeys) + map u | u in selected :: KeyOf(selected[u].observation)
    {
      hide S.Extends, S.Valid, NeverReuses, Reachable, ActiveExactly, Selection;
      var all := RegisterFound(found, start);
      resolved := all;
      selected := SelectControllerEndpoints(all);
      SelectedReachable(registry.World(), all, controllerKeys, selected);
      ActivateSelected(selected, old(registry.World()));
      controllerKeys := controllerKeys + map u | u in selected :: KeyOf(selected[u].observation);
    }

    method ActivateSelected(selected: map<S.Uid, Resolved>, ghost first: S.World)
      requires registry.Valid() && S.Extends(first, registry.World())
      requires forall u :: u in selected ==> selected[u].uid == u && Reachable(registry.World(), selected[u])
      modifies registry.inventory, registry.scopes
      ensures registry.Valid() && S.Extends(first, registry.World())
      ensures ActiveExactly(registry.World(), selected)
    {
      hide S.Extends, S.Valid, R.Step, ActiveExactly;
      var observed := set u | u in selected :: (u, KeyOf(selected[u].observation));
      ghost var w := registry.World();
      registry.ReconcilePresence(observed);
      PresenceIsExact(w, selected, observed, registry.World());
      S.ExtendsTransitive(first, w, registry.World());
    }
  }

  lemma SelectedReachable(w: S.World, resolved: seq<Resolved>, keys: map<S.Uid, Key>, selected: map<S.Uid, Resolved>)
    requires Selection(resolved, keys, selected) && forall r :: r in resolved ==> Reachable(w, r)
    ensures forall u :: u in selected ==> selected[u].uid == u && Reachable(w, selected[u])
  {
  }

  lemma PresenceIsExact(w: S.World, selected: map<S.Uid, Resolved>, observed: set<(S.Uid, Key)>, w': S.World)
    requires R.Step(w, R.ReconcilePresence(observed), w')
    requires observed == set u | u in selected :: (u, KeyOf(selected[u].observation))
    requires forall u :: u in selected ==> selected[u].uid == u && Reachable(w, selected[u])
    ensures ActiveExactly(w', selected)
  {
    var translated := R.Translate(w.scopes, observed);
    forall c, k | w'.tables.Connected(c, k)
      ensures w'.tables.connections[c][k].active <==> SelectedAt(w', selected, c, k)
    {
      if (c, k) in translated {
        var p :| p in observed && p.0 in w.scopes.physical && (w.scopes.physical[p.0].current, p.1) == (c, k);
        assert p.0 in selected;
      }
      if u :| u in selected && u in w'.scopes.physical && c == w'.scopes.physical[u].current && k == KeyOf(selected[u].observation) {
        assert (u, k) in observed;
        assert (w.scopes.physical[u].current, k) in translated;
      }
    }
    forall u | u in selected
      ensures Reachable(w', selected[u])
    {
      assert w.tables.Connected(w.scopes.physical[u].current, KeyOf(selected[u].observation));
    }
  }
}
