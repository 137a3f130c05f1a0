/**
 * The repositories of controllers/inventory.py and controllers/scope.py and the facade that joins
 * them, updating their tables in place. Every method is tied to the functions of `Inventory` and
 * `Scopes`, so what is proved about whole runs of those functions holds of the objects.
 */
module Registry {
  import opened Options
  import opened Text
  import opened Inventory
  import opened InventoryInvariant
  import opened Attribution
  import S = Scopes
  import R = RegistryRuns

  lemma SameFlags(t: Tables, after: map<ControllerId, map<Key, Connection>>, observed: set<(ControllerId, Key)>)
    requires after.Keys == t.connections.Keys
    requires forall c :: c in after ==> after[c].Keys == t.connections[c].Keys
    requires forall c, k :: c in after && k in after[c] ==> after[c][k] == t.connections[c][k].(active := (c, k) in observed)
    ensures after == SetActive(t, observed).connections
  {
    forall c | c in after
      ensures after[c] == SetActive(t, observed).connections[c]
    {
    }
  }

  lemma ActivateOne(t: Tables, seen: set<(ControllerId, Key)>, p: (ControllerId, Key),
                    m: map<ControllerId, map<Key, Connection>>, m': map<ControllerId, map<Key, Connection>>)
    requires m == SetActive(t, seen).connections
    requires m' == if p.0 in m && p.1 in m[p.0] then m[p.0 := m[p.0][p.1 := m[p.0][p.1].(active := true)]] else m
    ensures m' == SetActive(t, seen + {p}).connections
  {
    assert m'.Keys == t.connections.Keys;
    SameFlags(t, m', seen + {p});
  }

  class ControllerInventory {
    var devices: map<DeviceId, RowKey>
    var identities: map<ControllerId, Identity>
    var members: map<DeviceId, ControllerId>
    var connections: map<ControllerId, map<Key, Connection>>

    ghost function State(): Tables
      reads this
    {
      Tables(devices, identities, members, connections)
    }

    /** Opens a database that holds the given device rows and no identities. */
    constructor (rows: map<DeviceId, LegacyRow>)
      ensures State() == Tables(LegacyDeviceKeys(rows), map[], map[], map[])
    {
      devices := LegacyDeviceKeys(rows);
      identities, members, connections := map[], map[], map[];
    }

    /** The row of each identity seen last. */
    static method NewestRows(rows: map<DeviceId, LegacyRow>) returns (newest: map<ControllerId, DeviceId>)
      ensures IsNewest(rows, newest)
    {
      newest := map[];
      var rest := rows.Keys;
      while rest != {}
        invariant rest <= rows.Keys
        invariant forall d :: d in rows.Keys - rest ==>
          LegacyId(rows[d]) in newest && newest[LegacyId(rows[d])] in rows
          && rows[d].lastSeen <= rows[newest[LegacyId(rows[d])]].lastSeen
        invariant forall c :: c in newest ==> newest[c] in rows && LegacyId(rows[newest[c]]) == c
        decreases |rest|
      {
        var d :| d in rest;
        var c := LegacyId(rows[d]);
        if c !in newest || rows[newest[c]].lastSeen <= rows[d].lastSeen {
          newest := newest[c := d];
        }
        rest := rest - {d};
      }
    }

    /** Groups the rows by identity; the row of each group seen last becomes its canonical device. */
    method BootstrapLegacyRows(rows: map<DeviceId, LegacyRow>) returns (newest: map<ControllerId, DeviceId>)
      requires LegacyDevices(rows) && devices == LegacyDeviceKeys(rows)
      modifies this
      ensures IsNewest(rows, newest) && State() == Bootstrap(rows, newest)
    {
      newest := NewestRows(rows);
      identities := map c | c in newest :: Identity(newest[c], rows[newest[c]].serial);
      members := map d | d in rows :: LegacyId(rows[d]);
      connections := map c | c in newest :: LegacyConnections(rows, newest[c], c);
    }

    /** The identity last seen at an endpoint, if any controller was ever connected there. */
    method EndpointOwner(k: Key) returns (owner: Option<ControllerId>)
      ensures IsEndpointOwner(State(), k, owner)
    {
      owner := None;
      var rest := identities.Keys;
      while rest != {}
        invariant rest <= identities.Keys
        invariant owner.None? ==> forall c :: c in identities.Keys - rest ==> !State().Connected(c, k)
        invariant owner.Some? ==> owner.value in identities && State().Connected(owner.value, k)
        invariant owner.Some? ==> forall c :: c in identities.Keys - rest && State().Connected(c, k) ==>
          connections[c][k].lastSeen <= connections[owner.value][k].lastSeen
        decreases |rest|
      {
        var c :| c in rest;
        rest := rest - {c};
        if c in connections && k in connections[c] {
          if owner.None? || connections[owner.value][k].lastSeen <= connections[c][k].lastSeen {
            owner := Some(c);
          }
        }
      }
    }

    method DeviceByKey(k: RowKey) returns (device: Option<DeviceId>)
      ensures device.None? <==> !KeyTaken(State(), k)
      ensures device.Some? ==> device.value in devices && devices[device.value] == k
    {
      device := None;
      var rest := devices.Keys;
      while rest != {}
        invariant rest <= devices.Keys
        invariant device.None? ==> forall d :: d in devices.Keys - rest ==> devices[d] != k
        invariant device.Some? ==> device.value in devices && devices[device.value] == k
        decreases |rest|
      {
        var d :| d in rest;
        rest := rest - {d};
        if devices[d] == k {
          device := Some(d);
        }
      }
    }

    method InsertNewIdentity(c: ControllerId, d: DeviceId, o: Observation)
      modifies this
      ensures State() == InsertIdentity(old(State()), c, d, o)
    {
      var occupied := DeviceByKey(ByEndpoint(KeyOf(o)));
      if d !in devices {
        devices := devices[d := if occupied.Some? then ByDevice(d) else ByEndpoint(KeyOf(o))];
      }
      identities := identities[c := Identity(d, o.serial)];
    }

    method PromoteIdentity(old_: ControllerId, new_: ControllerId, serial: string)
      requires old_ in identities
      modifies this
      ensures State() == Promote(old(State()), old_, new_, serial)
    {
      var canonical := identities[old_].canonical;
      members := MoveMembers(members, old_, new_);
      connections := MoveConnections(connections, old_, new_);
      identities := identities - {old_};
      identities := identities[new_ := Identity(canonical, serial)];
    }

    /** The five-way match: known identity, serial conflict, promotion, known owner, new controller. */
    method AttributeObservation(o: Observation) returns (controller: ControllerId, device: DeviceId, owner: Option<ControllerId>)
      requires Rows(State())
      modifies this
      ensures IsEndpointOwner(old(State()), KeyOf(o), owner)
      ensures Registered(State(), controller, device) == Attribute(old(State()), o, owner)
    {
      controller := IdOf(o);
      owner := EndpointOwner(KeyOf(o));
      var serial := Strip(o.serial);
      if controller in identities {
        device := identities[controller].canonical;
      } else if owner.Some? {
        var ownerSerial := Strip(identities[owner.value].serial);
        if serial != "" && ownerSerial != "" && serial != ownerSerial {
          device := ConflictDeviceOf(o);
          InsertNewIdentity(controller, device, o);
        } else if serial != "" && ownerSerial == "" {
          device := identities[owner.value].canonical;
          PromoteIdentity(owner.value, controller, o.serial);
        } else {
          controller := owner.value;
          device := identities[controller].canonical;
        }
      } else {
        var row := DeviceByKey(ByEndpoint(KeyOf(o)));
        device := if row.Some? then row.value else EndpointDevice(KeyOf(o));
        InsertNewIdentity(controller, device, o);
      }
    }

    /** Attributes one observation to an identity and its canonical device, creating or promoting it. */
    method RegisterObservation(o: Observation, now: nat)
      returns (controller: ControllerId, device: DeviceId, ghost owner: Option<ControllerId>)
      requires Rows(State())
      modifies this
      ensures IsEndpointOwner(old(State()), KeyOf(o), owner)
      ensures Registered(State(), controller, device) == Register(old(State()), o, now, owner)
    {
      controller, device, owner := AttributeObservation(o);
      members := members[device := controller];
      connections := UpsertConnection(connections, controller, KeyOf(o), now, true);
      if Strip(o.serial) != "" {
        identities := identities[controller := identities[controller].(serial := Strip(o.serial))];
      }
    }

    /** Marks exactly the observed connections active. */
    method ReconcilePresence(observed: set<(ControllerId, Key)>)
      modifies this
      ensures State() == SetActive(old(State()), observed)
    {
      ghost var before := State();
      connections := map c | c in connections :: map k | k in connections[c] :: connections[c][k].(active := false);
      SameFlags(before, connections, {});
      var rest := observed;
      assert observed - rest == {};
      while rest != {}
        invariant rest <= observed
        invariant State() == SetActive(before, observed - rest)
        decreases |rest|
      {
        var p :| p in rest;
        ghost var earlier := connections;
        if p.0 in connections && p.1 in connections[p.0] {
          connections := connections[p.0 := connections[p.0][p.1 := connections[p.0][p.1].(active := true)]];
        }
        ActivateOne(before, observed - rest, p, earlier, connections);
        assert observed - (rest - {p}) == (observed - rest) + {p};
        rest := rest - {p};
      }
      assert observed - rest == observed;
    }

    method RecordSuccess(c: ControllerId, k: Key, now: nat)
      modifies this
      ensures State() == Succeed(old(State()), c, k, now)
    {
      if c in connections && k in connections[c] {
        connections := connections[c := connections[c][k := Connection(now, true)]];
      }
    }

    method MarkAllOffline()
      modifies this
      ensures State() == SetActive(old(State()), {})
    {
      ghost var after := SetActive(State(), {}).connections;
      connections := map c | c in connections :: map k | k in connections[c] :: connections[c][k].(active := false);
      forall c | c in connections
        ensures connections[c] == after[c]
      {
      }
      assert connections == after;
    }

    /** The rows the sync pass selects, in the order the query happens to return them. */
    method SelectIdentities() returns (rows: seq<(ControllerId, DeviceId)>)
      ensures S.Listing(State(), rows)
    {
      rows := [];
      var rest := identities.Keys;
      while rest != {}
        invariant rest <= identities.Keys
        invariant S.Selected(State(), rows)
        invariant forall c :: c in identities.Keys - rest ==> S.Listed(rows, c)
        decreases |rest|
      {
        var c :| c in rest;
        rest := rest - {c};
        ghost var before := rows;
        rows := rows + [(c, identities[c].canonical)];
        forall e | e in identities.Keys - rest
          ensures S.Listed(rows, e)
        {
          if e == c {
            assert rows[|before|].0 == e;
          } else {
            assert S.Listed(before, e);
            var i :| 0 <= i < |before| && before[i].0 == e;
            assert rows[i].0 == e;
          }
        }
      }
    }
  }

  class ControllerScopes {
    var physical: map<S.Uid, S.Physical>
    var aliases: map<ControllerId, S.Uid>
    var nextUid: S.Uid

    ghost function State(): S.ScopeTables
      reads this
    {
      S.ScopeTables(physical, aliases, nextUid)
    }

    constructor ()
      ensures State() == R.NO_SCOPES
    {
      physical, aliases, nextUid := map[], map[], 0;
    }

    method PhysicalByDevice(d: DeviceId) returns (uid: Option<S.Uid>)
      ensures uid.None? <==> !exists u: S.Uid :: S.Holds(State(), u, d)
      ensures uid.Some? ==> S.Holds(State(), uid.value, d)
    {
      uid := None;
      var rest := physical.Keys;
      while rest != {}
        invariant rest <= physical.Keys
        invariant uid.None? ==> forall u :: u in physical.Keys - rest ==> physical[u].canonical != d
        invariant uid.Some? ==> S.Holds(State(), uid.value, d)
        decreases |rest|
      {
        var u :| u in rest;
        rest := rest - {u};
        if physical[u].canonical == d {
          uid := Some(u);
        }
      }
    }

    /** One row of the pass; `false` is the violated uniqueness constraint, which changes nothing. */
    method SyncIdentity(c: ControllerId, d: DeviceId) returns (ok: bool)
      requires S.UniqueCanonical(State())
      modifies this
      ensures S.UniqueCanonical(State())
      ensures ok <==> S.SyncRow(old(State()), c, d).Some?
      ensures State() == if ok then S.SyncRow(old(State()), c, d).value else old(State())
    {
      var holder := PhysicalByDevice(d);
      var uid := if c in aliases then aliases[c] else if holder.Some? then holder.value else nextUid;
      assert uid == S.UidFor(State(), c, d);
      ok := holder.None? || holder.value == uid;
      assert forall u: S.Uid :: S.Holds(State(), u, d) ==> holder.Some? && u == holder.value;
      assert forall u :: u in physical && physical[u].canonical == d ==> S.Holds(State(), u, d);
      if ok {
        physical := physical[uid := S.Physical(d, c)];
        aliases := aliases[c := uid];
        nextUid := Max(nextUid, uid + 1);
      }
    }

    /** The whole pass over the selected identities, rolled back if a row fails. */
    method SyncCurrentIdentities(rows: seq<(ControllerId, DeviceId)>) returns (ok: bool)
      requires S.UniqueCanonical(State())
      modifies this
      ensures S.UniqueCanonical(State())
      ensures ok <==> S.SyncRows(old(State()), rows).Some?
      ensures State() == if ok then S.SyncRows(old(State()), rows).value else old(State())
    {
      var savedPhysical, savedAliases, savedNext := physical, aliases, nextUid;
      ok := true;
      var i := 0;
      while i < |rows| && ok
        invariant 0 <= i <= |rows|
        invariant S.UniqueCanonical(State())
        invariant ok ==> S.SyncRows(old(State()), rows[..i]) == Some(State())
        invariant !ok ==> S.SyncRows(old(State()), rows).None?
      {
        assert rows[..i + 1][..i] == rows[..i];
        ok := SyncIdentity(rows[i].0, rows[i].1);
        if !ok {
          FailureSticks(old(State()), rows, i + 1);
        }
        i := i + 1;
      }
      assert ok ==> rows[..i] == rows;
      if !ok {
        physical, aliases, nextUid := savedPhysical, savedAliases, savedNext;
      }
    }
  }

  lemma {:induction false} FailureSticks(s: S.ScopeTables, rows: seq<(ControllerId, DeviceId)>, n: nat)
    requires n <= |rows| && S.SyncRows(s, rows[..n]).None?
    ensures S.SyncRows(s, rows).None?
  {
    if n == |rows| {
      assert rows[..n] == rows;
    } else {
      var last := |rows| - 1;
      assert rows[..last][..n] == rows[..n];
      FailureSticks(s, rows[..last], n);
    }
  }

  lemma TranslateOneMore(s: S.ScopeTables, seen: set<(S.Uid, Key)>, p: (S.Uid, Key))
    ensures R.Translate(s, seen + {p}) ==
      R.Translate(s, seen) + if p.0 in s.physical then {(s.physical[p.0].current, p.1)} else {}
  {
  }

  class ControllerRegistry {
    const inventory: ControllerInventory
    const scopes: ControllerScopes

    ghost function World(): S.World
      reads inventory, scopes
    {
      S.World(inventory.State(), scopes.State())
    }

    ghost predicate Valid()
      reads inventory, scopes
    {
      S.Valid(World())
    }

    /** The first initialization over a database, empty or older than the identity tables. */
    constructor (rows: map<DeviceId, LegacyRow>)
      requires LegacyDevices(rows)
      ensures Valid() && fresh(inventory) && fresh(scopes)
      ensures exists newest :: IsNewest(rows, newest) && inventory.State() == Bootstrap(rows, newest)
    {
      inventory := new ControllerInventory(rows);
      scopes := new ControllerScopes();
      new;
      var newest := inventory.BootstrapLegacyRows(rows);
      var listing := inventory.SelectIdentities();
      R.InitialWorldIsValid(rows, newest, listing);
      var ok := scopes.SyncCurrentIdentities(listing);
    }

    /** Between registrations the pass finds everything settled. */
    method Initialize()
      requires Valid()
      modifies inventory, scopes
      ensures World() == old(World())
    {
      var listing := inventory.SelectIdentities();
      S.SyncIdempotent(inventory.State(), scopes.State(), listing);
      var ok := scopes.SyncCurrentIdentities(listing);
    }

    method Resolve(id: S.Identifier) returns (scope: Option<S.Scope>)
      requires Valid()
      modifies inventory, scopes
      ensures World() == old(World())
      ensures scope == S.Resolve(World(), id)
    {
      Initialize();
      var uid := S.UidOf(S.ScopeTables(scopes.physical, scopes.aliases, scopes.nextUid), id);
      if uid.None? {
        return None;
      }
      var row := scopes.physical[uid.value];
      var owned := set d | d in inventory.members && inventory.members[d] == row.current;
      scope := Some(S.Scope(uid.value, row.current, row.canonical, owned + {row.canonical}));
    }

    /**
     * Registers an observation and returns its UID and canonical device; `None` is an exception.
     * Unless it reuses a retired alias, this is one step of a run, keeps the registry valid and
     * answers with the controller that is meant.
     */
    method RegisterObservation(o: Observation, now: nat)
      returns (result: Option<(S.Uid, DeviceId)>, ghost owner: Option<ControllerId>, ghost rows: seq<(ControllerId, DeviceId)>)
      requires Valid()
      modifies inventory, scopes
      ensures IsEndpointOwner(old(World()).tables, KeyOf(o), owner)
      ensures !S.ReusesRetiredAlias(old(World()), o, owner) ==>
        && Valid() && S.Extends(old(World()), World())
        && R.Step(old(World()), R.Observe(o, now, owner, rows), World())
      ensures owner.Some? ==> owner.value in old(World()).tables.identities
      ensures !S.ReusesRetiredAlias(old(World()), o, owner) ==>
        result.Some? && R.Answers(old(World()), o, owner, result.value.0, result.value.1, World())
      ensures !S.ReusesRetiredAlias(old(World()), o, owner) && Strip(o.serial) != "" ==>
        scopes.physical[result.value.0].current.SerialId? && scopes.physical[result.value.0].current.serial == Fold(o.serial)
    {
      Initialize();
      assert World() == old(World());
      var controller, device;
      controller, device, owner := inventory.RegisterObservation(o, now);
      var listing := inventory.SelectIdentities();
      rows := listing;
      var ok := scopes.SyncCurrentIdentities(listing);
      if !S.ReusesRetiredAlias(old(World()), o, owner) {
        S.RegisterKeepsValid(old(World()), o, now, owner, rows);
        R.StepAnswers(old(World()), R.Observe(o, now, owner, rows), World());
        MeantExactly(old(World()).tables, o, owner);
      }
      if !ok || controller !in scopes.aliases {
        return None, owner, rows;
      }
      result := Some((scopes.aliases[controller], device));
    }

    method RecordSuccess(uid: S.Uid, k: Key, now: nat)
      requires Valid()
      modifies inventory, scopes
      ensures Valid() && S.Extends(old(World()), World())
      ensures R.Step(old(World()), R.RecordSuccess(uid, k, now), World())
    {
      var scope := Resolve(S.ByUid(uid));
      if scope.Some? {
        inventory.RecordSuccess(scope.value.controller, k, now);
      }
      R.StepKeepsValid(old(World()), R.RecordSuccess(uid, k, now), World());
      Initialize();
    }

    /** Translates the selected UIDs to their current identities and marks those connections active. */
    method ReconcilePresence(observed: set<(S.Uid, Key)>)
      requires Valid()
      modifies inventory, scopes
      ensures Valid() && S.Extends(old(World()), World())
      ensures R.Step(old(World()), R.ReconcilePresence(observed), World())
    {
      var translated := TranslateObserved(observed);
      inventory.ReconcilePresence(translated);
      R.StepKeepsValid(old(World()), R.ReconcilePresence(observed), World());
    }

    method TranslateOne(p: (S.Uid, Key)) returns (t: set<(ControllerId, Key)>)
      requires Valid()
      modifies inventory, scopes
      ensures World() == old(World())
      ensures t == if p.0 in scopes.physical then {(scopes.physical[p.0].current, p.1)} else {}
    {
      var scope := Resolve(S.ByUid(p.0));
      t := if scope.Some? then {(scope.value.controller, p.1)} else {};
    }

    method TranslateObserved(observed: set<(S.Uid, Key)>) returns (translated: set<(ControllerId, Key)>)
      requires Valid()
      modifies inventory, scopes
      ensures World() == old(World())
      ensures translated == R.Translate(scopes.State(), observed)
    {
      translated := {};
      var rest := observed;
      while rest != {}
        invariant rest <= observed && World() == old(World())
        invariant translated == R.Translate(scopes.State(), observed - rest)
        decreases |rest|
      {
        var p :| p in rest;
        var one := TranslateOne(p);
        translated := translated + one;
        TranslateOneMore(scopes.State(), observed - rest, p);
        assert observed - (rest - {p}) == (observed - rest) + {p};
        rest := rest - {p};
      }
      assert observed - rest == observed;
    }

    method MarkAllOffline()
      requires Valid()
      modifies inventory, scopes
      ensures Valid() && S.Extends(old(World()), World())
      ensures R.Step(old(World()), R.MarkAllOffline, World())
    {
      inventory.MarkAllOffline();
      R.StepKeepsValid(old(World()), R.MarkAllOffline, World());
    }
  }
}
