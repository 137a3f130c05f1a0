/**
 * What every registration keeps of the identity tables, and how one registration relates the
 * tables before and after: identities are only ever renamed by promotion, and carry their
 * canonical device, their members and their connections along.
 */
module InventoryInvariant {
  import opened Options
  import opened Text
  import opened Inventory

  /** Every identity's canonical device is a member of that identity; members and connections have an owner. */
  ghost predicate Owned(t: Tables) {
    && (forall c {:trigger t.identities[c]} :: c in t.identities ==> t.Member(c, t.identities[c].canonical))
    && (forall d :: d in t.members ==> t.members[d] in t.identities && d in t.devices)
    && (forall c :: c in t.connections ==> c in t.identities)
  }

  ghost predicate SerialMatches(c: ControllerId, i: Identity) {
    if c.SerialId? then c.serial != "" && Fold(i.serial) == c.serial && Strip(i.serial) != ""
    else Strip(i.serial) == ""
  }

  ghost predicate Serials(t: Tables) {
    forall c :: c in t.identities ==> SerialMatches(c, t.identities[c])
  }

  /** Row keys are unique, endpoint-named rows keep their endpoint's key. */
  ghost predicate Rows(t: Tables) {
    && (forall d, e :: d in t.devices && e in t.devices && t.devices[d] == t.devices[e] ==> d == e)
    && (forall d :: d in t.devices && d.EndpointDevice? ==> t.devices[d] == ByEndpoint(d.key))
    && (forall d :: d in t.devices && t.devices[d].ByDevice? ==> t.devices[d].id == d)
  }

  ghost predicate HasOwner(t: Tables, k: Key) {
    exists c :: t.Connected(c, k)
  }

  /** A member row holding an endpoint's key implies that endpoint has an owner. */
  ghost predicate KeysOwned(t: Tables) {
    forall d {:trigger t.devices[d].key} :: d in t.members && d in t.devices && t.devices[d].ByEndpoint? ==> HasOwner(t, t.devices[d].key)
  }

  /** A conflict device is only ever created together with its serial identity. */
  ghost predicate Conflicts(t: Tables) {
    forall d :: d in t.devices && d.ConflictDevice? ==>
      Strip(d.serial) != "" && SerialId(Fold(d.profile), Fold(d.serial)) in t.identities
  }

  ghost predicate Inv(t: Tables) {
    Owned(t) && Serials(t) && Rows(t) && KeysOwned(t) && Conflicts(t)
  }

  lemma FoldStrip(s: string)
    ensures Fold(Strip(s)) == Fold(s)
    ensures Strip(s) != "" ==> Fold(s) != ""
  {
    StripIdempotent(s);
  }

  /** Two identities never share a canonical device. */
  lemma CanonicalDevicesDistinct(t: Tables, c: ControllerId, c': ControllerId)
    requires Inv(t) && c in t.identities && c' in t.identities
    requires t.identities[c].canonical == t.identities[c'].canonical
    ensures c == c'
  {
    assert t.Member(c, t.identities[c].canonical) && t.Member(c', t.identities[c'].canonical);
  }

  // ----- How an identity lives on across one step -----

  /** `c'` after the step is the controller that was `c` before it. */
  ghost predicate Succeeds(t: Tables, t': Tables, c: ControllerId, c': ControllerId)
    requires c in t.identities
  {
    && c' in t'.identities
    && t'.identities[c'].canonical == t.identities[c].canonical
    && (c.SerialId? ==> c' == c)
    && (forall d :: t.Member(c, d) ==> t'.Member(c', d))
    && (forall k :: t.Connected(c, k) ==> t'.Connected(c', k))
  }

  ghost predicate Evolves(t: Tables, t': Tables) {
    && (forall c :: c in t.identities ==> exists c' :: Succeeds(t, t', c, c'))
    && (forall c :: c in t.identities && c.SerialId? ==> c in t'.identities)
    && (forall k :: HasOwner(t, k) ==> HasOwner(t', k))
  }

  lemma OwnersPersist(t: Tables, t': Tables)
    requires forall c, k :: t.Connected(c, k) ==> t'.Connected(c, k)
    ensures forall k :: HasOwner(t, k) ==> HasOwner(t', k)
  {
  }

  /** Only serial columns and connections change, and no connection is lost. */
  ghost predicate Refreshes(t: Tables, t': Tables) {
    && t'.devices == t.devices && t'.members == t.members
    && t'.identities.Keys == t.identities.Keys
    && (forall c :: c in t.identities ==> t'.identities[c].canonical == t.identities[c].canonical)
    && (forall c :: c in t'.connections ==> c in t'.identities)
    && (forall c, k :: t.Connected(c, k) ==> t'.Connected(c, k))
  }

  lemma RefreshKeepsInv(t: Tables, t': Tables)
    requires Inv(t) && Refreshes(t, t') && Serials(t')
    ensures Inv(t')
  {
    OwnersPersist(t, t');
    assert Owned(t') by {
      assert forall c :: c in t'.identities ==> t.Member(c, t.identities[c].canonical);
    }
    assert KeysOwned(t');
  }

  lemma RefreshEvolves(t: Tables, t': Tables)
    requires Refreshes(t, t')
    ensures Evolves(t, t')
  {
    SameIdentities(t, t');
  }

  lemma SameIdentities(t: Tables, t': Tables)
    requires t.identities.Keys <= t'.identities.Keys
    requires forall c :: c in t.identities ==> t'.identities[c].canonical == t.identities[c].canonical
    requires forall c, d :: t.Member(c, d) ==> t'.Member(c, d)
    requires forall c, k :: t.Connected(c, k) ==> t'.Connected(c, k)
    ensures Evolves(t, t')
  {
    OwnersPersist(t, t');
    forall c | c in t.identities
      ensures exists c' :: Succeeds(t, t', c, c')
    {
      assert Succeeds(t, t', c, c);
    }
  }

  // ----- Attribution, branch by branch -----

  lemma InsertDeviceKeepsRows(t: Tables, d: DeviceId, k: Key)
    requires Rows(t)
    requires d.EndpointDevice? ==> d.key == k && !KeyTaken(t, ByEndpoint(k))
    ensures Rows(InsertDevice(t, d, k))
  {
  }

  // The five parts of the invariant, for an identity inserted over a device row nobody owns.

  ghost predicate Insertable(t: Tables, c: ControllerId, d: DeviceId, o: Observation) {
    && c == IdOf(o) && c !in t.identities && d !in t.members
    && (d.ConflictDevice? && d !in t.devices ==> d == ConflictDeviceOf(o) && Strip(o.serial) != "")
    && (d in t.devices ==> t.devices[d] == ByEndpoint(KeyOf(o)))
    && (d !in t.devices && d.EndpointDevice? ==> d.key == KeyOf(o) && !KeyTaken(t, ByEndpoint(KeyOf(o))))
  }

  ghost function Insert(t: Tables, c: ControllerId, d: DeviceId, o: Observation, now: nat): Tables {
    Touch(InsertIdentity(t, c, d, o), c, d, o, now)
  }

  lemma InsertConnections(t: Tables, c: ControllerId, d: DeviceId, o: Observation, now: nat)
    ensures forall c', k :: t.Connected(c', k) ==> Insert(t, c, d, o, now).Connected(c', k)
    ensures forall k :: HasOwner(t, k) ==> HasOwner(Insert(t, c, d, o, now), k)
    ensures HasOwner(Insert(t, c, d, o, now), KeyOf(o))
  {
    var t1 := InsertIdentity(t, c, d, o);
    TouchOwners(t1, c, d, o, now);
    assert t1.connections == t.connections;
    forall c', k | t.Connected(c', k)
      ensures Insert(t, c, d, o, now).Connected(c', k)
    {
      assert t1.Connected(c', k);
    }
    OwnersPersist(t, Insert(t, c, d, o, now));
  }

  lemma InsertOwned(t: Tables, c: ControllerId, d: DeviceId, o: Observation, now: nat)
    requires Owned(t) && Insertable(t, c, d, o)
    ensures Owned(Insert(t, c, d, o, now))
  {
    var t' := Insert(t, c, d, o, now);
    assert t'.members == t.members[d := c];
    forall c' | c' in t'.identities
      ensures t'.Member(c', t'.identities[c'].canonical)
    {
      assert c' != c ==> t.Member(c', t.identities[c'].canonical);
    }
  }

  lemma InsertSerials(t: Tables, c: ControllerId, d: DeviceId, o: Observation, now: nat)
    requires Serials(t) && Insertable(t, c, d, o)
    ensures Serials(Insert(t, c, d, o, now))
  {
    FoldStrip(o.serial);
    StripIdempotent(o.serial);
    assert SerialMatches(c, Insert(t, c, d, o, now).identities[c]);
  }

  lemma InsertKeysOwned(t: Tables, c: ControllerId, d: DeviceId, o: Observation, now: nat)
    requires Owned(t) && KeysOwned(t) && Insertable(t, c, d, o)
    ensures KeysOwned(Insert(t, c, d, o, now))
  {
    var t' := Insert(t, c, d, o, now);
    InsertConnections(t, c, d, o, now);
    forall e | e in t'.members && e in t'.devices && t'.devices[e].ByEndpoint?
      ensures HasOwner(t', t'.devices[e].key)
    {
      if e != d {
        assert e in t.members && e in t.devices && t'.devices[e] == t.devices[e];
      }
    }
  }

  lemma InsertConflicts(t: Tables, c: ControllerId, d: DeviceId, o: Observation, now: nat)
    requires Conflicts(t) && Insertable(t, c, d, o)
    ensures Conflicts(Insert(t, c, d, o, now))
  {
  }

  lemma InsertKeepsInv(t: Tables, c: ControllerId, d: DeviceId, o: Observation, now: nat)
    requires Inv(t) && Insertable(t, c, d, o)
    ensures Inv(Insert(t, c, d, o, now))
    ensures Evolves(t, Insert(t, c, d, o, now))
  {
    InsertOwned(t, c, d, o, now);
    InsertSerials(t, c, d, o, now);
    InsertKeysOwned(t, c, d, o, now);
    InsertConflicts(t, c, d, o, now);
    if d !in t.devices {
      InsertDeviceKeepsRows(t, d, KeyOf(o));
    }
    InsertEvolves(t, c, d, o, now);
  }

  /** An inserted identity disturbs no other. */
  lemma InsertEvolves(t: Tables, c: ControllerId, d: DeviceId, o: Observation, now: nat)
    requires Insertable(t, c, d, o)
    ensures Evolves(t, Insert(t, c, d, o, now))
  {
    var t' := Insert(t, c, d, o, now);
    InsertConnections(t, c, d, o, now);
    assert t'.members == t.members[d := c];
    SameIdentities(t, t');
  }

  lemma TouchOwners(t: Tables, c: ControllerId, d: DeviceId, o: Observation, now: nat)
    requires c in t.identities
    ensures forall c', k :: t.Connected(c', k) ==> Touch(t, c, d, o, now).Connected(c', k)
    ensures forall k :: HasOwner(t, k) ==> HasOwner(Touch(t, c, d, o, now), k)
    ensures Touch(t, c, d, o, now).Connected(c, KeyOf(o))
    ensures HasOwner(Touch(t, c, d, o, now), KeyOf(o))
  {
    var t' := Touch(t, c, d, o, now);
    assert t'.Connected(c, KeyOf(o));
    OwnersPersist(t, t');
  }

  /** Touching an identity through its own canonical device. */
  lemma TouchKeepsInv(t: Tables, c: ControllerId, o: Observation, now: nat)
    requires Inv(t) && c in t.identities
    requires Strip(o.serial) != "" ==> c.SerialId? && Fold(o.serial) == c.serial
    ensures Inv(Touch(t, c, t.identities[c].canonical, o, now))
    ensures Evolves(t, Touch(t, c, t.identities[c].canonical, o, now))
  {
    var t' := Touch(t, c, t.identities[c].canonical, o, now);
    TouchRefreshes(t, c, o, now);
    TouchSerials(t, c, o, now);
    RefreshKeepsInv(t, t');
    RefreshEvolves(t, t');
  }

  lemma TouchRefreshes(t: Tables, c: ControllerId, o: Observation, now: nat)
    requires Owned(t) && c in t.identities
    ensures Refreshes(t, Touch(t, c, t.identities[c].canonical, o, now))
  {
    var t' := Touch(t, c, t.identities[c].canonical, o, now);
    assert t.Member(c, t.identities[c].canonical);
    assert t'.members == t.members;
    assert t'.identities.Keys == t.identities.Keys;
  }

  lemma TouchSerials(t: Tables, c: ControllerId, o: Observation, now: nat)
    requires Serials(t) && c in t.identities
    requires Strip(o.serial) != "" ==> c.SerialId? && Fold(o.serial) == c.serial
    ensures Serials(Touch(t, c, t.identities[c].canonical, o, now))
  {
    var t' := Touch(t, c, t.identities[c].canonical, o, now);
    FoldStrip(o.serial);
    StripIdempotent(o.serial);
    assert SerialMatches(c, t.identities[c]);
    assert SerialMatches(c, t'.identities[c]);
  }

  // Promotion: the serial identity takes the fallback identity's place.

  ghost predicate Promotable(t: Tables, old_: ControllerId, o: Observation) {
    old_ in t.identities && !old_.SerialId? && IdOf(o) !in t.identities && Strip(o.serial) != ""
  }

  lemma PromoteConnections(t: Tables, old_: ControllerId, o: Observation)
    requires Owned(t) && Promotable(t, old_, o)
    ensures var t' := Promote(t, old_, IdOf(o), o.serial);
      && (forall c, k :: t.Connected(c, k) ==> t'.Connected(if c == old_ then IdOf(o) else c, k))
      && (forall k :: HasOwner(t, k) ==> HasOwner(t', k))
  {
  }

  lemma PromoteKeepsInv(t: Tables, old_: ControllerId, o: Observation)
    requires Inv(t) && Promotable(t, old_, o)
    ensures Inv(Promote(t, old_, IdOf(o), o.serial))
  {
    var t' := Promote(t, old_, IdOf(o), o.serial);
    PromoteConnections(t, old_, o);
    PromoteOwned(t, old_, o);
    PromoteSerials(t, old_, o);
    assert KeysOwned(t');
  }

  lemma PromoteSerials(t: Tables, old_: ControllerId, o: Observation)
    requires Serials(t) && Conflicts(t) && Promotable(t, old_, o)
    ensures Serials(Promote(t, old_, IdOf(o), o.serial))
    ensures Conflicts(Promote(t, old_, IdOf(o), o.serial))
  {
  }

  lemma PromoteOwned(t: Tables, old_: ControllerId, o: Observation)
    requires Owned(t) && Promotable(t, old_, o)
    ensures Owned(Promote(t, old_, IdOf(o), o.serial))
  {
    var t' := Promote(t, old_, IdOf(o), o.serial);
    forall c | c in t'.identities
      ensures t'.Member(c, t'.identities[c].canonical)
    {
      var before := if c == IdOf(o) then old_ else c;
      assert t.Member(before, t.identities[before].canonical);
    }
  }

  lemma PromoteEvolves(t: Tables, old_: ControllerId, o: Observation)
    requires Inv(t) && Promotable(t, old_, o)
    ensures Evolves(t, Promote(t, old_, IdOf(o), o.serial))
  {
    var t' := Promote(t, old_, IdOf(o), o.serial);
    PromoteConnections(t, old_, o);
    forall c | c in t.identities
      ensures exists c' :: Succeeds(t, t', c, c')
    {
      PromoteSucceeds(t, old_, o, c);
    }
  }

  lemma PromoteSucceeds(t: Tables, old_: ControllerId, o: Observation, c: ControllerId)
    requires Owned(t) && Promotable(t, old_, o) && c in t.identities
    ensures Succeeds(t, Promote(t, old_, IdOf(o), o.serial), c, if c == old_ then IdOf(o) else c)
  {
  }

  lemma NewDeviceIsFree(t: Tables, o: Observation)
    requires Inv(t) && IsEndpointOwner(t, KeyOf(o), None)
    ensures var d := NewDeviceOf(t, o);
      && d !in t.members
      && (d in t.devices ==> t.devices[d] == ByEndpoint(KeyOf(o)))
      && (d !in t.devices ==> d == EndpointDevice(KeyOf(o)) && !KeyTaken(t, ByEndpoint(KeyOf(o))))
  {
  }

  lemma EvolvesTransitive(a: Tables, b: Tables, c: Tables)
    requires Evolves(a, b) && Evolves(b, c)
    ensures Evolves(a, c)
  {
    forall i | i in a.identities
      ensures exists i' :: Succeeds(a, c, i, i')
    {
      var j :| Succeeds(a, b, i, j);
      var k :| Succeeds(b, c, j, k);
      assert Succeeds(a, c, i, k);
    }
  }

  /**
   * The result of a registration: the returned pair is an identity and its own canonical device,
   * connected at the endpoint that was observed; an observation that carries a serial is always
   * attributed to an identity of that serial.
   */
  ghost predicate Attributed(o: Observation, r: Registered) {
    && r.controller in r.tables.identities
    && r.tables.identities[r.controller].canonical == r.device
    && r.tables.Connected(r.controller, KeyOf(o))
    && (Strip(o.serial) != "" ==> r.controller.SerialId? && r.controller.serial == Fold(o.serial))
  }

  lemma RegisterKeepsInv(t: Tables, o: Observation, now: nat, owner: Option<ControllerId>)
    requires Inv(t) && IsEndpointOwner(t, KeyOf(o), owner)
    ensures Inv(Register(t, o, now, owner).tables)
    ensures Evolves(t, Register(t, o, now, owner).tables)
    ensures Attributed(o, Register(t, o, now, owner))
  {
    var id := IdOf(o);
    var a := Attribute(t, o, owner);
    var r := Register(t, o, now, owner);
    FoldStrip(o.serial);
    TouchOwners(a.tables, a.controller, a.device, o, now);
    match MatchOf(t, o, owner)
    case KnownIdentity =>
      TouchKeepsInv(t, id, o, now);
    case KnownOwner =>
      assert SerialMatches(owner.value, t.identities[owner.value]);
      FoldStrip(t.identities[owner.value].serial);
      TouchKeepsInv(t, owner.value, o, now);
    case SerialConflict =>
      var d := ConflictDeviceOf(o);
      assert d !in t.devices;
      InsertKeepsInv(t, id, d, o, now);
    case Promotion =>
      assert SerialMatches(owner.value, t.identities[owner.value]);
      PromoteKeepsInv(t, owner.value, o);
      PromoteEvolves(t, owner.value, o);
      TouchKeepsInv(a.tables, id, o, now);
      EvolvesTransitive(t, a.tables, r.tables);
    case NewController =>
      NewDeviceIsFree(t, o);
      InsertKeepsInv(t, id, NewDeviceOf(t, o), o, now);
  }

  /** A registration adds at most the observation's own id and re-points no identity. */
  lemma RegisterAdds(t: Tables, o: Observation, now: nat, owner: Option<ControllerId>)
    requires owner.Some? ==> owner.value in t.identities
    ensures var t' := Register(t, o, now, owner).tables;
      && t'.identities.Keys <= t.identities.Keys + {IdOf(o)}
      && (forall c :: c in t'.identities && c in t.identities ==> t'.identities[c].canonical == t.identities[c].canonical)
  {
    hide Strip, NewDeviceOf, ConflictDeviceOf, KeyTaken, MoveMembers, MoveConnections, UpsertConnection;
    var a := Attribute(t, o, owner);
    var t' := Register(t, o, now, owner).tables;
    assert t'.identities.Keys == a.tables.identities.Keys;
    assert forall c :: c in t'.identities ==> t'.identities[c].canonical == a.tables.identities[c].canonical;
  }

  /** A new controller, or one split off by a serial conflict, gets a device nobody owned. */
  lemma NewDeviceUnowned(t: Tables, o: Observation, now: nat, owner: Option<ControllerId>)
    requires Inv(t) && IsEndpointOwner(t, KeyOf(o), owner)
    requires MatchOf(t, o, owner) == NewController || MatchOf(t, o, owner) == SerialConflict
    ensures var r := Register(t, o, now, owner); r.controller == IdOf(o) && r.device !in t.members
    ensures Register(t, o, now, owner).tables.identities.Keys == t.identities.Keys + {IdOf(o)}
  {
    OwnerIsKnown(t, o, owner);
    hide *;
    NewControllerId(t, o, now, owner);
    NewControllerDevice(t, o, now, owner);
    if MatchOf(t, o, owner) == NewController {
      FreshDeviceUnowned(t, o, owner);
    } else {
      ConflictDeviceUnowned(t, o, owner);
    }
  }

  lemma OwnerIsKnown(t: Tables, o: Observation, owner: Option<ControllerId>)
    requires IsEndpointOwner(t, KeyOf(o), owner)
    ensures owner.Some? ==> owner.value in t.identities
  {
  }

  lemma FreshDeviceUnowned(t: Tables, o: Observation, owner: Option<ControllerId>)
    requires Inv(t) && IsEndpointOwner(t, KeyOf(o), owner) && (owner.Some? ==> owner.value in t.identities)
    requires MatchOf(t, o, owner) == NewController
    ensures NewDeviceOf(t, o) !in t.members
  {
    hide Inv, NewDeviceOf, IsEndpointOwner;
    NewDeviceIsFree(t, o);
  }

  /** The device of a serial conflict would already have brought its identity along. */
  lemma ConflictDeviceUnowned(t: Tables, o: Observation, owner: Option<ControllerId>)
    requires Inv(t) && owner.Some? && owner.value in t.identities && MatchOf(t, o, owner) == SerialConflict
    ensures ConflictDeviceOf(o) !in t.members
  {
    hide Serials, Rows, KeysOwned;
    FoldStrip(o.serial);
    assert ConflictDeviceOf(o) !in t.devices;
  }

  lemma NewControllerDevice(t: Tables, o: Observation, now: nat, owner: Option<ControllerId>)
    requires owner.Some? ==> owner.value in t.identities
    requires MatchOf(t, o, owner) == NewController || MatchOf(t, o, owner) == SerialConflict
    ensures Register(t, o, now, owner).device
            == if MatchOf(t, o, owner) == NewController then NewDeviceOf(t, o) else ConflictDeviceOf(o)
  {
  }

  lemma NewControllerId(t: Tables, o: Observation, now: nat, owner: Option<ControllerId>)
    requires owner.Some? ==> owner.value in t.identities
    requires MatchOf(t, o, owner) == NewController || MatchOf(t, o, owner) == SerialConflict
    ensures var r := Register(t, o, now, owner);
      r.controller == IdOf(o) && r.tables.identities.Keys == t.identities.Keys + {IdOf(o)}
  {
  }

  /** An id that a registration adds carries a serial, unless the endpoint had no owner. */
  lemma AddedIdentity(t: Tables, o: Observation, now: nat, owner: Option<ControllerId>)
    requires owner.Some? ==> owner.value in t.identities
    requires IdOf(o) !in t.identities && IdOf(o) in Register(t, o, now, owner).tables.identities
    ensures IdOf(o).SerialId? || owner.None?
  {
  }

  /** Presence updates touch connection flags only. */
  lemma PresenceKeepsInv(t: Tables, observed: set<(ControllerId, Key)>)
    requires Inv(t)
    ensures Inv(SetActive(t, observed)) && Evolves(t, SetActive(t, observed))
  {
    var t' := SetActive(t, observed);
    PresenceRefreshes(t, observed);
    hide Owned, Rows, KeysOwned, Conflicts, Evolves, Refreshes, SerialMatches;
    assert Serials(t');
    RefreshKeepsInv(t, t');
    RefreshEvolves(t, t');
  }

  lemma PresenceRefreshes(t: Tables, observed: set<(ControllerId, Key)>)
    requires Owned(t)
    ensures Refreshes(t, SetActive(t, observed)) && SetActive(t, observed).identities == t.identities
  {
  }

  lemma SucceedRefreshes(t: Tables, c: ControllerId, k: Key, now: nat)
    requires Owned(t)
    ensures Refreshes(t, Succeed(t, c, k, now))
  {
  }

  lemma SucceedKeepsInv(t: Tables, c: ControllerId, k: Key, now: nat)
    requires Inv(t)
    ensures Inv(Succeed(t, c, k, now)) && Evolves(t, Succeed(t, c, k, now))
  {
    var t' := Succeed(t, c, k, now);
    SucceedRefreshes(t, c, k, now);
    RefreshKeepsInv(t, t');
    RefreshEvolves(t, t');
  }

  /** A success refreshes the one connection it is reported for, and creates none. */
  lemma SucceedExactly(t: Tables, c: ControllerId, k: Key, now: nat, c': ControllerId, k': Key)
    ensures Succeed(t, c, k, now).Connected(c', k') <==> t.Connected(c', k')
    ensures t.Connected(c', k') ==>
      Succeed(t, c, k, now).connections[c'][k'] == (if (c', k') == (c, k) then Connection(now, true) else t.connections[c'][k'])
  {
  }

  /**
   * The bootstrap makes every legacy row a member of its controller, connected at its endpoint since
   * it was last seen; the newest row of a controller is canonical, and alone may be active.
   */
  lemma BootstrapExactly(rows: map<DeviceId, LegacyRow>, newest: map<ControllerId, DeviceId>, d: DeviceId)
    requires LegacyDevices(rows) && IsNewest(rows, newest) && d in rows
    ensures
      var t, c, k := Bootstrap(rows, newest), LegacyId(rows[d]), StableKey(rows[d].endpoint);
      && t.Member(c, d) && c in t.identities && t.identities[c].canonical == newest[c]
      && t.Connected(c, k) && t.connections[c][k] == Connection(rows[d].lastSeen, d == newest[c] && rows[d].live)
  {
    LegacyConnectionAt(rows, newest[LegacyId(rows[d])], d);
    hide LegacyId, StableKey, LegacyConnections;
  }

  lemma LegacyConnectionAt(rows: map<DeviceId, LegacyRow>, current: DeviceId, d: DeviceId)
    requires LegacyDevices(rows) && d in rows
    ensures var m, k := LegacyConnections(rows, current, LegacyId(rows[d])), StableKey(rows[d].endpoint);
      k in m && m[k] == Connection(rows[d].lastSeen, d == current && rows[d].live)
  {
    hide LegacyId, StableKey;
  }

  /** There is nothing else: identities, members and connections all come from rows. */
  lemma BootstrapOnly(rows: map<DeviceId, LegacyRow>, newest: map<ControllerId, DeviceId>, c: ControllerId, k: Key)
    requires LegacyDevices(rows) && IsNewest(rows, newest)
    ensures var t := Bootstrap(rows, newest);
      && t.members.Keys == rows.Keys && (c in t.identities ==> exists d :: d in rows && LegacyId(rows[d]) == c)
      && (t.Connected(c, k) ==> exists d :: d in rows && LegacyId(rows[d]) == c && StableKey(rows[d].endpoint) == k)
  {
    hide LegacyId, StableKey, LegacyConnections;
    if c in newest {
      LegacyConnectionFrom(rows, newest[c], c, k);
    }
  }

  lemma LegacyConnectionFrom(rows: map<DeviceId, LegacyRow>, current: DeviceId, c: ControllerId, k: Key)
    requires LegacyDevices(rows)
    ensures k in LegacyConnections(rows, current, c) ==>
      exists d :: d in rows && LegacyId(rows[d]) == c && StableKey(rows[d].endpoint) == k
  {
    hide LegacyId, StableKey;
  }

  lemma BootstrapKeysOwned(rows: map<DeviceId, LegacyRow>, newest: map<ControllerId, DeviceId>)
    requires LegacyDevices(rows) && IsNewest(rows, newest)
    ensures KeysOwned(Bootstrap(rows, newest))
  {
    var t := Bootstrap(rows, newest);
    forall d | d in t.members && d in t.devices && t.devices[d].ByEndpoint?
      ensures HasOwner(t, t.devices[d].key)
    {
      BootstrapExactly(rows, newest, d);
    }
  }

  lemma BootstrapSerials(rows: map<DeviceId, LegacyRow>, newest: map<ControllerId, DeviceId>)
    requires LegacyDevices(rows) && IsNewest(rows, newest)
    ensures Serials(Bootstrap(rows, newest))
  {
    hide LegacyConnections, LegacyDeviceKeys, StableKey, Strip, Lower;
    var t := Bootstrap(rows, newest);
    forall c | c in t.identities
      ensures SerialMatches(c, t.identities[c])
    {
      FoldStrip(rows[newest[c]].serial);
    }
  }

  /** The bootstrap of a legacy database establishes the invariant. */
  lemma BootstrapEstablishesInv(rows: map<DeviceId, LegacyRow>, newest: map<ControllerId, DeviceId>)
    requires LegacyDevices(rows) && IsNewest(rows, newest)
    ensures Inv(Bootstrap(rows, newest))
  {
    BootstrapKeysOwned(rows, newest);
    BootstrapSerials(rows, newest);
    assert Rows(Bootstrap(rows, newest));
    assert Conflicts(Bootstrap(rows, newest));
  }
}
