/**
 * To which controller a registration attributes an observation, said of the tables before and
 * after it: when a controller is kept, promoted, split off or added, and what happens to the others.
 */
module Attribution {
  import opened Options
  import opened Text
  import opened Inventory
  import opened InventoryInvariant

  /** The observation carries a serial, and the endpoint's owner another one. */
  predicate Clash(t: Tables, o: Observation, w: ControllerId)
    requires w in t.identities
  {
    Strip(o.serial) != "" && Strip(t.identities[w].serial) != "" && Strip(o.serial) != Strip(t.identities[w].serial)
  }

  /** The observation carries a serial, and the endpoint's owner none. */
  predicate Gains(t: Tables, o: Observation, w: ControllerId)
    requires w in t.identities
  {
    Strip(o.serial) != "" && Strip(t.identities[w].serial) == ""
  }

  /** Nobody known is meant: no identity has the id, and the endpoint has no owner or one of another serial. */
  ghost predicate Newcomer(t: Tables, o: Observation, owner: Option<ControllerId>)
    requires owner.Some? ==> owner.value in t.identities
  {
    IdOf(o) !in t.identities && (owner.None? || Clash(t, o, owner.value))
  }

  ghost predicate Promoted(t: Tables, o: Observation, owner: Option<ControllerId>)
    requires owner.Some? ==> owner.value in t.identities
  {
    IdOf(o) !in t.identities && owner.Some? && Gains(t, o, owner.value)
  }

  /** The controller before the registration that the observation belongs to, unless it is a newcomer's. */
  function Former(t: Tables, o: Observation, owner: Option<ControllerId>): ControllerId {
    if IdOf(o) in t.identities || owner.None? then IdOf(o) else owner.value
  }

  /** The controller after it: only a known owner that neither gains nor contradicts a serial keeps a foreign id. */
  function Meant(t: Tables, o: Observation, owner: Option<ControllerId>): ControllerId
    requires owner.Some? ==> owner.value in t.identities
  {
    if IdOf(o) in t.identities || owner.None? || Clash(t, o, owner.value) || Gains(t, o, owner.value) then IdOf(o)
    else owner.value
  }

  /** The ids afterwards, the returned id, and whose device is returned. */
  lemma AttributionExactly(t: Tables, o: Observation, now: nat, owner: Option<ControllerId>)
    requires Inv(t) && IsEndpointOwner(t, KeyOf(o), owner)
    ensures owner.Some? ==> owner.value in t.identities
    ensures var r := Register(t, o, now, owner); var ids := r.tables.identities.Keys;
      && r.controller == Meant(t, o, owner)
      && (Newcomer(t, o, owner) ==> ids == t.identities.Keys + {IdOf(o)} && r.device !in t.members)
      && (!Newcomer(t, o, owner) ==>
            Former(t, o, owner) in t.identities && r.device == t.identities[Former(t, o, owner)].canonical)
      && (Promoted(t, o, owner) ==> ids == t.identities.Keys - {owner.value} + {IdOf(o)} && owner.value !in ids)
      && (!Newcomer(t, o, owner) && !Promoted(t, o, owner) ==> ids == t.identities.Keys)
  {
    hide UpsertConnection, MoveMembers, MoveConnections, InsertDevice, NewDeviceOf, ConflictDeviceOf, Inv;
    if Newcomer(t, o, owner) {
      NewDeviceUnowned(t, o, now, owner);
    }
  }

  /** The device of a newcomer: at a free endpoint its own, or the row that already has its key; else one of this conflict. */
  lemma NewcomerDevice(t: Tables, o: Observation, now: nat, owner: Option<ControllerId>)
    requires Inv(t) && IsEndpointOwner(t, KeyOf(o), owner)
    ensures owner.Some? ==> owner.value in t.identities
    ensures var d := Register(t, o, now, owner).device;
      Newcomer(t, o, owner) ==>
        if owner.Some? then d == ConflictDevice(o.profile, o.serial, KeyOf(o))
        else if exists e :: e in t.devices && t.devices[e] == ByEndpoint(KeyOf(o)) then
          d in t.devices && t.devices[d] == ByEndpoint(KeyOf(o))
        else d == EndpointDevice(KeyOf(o))
  {
    OwnerIsKnown(t, o, owner);
    if Newcomer(t, o, owner) {
      NewControllerDevice(t, o, now, owner);
    }
    hide Register, Inv, IsEndpointOwner, KeyOf, IdOf, Strip;
  }

  lemma OneMore(s: set<ControllerId>, x: ControllerId)
    requires x !in s
    ensures |s + {x}| == |s| + 1
  {
  }

  lemma OneForOne(s: set<ControllerId>, out: ControllerId, x: ControllerId)
    requires out in s && x !in s
    ensures |s - {out} + {x}| == |s|
  {
    OneMore(s - {out}, x);
    assert s == s - {out} + {out};
  }

  /** Controllers become more exactly when a newcomer is registered, and never fewer. */
  lemma ControllersGrowExactly(t: Tables, o: Observation, now: nat, owner: Option<ControllerId>)
    requires Inv(t) && IsEndpointOwner(t, KeyOf(o), owner)
    ensures owner.Some? ==> owner.value in t.identities
    ensures |Register(t, o, now, owner).tables.identities| == |t.identities| + if Newcomer(t, o, owner) then 1 else 0
  {
    AttributionExactly(t, o, now, owner);
    hide Register, Inv, IsEndpointOwner, Clash, Gains, Meant, Former, IdOf;
    var before, after := t.identities.Keys, Register(t, o, now, owner).tables.identities.Keys;
    assert |t.identities| == |before| && |Register(t, o, now, owner).tables.identities| == |after|;
    if Newcomer(t, o, owner) {
      OneMore(before, IdOf(o));
    } else if Promoted(t, o, owner) {
      OneForOne(before, owner.value, IdOf(o));
    }
  }

  /** Where a controller's connections are afterwards: promotion hands them to the new id. */
  function Heir(t: Tables, o: Observation, owner: Option<ControllerId>, c: ControllerId): ControllerId
    requires owner.Some? ==> owner.value in t.identities
  {
    if IdOf(o) !in t.identities && owner == Some(c) && Gains(t, o, c) then IdOf(o) else c
  }

  lemma AttributeRows(t: Tables, o: Observation, owner: Option<ControllerId>)
    requires owner.Some? ==> owner.value in t.identities
    ensures var a := Attribute(t, o, owner);
      && (forall c :: c in a.tables.identities && c != a.controller ==>
            c in t.identities && a.tables.identities[c] == t.identities[c])
      && (Strip(o.serial) == "" && !Newcomer(t, o, owner) ==>
            Former(t, o, owner) in t.identities
            && a.tables.identities[a.controller].serial == t.identities[Former(t, o, owner)].serial)
  {
    hide MoveMembers, MoveConnections, NewDeviceOf, ConflictDeviceOf, IdOf, Strip;
  }

  /** Only the returned controller's row changes: it takes over the serial that was read, if one was. */
  lemma IdentityRowsExactly(t: Tables, o: Observation, now: nat, owner: Option<ControllerId>)
    requires owner.Some? ==> owner.value in t.identities
    ensures var r := Register(t, o, now, owner);
      && r.controller in r.tables.identities
      && (forall c :: c in r.tables.identities && c != r.controller ==>
            c in t.identities && r.tables.identities[c] == t.identities[c])
      && (Strip(o.serial) != "" ==> r.tables.identities[r.controller].serial == Strip(o.serial))
      && (Strip(o.serial) == "" && !Newcomer(t, o, owner) ==>
            Former(t, o, owner) in t.identities
            && r.tables.identities[r.controller].serial == t.identities[Former(t, o, owner)].serial)
  {
    AttributeRows(t, o, owner);
    hide Attribute, UpsertConnection, Former, Newcomer, Strip;
  }

  /** Every member device stays with its controller or that one's heir; at most the returned device joins. */
  lemma MembersExactly(t: Tables, o: Observation, now: nat, owner: Option<ControllerId>)
    requires Inv(t) && IsEndpointOwner(t, KeyOf(o), owner)
    ensures owner.Some? ==> owner.value in t.identities
    ensures var r := Register(t, o, now, owner);
      && r.tables.members.Keys == t.members.Keys + {r.device} && r.tables.members[r.device] == r.controller
      && (forall d :: d in t.members ==> r.tables.members[d] == Heir(t, o, owner, t.members[d]))
  {
    hide *;
    OwnerIsKnown(t, o, owner);
    AttributeMembers(t, o, owner);
    RegisterMembers(t, o, now, owner);
    DeviceHolder(t, o, now, owner);
  }

  lemma RegisterMembers(t: Tables, o: Observation, now: nat, owner: Option<ControllerId>)
    requires owner.Some? ==> owner.value in t.identities
    ensures var r := Register(t, o, now, owner);
      r.tables.members == Attribute(t, o, owner).tables.members[r.device := r.controller]
  {
    hide Attribute, UpsertConnection;
  }

  lemma DeviceHolder(t: Tables, o: Observation, now: nat, owner: Option<ControllerId>)
    requires Inv(t) && IsEndpointOwner(t, KeyOf(o), owner) && (owner.Some? ==> owner.value in t.identities)
    ensures var r := Register(t, o, now, owner);
      r.device in t.members ==> Heir(t, o, owner, t.members[r.device]) == r.controller
  {
    AttributionExactly(t, o, now, owner);
    hide Register, Strip, IdOf, KeyOf, IsEndpointOwner, Serials, Rows, KeysOwned, Conflicts;
    if !Newcomer(t, o, owner) {
      assert t.Member(Former(t, o, owner), t.identities[Former(t, o, owner)].canonical);
    }
  }

  lemma AttributeMembers(t: Tables, o: Observation, owner: Option<ControllerId>)
    requires owner.Some? ==> owner.value in t.identities
    ensures var m := Attribute(t, o, owner).tables.members;
      m.Keys == t.members.Keys && forall d :: d in m ==> m[d] == Heir(t, o, owner, t.members[d])
  {
    hide MoveConnections, NewDeviceOf, ConflictDeviceOf, IdOf, Strip;
  }

  /** Whose connections a controller holds afterwards. */
  function Ancestor(t: Tables, o: Observation, owner: Option<ControllerId>, c: ControllerId): ControllerId
    requires owner.Some? ==> owner.value in t.identities
  {
    if IdOf(o) !in t.identities && owner.Some? && Gains(t, o, owner.value) && c == IdOf(o) then owner.value else c
  }

  lemma AttributeConnections(t: Tables, o: Observation, owner: Option<ControllerId>)
    requires owner.Some? ==> owner.value in t.identities
    ensures Attribute(t, o, owner).tables.connections
            == if Promoted(t, o, owner) then MoveConnections(t.connections, owner.value, IdOf(o)) else t.connections
  {
    hide MoveMembers, NewDeviceOf, ConflictDeviceOf, IdOf, Strip, MoveConnections;
  }

  lemma RegisterConnections(t: Tables, o: Observation, now: nat, owner: Option<ControllerId>)
    requires owner.Some? ==> owner.value in t.identities
    ensures var a, r := Attribute(t, o, owner), Register(t, o, now, owner);
      && r.controller == a.controller
      && r.tables.connections == UpsertConnection(a.tables.connections, r.controller, KeyOf(o), now, true)
  {
    hide Attribute, UpsertConnection;
  }

  type Links = map<ControllerId, map<Key, Connection>>

  predicate Linked(m: Links, c: ControllerId, k: Key) {
    c in m && k in m[c]
  }

  lemma MovedLinks(m: Links, old_: ControllerId, new_: ControllerId)
    requires new_ !in m
    ensures var m' := MoveConnections(m, old_, new_);
      && (forall c, k :: Linked(m, c, k) ==>
            Linked(m', if c == old_ then new_ else c, k) && m'[if c == old_ then new_ else c][k] == m[c][k])
      && (forall c, k :: Linked(m', c, k) ==> Linked(m, if c == new_ then old_ else c, k) && m[if c == new_ then old_ else c][k] == m'[c][k])
  {
  }

  lemma UpsertedLinks(m: Links, c: ControllerId, k: Key, now: nat)
    ensures var m' := UpsertConnection(m, c, k, now, true);
      && Linked(m', c, k) && m'[c][k] == Connection(if Linked(m, c, k) then Max(m[c][k].lastSeen, now) else now, true)
      && (forall c', k' :: Linked(m, c', k') ==> Linked(m', c', k') && ((c', k') != (c, k) ==> m'[c'][k'] == m[c'][k']))
      && (forall c', k' :: Linked(m', c', k') && (c', k') != (c, k) ==> Linked(m, c', k'))
  {
  }

  /** What the update of the connections does, with the owner's connections handed to the new id first. */
  lemma RegisteredLinks(t: Tables, o: Observation, now: nat, owner: Option<ControllerId>) returns (m: Links)
    requires Owned(t) && (owner.Some? ==> owner.value in t.identities)
    ensures var r := Register(t, o, now, owner); r.tables.connections == UpsertConnection(m, r.controller, KeyOf(o), now, true)
    ensures forall c, k :: Linked(t.connections, c, k) ==>
      Linked(m, Heir(t, o, owner, c), k) && m[Heir(t, o, owner, c)][k] == t.connections[c][k]
    ensures forall c, k :: Linked(m, c, k) ==>
      Linked(t.connections, Ancestor(t, o, owner, c), k) && t.connections[Ancestor(t, o, owner, c)][k] == m[c][k]
  {
    RegisterConnections(t, o, now, owner);
    AttributeConnections(t, o, owner);
    m := Attribute(t, o, owner).tables.connections;
    if Promoted(t, o, owner) {
      PromotedLinks(t, o, owner);
    } else {
      assert forall c :: Heir(t, o, owner, c) == c && Ancestor(t, o, owner, c) == c;
      hide *;
    }
  }

  lemma PromotedLinks(t: Tables, o: Observation, owner: Option<ControllerId>)
    requires Owned(t) && (owner.Some? ==> owner.value in t.identities) && Promoted(t, o, owner)
    ensures var m := MoveConnections(t.connections, owner.value, IdOf(o));
      && (forall c, k :: Linked(t.connections, c, k) ==>
            Linked(m, Heir(t, o, owner, c), k) && m[Heir(t, o, owner, c)][k] == t.connections[c][k])
      && (forall c, k :: Linked(m, c, k) ==>
            Linked(t.connections, Ancestor(t, o, owner, c), k) && t.connections[Ancestor(t, o, owner, c)][k] == m[c][k])
  {
    hide IdOf, Strip, KeyOf, MoveConnections, Linked;
    assert forall c :: Heir(t, o, owner, c) == if c == owner.value then IdOf(o) else c;
    assert forall c :: Ancestor(t, o, owner, c) == if c == IdOf(o) then owner.value else c;
    assert IdOf(o) !in t.connections;
    hide *;
    MovedLinks(t.connections, owner.value, IdOf(o));
  }

  lemma RegisteredIsIdentity(t: Tables, o: Observation, now: nat, owner: Option<ControllerId>)
    requires Inv(t) && IsEndpointOwner(t, KeyOf(o), owner) && (owner.Some? ==> owner.value in t.identities)
    ensures Owned(t) && Register(t, o, now, owner).controller in Register(t, o, now, owner).tables.identities
  {
    RegisterKeepsInv(t, o, now, owner);
    hide Register, Evolves, IsEndpointOwner, KeyOf, Serials, Rows, KeysOwned, Conflicts;
  }

  lemma HeirOfAncestor(t: Tables, o: Observation, now: nat, owner: Option<ControllerId>)
    requires Inv(t) && IsEndpointOwner(t, KeyOf(o), owner) && (owner.Some? ==> owner.value in t.identities)
    ensures var c := Register(t, o, now, owner).controller; Heir(t, o, owner, Ancestor(t, o, owner, c)) == c
  {
    AttributionExactly(t, o, now, owner);
    hide Register, Inv, IsEndpointOwner, IdOf, KeyOf, Strip;
  }

  /** The observed connection is active, as recent as it was or as the observation; every other one is as before. */
  lemma ConnectionsExactly(t: Tables, o: Observation, now: nat, owner: Option<ControllerId>)
    requires Inv(t) && IsEndpointOwner(t, KeyOf(o), owner)
    ensures owner.Some? ==> owner.value in t.identities
    ensures var r := Register(t, o, now, owner); var m := r.tables.connections;
      && Linked(m, r.controller, KeyOf(o))
      && m[r.controller][KeyOf(o)] == Connection(LatestSight(t, o, owner, r.controller, now), true)
      && (forall c, k :: Linked(t.connections, c, k) ==>
            Linked(m, Heir(t, o, owner, c), k)
            && ((Heir(t, o, owner, c), k) != (r.controller, KeyOf(o)) ==> m[Heir(t, o, owner, c)][k] == t.connections[c][k]))
  {
    OwnerIsKnown(t, o, owner);
    RegisteredIsIdentity(t, o, now, owner);
    HeirOfAncestor(t, o, now, owner);
    hide Register, Attribute, Inv, Owned, IsEndpointOwner, IdOf, KeyOf, Ancestor, Heir, UpsertConnection;
    var m := RegisteredLinks(t, o, now, owner);
    UpsertedLinks(m, Register(t, o, now, owner).controller, KeyOf(o), now);
  }

  /** The later of the observation and the controller's last sight at its endpoint, if it had one there. */
  function LatestSight(t: Tables, o: Observation, owner: Option<ControllerId>, c: ControllerId, now: nat): nat
    requires owner.Some? ==> owner.value in t.identities
  {
    var before := Ancestor(t, o, owner, c);
    if Linked(t.connections, before, KeyOf(o)) then Max(t.connections[before][KeyOf(o)].lastSeen, now) else now
  }

  lemma LatestLink(m: Links, c: ControllerId, k: Key, now: nat)
    requires forall b :: Linked(m, b, k) ==> m[b][k].lastSeen <= now
    ensures var m' := UpsertConnection(m, c, k, now, true);
      Linked(m', c, k) && forall b :: Linked(m', b, k) ==> m'[b][k].lastSeen <= m'[c][k].lastSeen
  {
    UpsertedLinks(m, c, k, now);
  }

  /** An observation not older than any at its endpoint makes its controller the endpoint's owner. */
  lemma AttributedOwnsEndpoint(t: Tables, o: Observation, now: nat, owner: Option<ControllerId>)
    requires Inv(t) && IsEndpointOwner(t, KeyOf(o), owner)
    requires forall c :: Linked(t.connections, c, KeyOf(o)) ==> t.connections[c][KeyOf(o)].lastSeen <= now
    ensures owner.Some? ==> owner.value in t.identities
    ensures var r := Register(t, o, now, owner); IsEndpointOwner(r.tables, KeyOf(o), Some(r.controller))
  {
    hide *;
    OwnerIsKnown(t, o, owner);
    RegisteredIsIdentity(t, o, now, owner);
    var r := Register(t, o, now, owner);
    var m := RegisteredLinks(t, o, now, owner);
    assert forall c :: Linked(m, c, KeyOf(o)) ==> Linked(t.connections, Ancestor(t, o, owner, c), KeyOf(o));
    LatestLink(m, r.controller, KeyOf(o), now);
    LatestOwns(r.tables, KeyOf(o), r.controller);
  }

  lemma LatestOwns(t: Tables, k: Key, c: ControllerId)
    requires c in t.identities && Linked(t.connections, c, k)
    requires forall b :: Linked(t.connections, b, k) ==> t.connections[b][k].lastSeen <= t.connections[c][k].lastSeen
    ensures IsEndpointOwner(t, k, Some(c))
  {
  }

  // ----- What the returned id says of the observation -----

  /**
   * An observation with a serial is attributed to a controller of that serial, and to the one of its
   * own profile unless the endpoint's owner has the very serial under another profile. One without
   * goes to the id it names if that is known, else to the endpoint's owner, else to a new controller.
   */
  lemma MeantExactly(t: Tables, o: Observation, owner: Option<ControllerId>)
    requires Inv(t) && IsEndpointOwner(t, KeyOf(o), owner)
    ensures owner.Some? ==> owner.value in t.identities
    ensures Strip(o.serial) != "" ==>
      && Meant(t, o, owner).SerialId? && Meant(t, o, owner).serial == Fold(o.serial)
      && (Meant(t, o, owner) == SerialId(Fold(o.profile), Fold(o.serial)) <==>
            IdOf(o) in t.identities || owner.None? || Strip(o.serial) != Strip(t.identities[owner.value].serial))
    ensures Strip(o.serial) == "" ==>
      Meant(t, o, owner) == if IdOf(o) in t.identities || owner.None? then IdOf(o) else owner.value
  {
    OwnerIsKnown(t, o, owner);
    if owner.Some? {
      assert SerialMatches(owner.value, t.identities[owner.value]);
      FoldStrip(t.identities[owner.value].serial);
    }
    FoldStrip(o.serial);
    hide Inv, Strip, Lower, KeyOf, IsEndpointOwner;
  }

  const ENDPOINT := Endpoint(Tcp, "h", "1", "502", "", None)
  const AS_P := Observation(ENDPOINT, "p", "1")
  const AS_Q := Observation(ENDPOINT, "q", "1")

  const EMPTY := Tables(map[], map[], map[], map[])

  lemma ProfileIds()
    ensures IdOf(AS_P) == SerialId("p", "1") && IdOf(AS_Q) == SerialId("q", "1") && KeyOf(AS_P) == KeyOf(AS_Q)
    ensures Strip("1") == "1"
  {
    assert Strip("p") == "p" && Strip("q") == "q" && Strip("1") == "1";
    assert Lower("p") == "p" && Lower("q") == "q" && Lower("1") == "1";
  }

  lemma EmptyTables()
    ensures Inv(EMPTY) && IsEndpointOwner(EMPTY, KeyOf(AS_P), None) && Newcomer(EMPTY, AS_P, None)
  {
  }

  lemma FirstAsP() returns (t: Tables)
    ensures t == Register(EMPTY, AS_P, 0, None).tables && Register(EMPTY, AS_P, 0, None).controller == SerialId("p", "1")
    ensures Inv(t) && t.identities.Keys == {SerialId("p", "1")} && t.identities[SerialId("p", "1")].serial == "1"
    ensures IsEndpointOwner(t, KeyOf(AS_Q), Some(SerialId("p", "1")))
  {
    ProfileIds();
    EmptyTables();
    hide Register, Inv, IsEndpointOwner, KeyOf, IdOf, Strip;
    t := Register(EMPTY, AS_P, 0, None).tables;
    AttributionExactly(EMPTY, AS_P, 0, None);
    IdentityRowsExactly(EMPTY, AS_P, 0, None);
    RegisterKeepsInv(EMPTY, AS_P, 0, None);
    AttributedOwnsEndpoint(EMPTY, AS_P, 0, None);
  }

  /** A controller that is read as "p" and then, with the same serial, as "q" stays the controller of "p". */
  lemma OtherProfileKeepsOwner()
    ensures
      var first := Register(EMPTY, AS_P, 0, None);
      && first.controller == SerialId("p", "1") && IdOf(AS_Q) == SerialId("q", "1")
      && IsEndpointOwner(first.tables, KeyOf(AS_Q), Some(SerialId("p", "1")))
      && SerialId("p", "1") in first.tables.identities
      && Register(first.tables, AS_Q, 1, Some(SerialId("p", "1"))).controller == SerialId("p", "1")
  {
    ProfileIds();
    var t := FirstAsP();
    hide Register, Inv, IsEndpointOwner, KeyOf, IdOf, Strip;
    AttributionExactly(t, AS_Q, 1, Some(SerialId("p", "1")));
  }
}
