/**
 * The evidence-derived identity tables of controllers/inventory.py: device rows, controller
 * identities, device members and endpoint connections, with the registration of one discovery
 * observation as a function from tables to tables.
 */
module Inventory {
  import opened Options
  import opened Text

  type Key = string

  datatype Transport = Serial | Tcp

  /** `usbSerial` is empty, and `port` empty or "0", where the source has a falsy value. */
  datatype Endpoint = Endpoint(
    transport: Transport, target: string, unit: string, port: string,
    usbSerial: string, usbIds: Option<(string, string)>)

  function Locator(e: Endpoint): string {
    if e.transport == Tcp then e.target + ":" + (if e.port == "" || e.port == "0" then "502" else e.port)
    else e.target
  }

  function StableKey(e: Endpoint): Key {
    if e.transport == Serial && e.usbSerial != "" then
      "serial:usb:" + e.usbSerial + ":unit:" + e.unit
    else if e.transport == Serial && e.usbIds.Some? then
      "serial:vidpid:" + e.usbIds.value.0 + ":" + e.usbIds.value.1 + ":" + e.target + ":unit:" + e.unit
    else
      (if e.transport == Tcp then "tcp:" else "serial:") + Locator(e) + ":unit:" + e.unit
  }

  /** An adapter keeps its key on whatever port it is plugged in; a TCP port that is not given is port 502. */
  lemma KeysSurviveMoves(e: Endpoint, f: Endpoint)
    requires e.transport == f.transport && e.unit == f.unit
    ensures e.transport == Serial && e.usbSerial == f.usbSerial != "" ==> StableKey(e) == StableKey(f)
    ensures e.transport == Tcp && e.target == f.target && e.port in {"", "0"} && f.port == "502" ==> StableKey(e) == StableKey(f)
  {
  }

  /** Units behind one TCP address or one adapter have different keys, and no serial key is a TCP key. */
  lemma KeysDiffer(e: Endpoint, f: Endpoint)
    ensures e.transport != f.transport ==> StableKey(e) != StableKey(f)
    ensures e.transport == f.transport == Tcp && Locator(e) == Locator(f) && e.unit != f.unit ==> StableKey(e) != StableKey(f)
    ensures e.transport == f.transport == Serial && e.usbSerial == f.usbSerial != "" && e.unit != f.unit ==>
      StableKey(e) != StableKey(f)
    ensures SameMake(e, f) && e.unit == f.unit && e.target != f.target ==> StableKey(e) != StableKey(f)
  {
    PortsDiffer(e, f);
    if e.transport != f.transport {
      assert "tcp:"[0] != "serial:"[0];
      TransportFirst(e);
      TransportFirst(f);
    } else {
      var head := if e.transport == Tcp then "tcp:" + Locator(e) + ":unit:" else "serial:usb:" + e.usbSerial + ":unit:";
      if StableKey(e) == head + e.unit && StableKey(f) == head + f.unit && StableKey(e) == StableKey(f) {
        assert (head + e.unit)[|head|..] == e.unit && (head + f.unit)[|head|..] == f.unit;
      }
    }
  }

  predicate SameMake(e: Endpoint, f: Endpoint) {
    e.transport == f.transport == Serial && e.usbSerial == f.usbSerial == "" && e.usbIds == f.usbIds
  }

  /** Adapters of one make without a serial are told apart by their ports. */
  lemma PortsDiffer(e: Endpoint, f: Endpoint)
    ensures SameMake(e, f) && e.unit == f.unit && e.target != f.target ==> StableKey(e) != StableKey(f)
  {
    var tail := ":unit:" + e.unit;
    var head :=
      if e.usbIds.Some? then "serial:vidpid:" + e.usbIds.value.0 + ":" + e.usbIds.value.1 + ":" else "serial:";
    if e.unit == f.unit && StableKey(e) == head + e.target + tail && StableKey(f) == head + f.target + tail {
      if StableKey(e) == StableKey(f) {
        Between(head, e.target, f.target, tail);
      }
    }
  }

  lemma Between(head: string, a: string, b: string, tail: string)
    requires head + a + tail == head + b + tail
    ensures a == b
  {
    var s := head + a + tail;
    assert |a| == |b|;
    assert s[|head|..|head| + |a|] == a && s[|head|..|head| + |b|] == b;
  }

  lemma TransportFirst(e: Endpoint)
    ensures StableKey(e) != "" && StableKey(e)[0] == if e.transport == Tcp then 't' else 's'
  {
  }

  datatype ControllerId =
    | SerialId(profile: string, serial: string)
    | UsbId(usbSerial: string, unit: string)
    | EndpointId(key: Key)

  datatype DeviceId =
    | EndpointDevice(key: Key)
    | ConflictDevice(profile: string, serial: string, key: Key)
    | LegacyDevice(name: string)

  /** A device row's unique `stable_key`: its endpoint's key, or its own id when that was taken. */
  datatype RowKey = ByEndpoint(key: Key) | ByDevice(id: DeviceId)

  datatype Identity = Identity(canonical: DeviceId, serial: string)

  datatype Connection = Connection(lastSeen: nat, active: bool)

  datatype Observation = Observation(endpoint: Endpoint, profile: string, serial: string)

  function Fold(s: string): string {
    Lower(Strip(s))
  }

  function IdentityOf(e: Endpoint, profile: string, serial: string): ControllerId {
    if Strip(serial) != "" then SerialId(Fold(profile), Fold(serial))
    else if Strip(e.usbSerial) != "" then UsbId(Fold(e.usbSerial), e.unit)
    else EndpointId(StableKey(e))
  }

  function IdOf(o: Observation): ControllerId {
    IdentityOf(o.endpoint, o.profile, o.serial)
  }

  function KeyOf(o: Observation): Key {
    StableKey(o.endpoint)
  }

  function ConflictDeviceOf(o: Observation): DeviceId {
    ConflictDevice(o.profile, o.serial, KeyOf(o))
  }

  datatype Tables = Tables(
    devices: map<DeviceId, RowKey>,
    identities: map<ControllerId, Identity>,
    members: map<DeviceId, ControllerId>,
    connections: map<ControllerId, map<Key, Connection>>)
  {
    predicate Connected(c: ControllerId, k: Key) {
      c in connections && k in connections[c]
    }

    predicate Member(c: ControllerId, d: DeviceId) {
      d in members && members[d] == c
    }
  }

  // ----- The query for an endpoint's owner, and the five-way match -----

  ghost predicate IsEndpointOwner(t: Tables, k: Key, owner: Option<ControllerId>) {
    match owner
    case None => forall c :: c in t.identities ==> !t.Connected(c, k)
    case Some(o) =>
      && o in t.identities && t.Connected(o, k)
      && forall c :: c in t.identities && t.Connected(c, k) ==>
           t.connections[c][k].lastSeen <= t.connections[o][k].lastSeen
  }

  datatype Match = KnownIdentity | SerialConflict | Promotion | KnownOwner | NewController

  function MatchOf(t: Tables, o: Observation, owner: Option<ControllerId>): Match
    requires owner.Some? ==> owner.value in t.identities
  {
    if IdOf(o) in t.identities then KnownIdentity
    else if owner.None? then NewController
    else
      var serial, ownerSerial := Strip(o.serial), Strip(t.identities[owner.value].serial);
      if serial != "" && ownerSerial != "" && serial != ownerSerial then SerialConflict
      else if serial != "" && ownerSerial == "" then Promotion
      else KnownOwner
  }

  // ----- Table updates -----

  ghost predicate KeyTaken(t: Tables, k: RowKey) {
    exists d :: d in t.devices && t.devices[d] == k
  }

  ghost function RowHolding(t: Tables, k: RowKey): DeviceId
    requires KeyTaken(t, k)
  {
    var d :| d in t.devices && t.devices[d] == k; d
  }

  /** INSERT OR IGNORE: an occupied endpoint key makes the row fall back to its own id as key. */
  ghost function InsertDevice(t: Tables, d: DeviceId, k: Key): Tables {
    if d in t.devices then t
    else t.(devices := t.devices[d := if KeyTaken(t, ByEndpoint(k)) then ByDevice(d) else ByEndpoint(k)])
  }

  ghost function InsertIdentity(t: Tables, c: ControllerId, d: DeviceId, o: Observation): Tables {
    var t' := InsertDevice(t, d, KeyOf(o));
    t'.(identities := t'.identities[c := Identity(d, o.serial)])
  }

  function MoveMembers(m: map<DeviceId, ControllerId>, old_: ControllerId, new_: ControllerId)
    : map<DeviceId, ControllerId>
  {
    map d | d in m :: if m[d] == old_ then new_ else m[d]
  }

  function MoveConnections(m: map<ControllerId, map<Key, Connection>>, old_: ControllerId, new_: ControllerId)
    : map<ControllerId, map<Key, Connection>>
  {
    if old_ in m then (m - {old_})[new_ := m[old_]] else m
  }

  function Promote(t: Tables, old_: ControllerId, new_: ControllerId, serial: string): Tables
    requires old_ in t.identities
  {
    t.(identities := (t.identities - {old_})[new_ := Identity(t.identities[old_].canonical, serial)],
       members := MoveMembers(t.members, old_, new_),
       connections := MoveConnections(t.connections, old_, new_))
  }

  function Max(a: nat, b: nat): nat {
    if a < b then b else a
  }

  function UpsertConnection(m: map<ControllerId, map<Key, Connection>>, c: ControllerId, k: Key, now: nat, active: bool)
    : map<ControllerId, map<Key, Connection>>
  {
    var row := if c in m then m[c] else map[];
    var seen := if k in row then Max(row[k].lastSeen, now) else now;
    m[c := row[k := Connection(seen, active)]]
  }

  function Touch(t: Tables, c: ControllerId, d: DeviceId, o: Observation, now: nat): Tables
    requires c in t.identities
  {
    var serial := Strip(o.serial);
    t.(members := t.members[d := c],
       connections := UpsertConnection(t.connections, c, KeyOf(o), now, true),
       identities := if serial != "" then t.identities[c := t.identities[c].(serial := serial)] else t.identities)
  }

  datatype Registered = Registered(tables: Tables, controller: ControllerId, device: DeviceId)

  ghost function NewDeviceOf(t: Tables, o: Observation): DeviceId {
    if KeyTaken(t, ByEndpoint(KeyOf(o))) then RowHolding(t, ByEndpoint(KeyOf(o))) else EndpointDevice(KeyOf(o))
  }

  /** Which identity and device an observation is attributed to, before the common updates. */
  ghost function Attribute(t: Tables, o: Observation, owner: Option<ControllerId>): (r: Registered)
    requires owner.Some? ==> owner.value in t.identities
    ensures r.controller in r.tables.identities
  {
    var id := IdOf(o);
    match MatchOf(t, o, owner)
    case KnownIdentity => Registered(t, id, t.identities[id].canonical)
    case SerialConflict =>
      var d := ConflictDeviceOf(o);
      Registered(InsertIdentity(t, id, d, o), id, d)
    case Promotion =>
      Registered(Promote(t, owner.value, id, o.serial), id, t.identities[owner.value].canonical)
    case KnownOwner => Registered(t, owner.value, t.identities[owner.value].canonical)
    case NewController =>
      var d := NewDeviceOf(t, o);
      Registered(InsertIdentity(t, id, d, o), id, d)
  }

  ghost function Register(t: Tables, o: Observation, now: nat, owner: Option<ControllerId>): (r: Registered)
    requires owner.Some? ==> owner.value in t.identities
  {
    var a := Attribute(t, o, owner);
    a.(tables := Touch(a.tables, a.controller, a.device, o, now))
  }

  // ----- Presence -----

  function SetActive(t: Tables, observed: set<(ControllerId, Key)>): Tables {
    t.(connections :=
      map c | c in t.connections ::
        map k | k in t.connections[c] :: t.connections[c][k].(active := (c, k) in observed))
  }

  function Succeed(t: Tables, c: ControllerId, k: Key, now: nat): Tables {
    if t.Connected(c, k) then
      t.(connections := t.connections[c := t.connections[c][k := Connection(now, true)]])
    else t
  }

  // ----- The legacy bootstrap -----

  datatype LegacyRow = LegacyRow(endpoint: Endpoint, profile: string, serial: string, lastSeen: nat, live: bool)

  function LegacyId(r: LegacyRow): ControllerId {
    IdentityOf(r.endpoint, r.profile, r.serial)
  }

  /** `newest` names, for every identity found in the rows, one of its rows seen last. */
  ghost predicate IsNewest(rows: map<DeviceId, LegacyRow>, newest: map<ControllerId, DeviceId>) {
    && (forall d :: d in rows ==> LegacyId(rows[d]) in newest)
    && (forall c :: c in newest ==> newest[c] in rows && LegacyId(rows[newest[c]]) == c)
    && (forall d :: d in rows ==> rows[d].lastSeen <= rows[newest[LegacyId(rows[d])]].lastSeen)
  }

  /** The devices table of a database older than the identity tables. */
  ghost predicate LegacyDevices(rows: map<DeviceId, LegacyRow>) {
    && (forall d :: d in rows ==> !d.ConflictDevice?)
    && (forall d :: d in rows && d.EndpointDevice? ==> d.key == StableKey(rows[d].endpoint))
    && (forall d, e :: d in rows && e in rows && StableKey(rows[d].endpoint) == StableKey(rows[e].endpoint) ==> d == e)
  }

  function LegacyDeviceKeys(rows: map<DeviceId, LegacyRow>): map<DeviceId, RowKey> {
    map d | d in rows :: ByEndpoint(StableKey(rows[d].endpoint))
  }

  ghost function Bootstrap(rows: map<DeviceId, LegacyRow>, newest: map<ControllerId, DeviceId>): Tables
    requires LegacyDevices(rows) && IsNewest(rows, newest)
  {
    Tables(
      LegacyDeviceKeys(rows),
      map c | c in newest :: Identity(newest[c], rows[newest[c]].serial),
      map d | d in rows :: LegacyId(rows[d]),
      map c | c in newest :: LegacyConnections(rows, newest[c], c))
  }

  function LegacyConnections(rows: map<DeviceId, LegacyRow>, current: DeviceId, c: ControllerId): map<Key, Connection>
    requires LegacyDevices(rows)
  {
    map d | d in rows && LegacyId(rows[d]) == c ::
      StableKey(rows[d].endpoint) := Connection(rows[d].lastSeen, d == current && rows[d].live)
  }
}
