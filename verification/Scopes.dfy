/**
 * The immutable controller UIDs of controllers/scope.py: the sync pass that assigns them to the
 * identities, resolution of UIDs and identity aliases, and what one step of the registry keeps.
 */
module Scopes {
  import opened Options
  import opened Inventory
  import opened InventoryInvariant

  type Uid = nat

  datatype Physical = Physical(canonical: DeviceId, current: ControllerId)

  /** `nextUid` stands for the random generator: UIDs below it may be in use, none above it is. */
  datatype ScopeTables = ScopeTables(physical: map<Uid, Physical>, aliases: map<ControllerId, Uid>, nextUid: Uid)

  // ----- The sync pass -----

  ghost predicate Holds(s: ScopeTables, u: Uid, d: DeviceId) {
    u in s.physical && s.physical[u].canonical == d
  }

  ghost function UidFor(s: ScopeTables, c: ControllerId, d: DeviceId): Uid {
    if c in s.aliases then s.aliases[c]
    else if exists u: Uid :: Holds(s, u, d) then var u: Uid :| Holds(s, u, d); u
    else s.nextUid
  }

  /** One row of the pass; `None` is a violation of the uniqueness of canonical devices. */
  ghost function SyncRow(s: ScopeTables, c: ControllerId, d: DeviceId): Option<ScopeTables> {
    var u := UidFor(s, c, d);
    if exists u': Uid :: u' != u && Holds(s, u', d) then None
    else Some(ScopeTables(s.physical[u := Physical(d, c)], s.aliases[c := u], Max(s.nextUid, u + 1)))
  }

  ghost function SyncRows(s: ScopeTables, rows: seq<(ControllerId, DeviceId)>): Option<ScopeTables> {
    if rows == [] then Some(s)
    else
      var before := SyncRows(s, rows[..|rows| - 1]);
      if before.None? then None
      else SyncRow(before.value, rows[|rows| - 1].0, rows[|rows| - 1].1)
  }

  ghost predicate Selected(t: Tables, rows: seq<(ControllerId, DeviceId)>) {
    forall i :: 0 <= i < |rows| ==> rows[i].0 in t.identities && rows[i].1 == t.identities[rows[i].0].canonical
  }

  ghost predicate Listed(rows: seq<(ControllerId, DeviceId)>, c: ControllerId) {
    exists i :: 0 <= i < |rows| && rows[i].0 == c
  }

  /** The identities, in whatever order the query returned them. */
  ghost predicate Listing(t: Tables, rows: seq<(ControllerId, DeviceId)>) {
    && Selected(t, rows)
    && (forall c :: c in t.identities ==> Listed(rows, c))
  }

  // ----- The joint invariant -----

  ghost predicate Settled(t: Tables, s: ScopeTables, c: ControllerId)
    requires c in t.identities
  {
    && c in s.aliases && s.aliases[c] in s.physical
    && s.physical[s.aliases[c]] == Physical(t.identities[c].canonical, c)
  }

  ghost predicate AliasAgrees(t: Tables, s: ScopeTables, c: ControllerId)
    requires c in t.identities
  {
    c in s.aliases ==> Holds(s, s.aliases[c], t.identities[c].canonical)
  }

  ghost predicate UniqueCanonical(s: ScopeTables) {
    forall u, u' :: u in s.physical && u' in s.physical && s.physical[u].canonical == s.physical[u'].canonical ==> u == u'
  }

  ghost predicate DistinctDevices(t: Tables) {
    forall c, c' :: c in t.identities && c' in t.identities && t.identities[c].canonical == t.identities[c'].canonical ==> c == c'
  }

  lemma InvDistinct(t: Tables)
    requires Inv(t)
    ensures DistinctDevices(t)
  {
  }

  ghost predicate Alive(t: Tables, d: DeviceId) {
    exists c :: c in t.identities && t.identities[c].canonical == d
  }

  /** What the sync pass needs to find. */
  ghost predicate Syncable(t: Tables, s: ScopeTables) {
    && (forall c :: c in t.identities ==> AliasAgrees(t, s, c))
    && (forall c :: c in s.aliases ==> s.aliases[c] in s.physical)
    && (forall c :: c in s.aliases && c.SerialId? ==> c in t.identities)
    && (forall u :: u in s.physical ==> u < s.nextUid && Alive(t, s.physical[u].canonical))
    && UniqueCanonical(s)
  }

  /** What it leaves: identities and UIDs correspond one to one. */
  ghost predicate Synced(t: Tables, s: ScopeTables) {
    && Syncable(t, s)
    && (forall c :: c in t.identities ==> Settled(t, s, c))
    && (forall u :: u in s.physical ==>
          s.physical[u].current in t.identities && s.physical[u].current in s.aliases && s.aliases[s.physical[u].current] == u)
  }

  ghost predicate Grows(s: ScopeTables, s': ScopeTables) {
    && (forall c :: c in s.aliases ==> c in s'.aliases && s'.aliases[c] == s.aliases[c])
    && (forall u :: u in s.physical ==> Holds(s', u, s.physical[u].canonical))
    && s.nextUid <= s'.nextUid
  }

  /** A row never violates uniqueness: only its own UID can already hold the identity's device. */
  lemma SyncRowFits(t: Tables, s: ScopeTables, c: ControllerId)
    requires Syncable(t, s) && c in t.identities
    ensures var d := t.identities[c].canonical; var u := UidFor(s, c, d);
      && (forall u': Uid :: Holds(s, u', d) ==> u' == u)
      && (u in s.physical ==> Holds(s, u, d))
      && (u !in s.physical ==> u == s.nextUid)
  {
  }

  lemma SyncRowShape(t: Tables, s: ScopeTables, c: ControllerId)
    requires Syncable(t, s) && c in t.identities
    ensures var d := t.identities[c].canonical; var u := UidFor(s, c, d);
      && SyncRow(s, c, d) == Some(ScopeTables(s.physical[u := Physical(d, c)], s.aliases[c := u], Max(s.nextUid, u + 1)))
      && Grows(s, SyncRow(s, c, d).value)
      && Settled(t, SyncRow(s, c, d).value, c)
  {
    SyncRowFits(t, s, c);
  }

  lemma SyncRowKeepsOthers(t: Tables, s: ScopeTables, c: ControllerId, c': ControllerId)
    requires DistinctDevices(t) && Syncable(t, s) && c in t.identities && c' in t.identities
    requires SyncRow(s, c, t.identities[c].canonical).Some?
    ensures AliasAgrees(t, SyncRow(s, c, t.identities[c].canonical).value, c')
    ensures Settled(t, s, c') ==> Settled(t, SyncRow(s, c, t.identities[c].canonical).value, c')
  {
  }

  lemma SyncRowUnique(t: Tables, s: ScopeTables, c: ControllerId)
    requires Syncable(t, s) && c in t.identities
    requires SyncRow(s, c, t.identities[c].canonical).Some?
    ensures UniqueCanonical(SyncRow(s, c, t.identities[c].canonical).value)
  {
    SyncRowShape(t, s, c);
    SyncRowFits(t, s, c);
    var s' := SyncRow(s, c, t.identities[c].canonical).value;
    var u := UidFor(s, c, t.identities[c].canonical);
    forall v, v' | v in s'.physical && v' in s'.physical && s'.physical[v].canonical == s'.physical[v'].canonical
      ensures v == v'
    {
      assert v != u ==> v in s.physical && Holds(s, v, s'.physical[v].canonical);
      assert v' != u ==> v' in s.physical && Holds(s, v', s'.physical[v'].canonical);
    }
  }

  lemma SyncRowKeeps(t: Tables, s: ScopeTables, c: ControllerId)
    requires DistinctDevices(t) && Syncable(t, s) && c in t.identities
    ensures var s' := SyncRow(s, c, t.identities[c].canonical);
      && s'.Some? && Syncable(t, s'.value) && Grows(s, s'.value) && Settled(t, s'.value, c)
      && (forall c' :: c' in t.identities && Settled(t, s, c') ==> Settled(t, s'.value, c'))
  {
    SyncRowShape(t, s, c);
    SyncRowFits(t, s, c);
    SyncRowUnique(t, s, c);
    var s' := SyncRow(s, c, t.identities[c].canonical).value;
    forall c' | c' in t.identities
      ensures AliasAgrees(t, s', c')
      ensures Settled(t, s, c') ==> Settled(t, s', c')
    {
      SyncRowKeepsOthers(t, s, c, c');
    }
    forall u | u in s'.physical
      ensures u < s'.nextUid && Alive(t, s'.physical[u].canonical)
    {
      if u in s.physical {
        assert Alive(t, s.physical[u].canonical);
      } else {
        assert Alive(t, t.identities[c].canonical);
      }
    }
  }

  /** The pass succeeds on every listing of the identities, and settles every one of them. */
  lemma {:induction false} SyncPrefix(t: Tables, s: ScopeTables, rows: seq<(ControllerId, DeviceId)>)
    requires DistinctDevices(t) && Syncable(t, s) && Selected(t, rows)
    ensures var s' := SyncRows(s, rows);
      && s'.Some? && Syncable(t, s'.value) && Grows(s, s'.value)
      && (forall i :: 0 <= i < |rows| ==> Settled(t, s'.value, rows[i].0))
  {
    if rows != [] {
      var n := |rows| - 1;
      assert Selected(t, rows[..n]);
      SyncPrefix(t, s, rows[..n]);
      SyncLast(t, SyncRows(s, rows[..n]).value, rows);
      GrowsTransitive(s, SyncRows(s, rows[..n]).value, SyncRows(s, rows).value);
    }
  }

  lemma SyncLast(t: Tables, s: ScopeTables, rows: seq<(ControllerId, DeviceId)>)
    requires DistinctDevices(t) && Syncable(t, s) && Selected(t, rows) && rows != []
    requires var init := rows[..|rows| - 1]; forall i :: 0 <= i < |init| ==> Settled(t, s, init[i].0)
    ensures var s' := SyncRow(s, rows[|rows| - 1].0, rows[|rows| - 1].1);
      && s'.Some? && Syncable(t, s'.value) && Grows(s, s'.value)
      && (forall i :: 0 <= i < |rows| ==> Settled(t, s'.value, rows[i].0))
  {
    SyncRowKeeps(t, s, rows[|rows| - 1].0);
    forall i | 0 <= i < |rows| - 1
      ensures Settled(t, s, rows[i].0)
    {
      assert rows[..|rows| - 1][i] == rows[i];
    }
  }

  lemma GrowsTransitive(a: ScopeTables, b: ScopeTables, c: ScopeTables)
    requires Grows(a, b) && Grows(b, c)
    ensures Grows(a, c)
  {
  }

  /** The uniqueness constraint is never hit, and afterwards every UID has exactly one identity. */
  lemma SyncSucceeds(t: Tables, s: ScopeTables, rows: seq<(ControllerId, DeviceId)>)
    requires Inv(t) && Syncable(t, s) && Listing(t, rows)
    ensures SyncRows(s, rows).Some?
    ensures Synced(t, SyncRows(s, rows).value) && Grows(s, SyncRows(s, rows).value)
  {
    InvDistinct(t);
    SyncPrefix(t, s, rows);
    var s' := SyncRows(s, rows).value;
    AllSettled(t, s', rows);
  }

  lemma AllSettled(t: Tables, s': ScopeTables, rows: seq<(ControllerId, DeviceId)>)
    requires Syncable(t, s') && Listing(t, rows)
    requires forall i :: 0 <= i < |rows| ==> Settled(t, s', rows[i].0)
    ensures Synced(t, s')
  {
  }

  /** A second pass changes nothing, so resolving an identifier is a read. */
  lemma {:induction false} SyncIdempotent(t: Tables, s: ScopeTables, rows: seq<(ControllerId, DeviceId)>)
    requires Synced(t, s) && Selected(t, rows)
    ensures SyncRows(s, rows) == Some(s)
  {
    if rows != [] {
      var n := |rows| - 1;
      SyncIdempotent(t, s, rows[..n]);
      var c := rows[n].0;
      assert Settled(t, s, c);
      assert SyncRow(s, c, rows[n].1).Some?;
      assert s.physical[s.aliases[c] := s.physical[s.aliases[c]]] == s.physical;
      assert s.aliases[c := s.aliases[c]] == s.aliases;
    }
  }

  // ----- Passes over identities that already have an alias -----

  ghost predicate Bounded(s: ScopeTables) {
    && (forall c :: c in s.aliases ==> s.aliases[c] < s.nextUid)
    && (forall u :: u in s.physical ==> u < s.nextUid)
  }

  /** The pass left the UID with the device of a listed identity of that alias. */
  ghost predicate ToldBy(s: ScopeTables, rows: seq<(ControllerId, DeviceId)>, s': ScopeTables, u: Uid) {
    exists i :: 0 <= i < |rows| && rows[i].0 in s.aliases && s.aliases[rows[i].0] == u && Holds(s', u, rows[i].1)
  }

  ghost predicate Aliased(s: ScopeTables, rows: seq<(ControllerId, DeviceId)>) {
    forall i :: 0 <= i < |rows| ==> rows[i].0 in s.aliases
  }

  /** Such a pass adds no alias and no UID, and the last identity listed decides the device of each UID. */
  lemma {:induction false} AliasedPass(s: ScopeTables, rows: seq<(ControllerId, DeviceId)>)
    requires Bounded(s) && Aliased(s, rows) && SyncRows(s, rows).Some?
    ensures var s' := SyncRows(s, rows).value;
      && Bounded(s') && s'.aliases == s.aliases && s'.nextUid == s.nextUid
      && (forall i :: 0 <= i < |rows| ==> ToldBy(s, rows, s', s.aliases[rows[i].0]))
  {
    if rows != [] {
      var n := |rows| - 1;
      AliasedPass(s, rows[..n]);
      AliasedRow(s, SyncRows(s, rows[..n]).value, rows);
    }
  }

  lemma AliasedRow(s: ScopeTables, before: ScopeTables, rows: seq<(ControllerId, DeviceId)>)
    requires rows != [] && Aliased(s, rows) && Bounded(before)
    requires before.aliases == s.aliases && before.nextUid == s.nextUid
    requires SyncRow(before, rows[|rows| - 1].0, rows[|rows| - 1].1).Some?
    requires var init := rows[..|rows| - 1]; forall i :: 0 <= i < |init| ==> ToldBy(s, init, before, s.aliases[init[i].0])
    ensures var s' := SyncRow(before, rows[|rows| - 1].0, rows[|rows| - 1].1).value;
      && Bounded(s') && s'.aliases == s.aliases && s'.nextUid == s.nextUid
      && (forall i :: 0 <= i < |rows| ==> ToldBy(s, rows, s', s.aliases[rows[i].0]))
  {
    var n := |rows| - 1;
    var init := rows[..n];
    var s' := SyncRow(before, rows[n].0, rows[n].1).value;
    var u := s.aliases[rows[n].0];
    assert s'.aliases == s.aliases;
    assert Holds(s', u, rows[n].1);
    assert ToldBy(s, rows, s', u);
    forall i | 0 <= i < n && s.aliases[rows[i].0] != u
      ensures ToldBy(s, rows, s', s.aliases[rows[i].0])
    {
      assert init[i] == rows[i];
      var j :| 0 <= j < |init| && init[j].0 in s.aliases && s.aliases[init[j].0] == s.aliases[rows[i].0]
               && Holds(before, s.aliases[rows[i].0], init[j].1);
      assert rows[j] == init[j] && Holds(s', s.aliases[rows[i].0], rows[j].1);
    }
  }

  ghost predicate SerialAliasesDiffer(s: ScopeTables) {
    forall c, c' :: c in s.aliases && c' in s.aliases && c.SerialId? && c'.SerialId? && s.aliases[c] == s.aliases[c'] ==> c == c'
  }

  /** The identity is listed once, at the end, as the one seen last is. */
  ghost predicate ListedLast(rows: seq<(ControllerId, DeviceId)>, c: ControllerId) {
    rows != [] && rows[|rows| - 1].0 == c && forall i :: 0 <= i < |rows| - 1 ==> rows[i].0 != c
  }

  /** A UID that the other identities were told to hold does not hold the device of the last one. */
  lemma OtherDevice(t: Tables, s: ScopeTables, rows: seq<(ControllerId, DeviceId)>, c: ControllerId, s': ScopeTables, u: Uid)
    requires DistinctDevices(t) && Selected(t, rows) && ListedLast(rows, c) && c in t.identities
    requires ToldBy(s, rows[..|rows| - 1], s', u)
    ensures !Holds(s', u, t.identities[c].canonical)
  {
    var init := rows[..|rows| - 1];
    var j :| 0 <= j < |init| && init[j].0 in s.aliases && s.aliases[init[j].0] == u && Holds(s', u, init[j].1);
    assert rows[j] == init[j] && rows[j].0 != c;
  }

  lemma ListedBefore(rows: seq<(ControllerId, DeviceId)>, c: ControllerId, c': ControllerId) returns (i: nat)
    requires Listed(rows, c') && ListedLast(rows, c) && c' != c
    ensures i < |rows[..|rows| - 1]| && rows[..|rows| - 1][i].0 == c'
  {
    var k :| 0 <= k < |rows| && rows[k].0 == c';
    i := k;
  }

  /** An identity listed last takes no UID that another identity has as its alias. */
  lemma LastTakesNoAlias(t: Tables, s: ScopeTables, rows: seq<(ControllerId, DeviceId)>, c: ControllerId, c': ControllerId)
    requires DistinctDevices(t) && Bounded(s) && Listing(t, rows) && ListedLast(rows, c)
    requires Aliased(s, rows[..|rows| - 1]) && SyncRows(s, rows).Some?
    requires c in t.identities && c !in s.aliases && c' in s.aliases && c' in t.identities
    ensures var before := SyncRows(s, rows[..|rows| - 1]).value;
      before.aliases == s.aliases && UidFor(before, c, t.identities[c].canonical) != s.aliases[c']
  {
    var init := rows[..|rows| - 1];
    AliasedPass(s, init);
    var before := SyncRows(s, init).value;
    var i := ListedBefore(rows, c, c');
    hide SyncRow, SyncRows, DistinctDevices, Listing, ListedLast;
    assert ToldBy(s, init, before, s.aliases[init[i].0]);
    OtherDevice(t, s, rows, c, before, s.aliases[c']);
  }

  /** So a pass whose last identity is the only one that may be new keeps the UIDs of serials apart. */
  lemma LastPassKeepsApart(t: Tables, s: ScopeTables, rows: seq<(ControllerId, DeviceId)>, c: ControllerId)
    requires DistinctDevices(t) && Bounded(s) && Listing(t, rows) && ListedLast(rows, c) && SyncRows(s, rows).Some?
    requires forall x :: x in t.identities ==> x == c || x in s.aliases
    requires forall x :: x in s.aliases && x.SerialId? ==> x in t.identities
    requires SerialAliasesDiffer(s)
    ensures var s' := SyncRows(s, rows).value;
      Bounded(s') && SerialAliasesDiffer(s') && s'.aliases.Keys == s.aliases.Keys + {c}
  {
    hide SyncRow, SerialAliasesDiffer, UidFor, DistinctDevices;
    var n := |rows| - 1;
    var init := rows[..n];
    assert Aliased(s, init);
    AliasedPass(s, init);
    var before := SyncRows(s, init).value;
    if c !in s.aliases {
      forall c' | c' in s.aliases && c'.SerialId?
        ensures s.aliases[c'] != UidFor(before, c, rows[n].1)
      {
        LastTakesNoAlias(t, s, rows, c, c');
      }
    }
    NewAliasApart(s, before, c, rows[n].1);
  }

  lemma NewAliasApart(s: ScopeTables, before: ScopeTables, c: ControllerId, d: DeviceId)
    requires Bounded(before) && before.aliases == s.aliases && SerialAliasesDiffer(s) && SyncRow(before, c, d).Some?
    requires c !in s.aliases ==> forall c' :: c' in s.aliases && c'.SerialId? ==> s.aliases[c'] != UidFor(before, c, d)
    ensures var s' := SyncRow(before, c, d).value;
      Bounded(s') && SerialAliasesDiffer(s') && s'.aliases.Keys == s.aliases.Keys + {c}
  {
  }

  // ----- Worlds -----

  datatype World = World(tables: Tables, scopes: ScopeTables)

  ghost predicate Valid(w: World) {
    Inv(w.tables) && Synced(w.tables, w.scopes)
  }

  function CurrentOf(w: World, u: Uid): ControllerId
    requires u in w.scopes.physical
  {
    w.scopes.physical[u].current
  }

  /** Nothing about a UID is ever taken back between `w` and the later `w'`. */
  ghost predicate Extends(w: World, w': World) {
    && Grows(w.scopes, w'.scopes)
    && (forall u :: u in w.scopes.physical ==> u in w'.scopes.physical && KeepsUid(w, w', u))
  }

  ghost predicate KeepsUid(w: World, w': World, u: Uid)
    requires u in w.scopes.physical && u in w'.scopes.physical
  {
    var c, c' := CurrentOf(w, u), CurrentOf(w', u);
    && (c.SerialId? ==> c' == c)
    && (forall d :: w.tables.Member(c, d) ==> w'.tables.Member(c', d))
    && (forall k :: w.tables.Connected(c, k) ==> w'.tables.Connected(c', k))
  }

  lemma ExtendsReflexive(w: World)
    requires Valid(w)
    ensures Extends(w, w)
  {
  }

  lemma ExtendsTransitive(a: World, b: World, c: World)
    requires Extends(a, b) && Extends(b, c)
    ensures Extends(a, c)
  {
  }

  /** Where identities evolved and the UIDs only grew, every UID follows its identity. */
  lemma EvolvedExtends(w: World, w': World)
    requires Valid(w) && Valid(w') && Evolves(w.tables, w'.tables) && Grows(w.scopes, w'.scopes)
    ensures Extends(w, w')
  {
    forall u | u in w.scopes.physical
      ensures u in w'.scopes.physical && KeepsUid(w, w', u)
    {
      var c := CurrentOf(w, u);
      assert Settled(w.tables, w.scopes, c);
      var c' :| Succeeds(w.tables, w'.tables, c, c');
      assert Holds(w'.scopes, u, w.scopes.physical[u].canonical);
      assert Settled(w'.tables, w'.scopes, c');
    }
  }

  // ----- One registration -----

  /** The observation re-creates, on an endpoint never seen before, an identity retired by promotion. */
  ghost predicate ReusesRetiredAlias(w: World, o: Observation, owner: Option<ControllerId>) {
    IdOf(o) !in w.tables.identities && owner.None? && IdOf(o) in w.scopes.aliases
  }

  /** Identities that evolved, plus at most one fresh id, can be synchronised. */
  lemma EvolvedSyncable(w: World, t': Tables, id: ControllerId)
    requires Synced(w.tables, w.scopes) && Evolves(w.tables, t')
    requires t'.identities.Keys <= w.tables.identities.Keys + {id}
    requires forall c :: c in t'.identities && c in w.tables.identities ==> t'.identities[c].canonical == w.tables.identities[c].canonical
    requires id in w.tables.identities || id !in w.scopes.aliases || id !in t'.identities
    ensures Syncable(t', w.scopes)
  {
    EvolvedAliases(w, t', id);
    forall u | u in w.scopes.physical
      ensures Alive(t', w.scopes.physical[u].canonical)
    {
      UidStaysAlive(w, t', u);
    }
  }

  lemma EvolvedAliases(w: World, t': Tables, id: ControllerId)
    requires Synced(w.tables, w.scopes)
    requires t'.identities.Keys <= w.tables.identities.Keys + {id}
    requires forall c :: c in t'.identities && c in w.tables.identities ==> t'.identities[c].canonical == w.tables.identities[c].canonical
    requires id in w.tables.identities || id !in w.scopes.aliases || id !in t'.identities
    ensures forall c :: c in t'.identities ==> AliasAgrees(t', w.scopes, c)
  {
    forall c | c in t'.identities
      ensures AliasAgrees(t', w.scopes, c)
    {
      if c in w.tables.identities {
        assert Settled(w.tables, w.scopes, c);
      }
    }
  }

  lemma UidStaysAlive(w: World, t': Tables, u: Uid)
    requires Synced(w.tables, w.scopes) && Evolves(w.tables, t') && u in w.scopes.physical
    ensures Alive(t', w.scopes.physical[u].canonical)
  {
  }

  lemma RegisterSyncable(w: World, o: Observation, now: nat, owner: Option<ControllerId>)
    requires Valid(w) && IsEndpointOwner(w.tables, KeyOf(o), owner)
    requires !ReusesRetiredAlias(w, o, owner)
    ensures Syncable(Register(w.tables, o, now, owner).tables, w.scopes)
  {
    var t' := Register(w.tables, o, now, owner).tables;
    RegisterKeepsInv(w.tables, o, now, owner);
    RegisterAdds(w.tables, o, now, owner);
    if IdOf(o) in t'.identities && IdOf(o) !in w.tables.identities {
      AddedIdentity(w.tables, o, now, owner);
    }
    EvolvedSyncable(w, t', IdOf(o));
  }

  /** A registration that does not reuse a retired alias keeps every UID and leaves one identity per UID. */
  lemma RegisterKeepsValid(w: World, o: Observation, now: nat, owner: Option<ControllerId>, rows: seq<(ControllerId, DeviceId)>)
    requires Valid(w) && IsEndpointOwner(w.tables, KeyOf(o), owner)
    requires !ReusesRetiredAlias(w, o, owner)
    requires Listing(Register(w.tables, o, now, owner).tables, rows)
    ensures var s' := SyncRows(w.scopes, rows);
      s'.Some? && Valid(World(Register(w.tables, o, now, owner).tables, s'.value))
      && Extends(w, World(Register(w.tables, o, now, owner).tables, s'.value))
  {
    var t' := Register(w.tables, o, now, owner).tables;
    RegisterKeepsInv(w.tables, o, now, owner);
    RegisterSyncable(w, o, now, owner);
    SyncSucceeds(t', w.scopes, rows);
    EvolvedExtends(w, World(t', SyncRows(w.scopes, rows).value));
  }

  lemma {:induction false} SyncNeverRepoints(s: ScopeTables, rows: seq<(ControllerId, DeviceId)>)
    requires SyncRows(s, rows).Some?
    ensures forall c :: c in s.aliases ==> c in SyncRows(s, rows).value.aliases && SyncRows(s, rows).value.aliases[c] == s.aliases[c]
  {
    if rows != [] {
      SyncNeverRepoints(s, rows[..|rows| - 1]);
    }
  }

  ghost predicate Merged(t': Tables, s': ScopeTables, id: ControllerId, c: ControllerId) {
    && c in t'.identities && id in t'.identities && c != id
    && c in s'.aliases && id in s'.aliases && s'.aliases[c] == s'.aliases[id]
    && t'.identities[c].canonical != t'.identities[id].canonical
  }

  /** A registration that does reuse one leaves two identities with different devices on a single UID. */
  lemma RetiredAliasMergesUids(w: World, o: Observation, now: nat, owner: Option<ControllerId>, rows: seq<(ControllerId, DeviceId)>)
    requires Valid(w) && IsEndpointOwner(w.tables, KeyOf(o), owner)
    requires ReusesRetiredAlias(w, o, owner)
    requires SyncRows(w.scopes, rows).Some?
    ensures exists c :: Merged(Register(w.tables, o, now, owner).tables, SyncRows(w.scopes, rows).value, IdOf(o), c)
  {
    var t' := Register(w.tables, o, now, owner).tables;
    var d := Register(w.tables, o, now, owner).device;
    SyncNeverRepoints(w.scopes, rows);
    NewDeviceUnowned(w.tables, o, now, owner);
    RegisterKeepsInv(w.tables, o, now, owner);
    RegisterAdds(w.tables, o, now, owner);
    MergedBy(w, t', SyncRows(w.scopes, rows).value, IdOf(o), d);
  }

  lemma MergedBy(w: World, t': Tables, s': ScopeTables, id: ControllerId, d: DeviceId)
    requires Owned(w.tables) && Synced(w.tables, w.scopes)
    requires id !in w.tables.identities && id in w.scopes.aliases && d !in w.tables.members
    requires Evolves(w.tables, t') && id in t'.identities && t'.identities[id].canonical == d
    requires forall c :: c in w.scopes.aliases ==> c in s'.aliases && s'.aliases[c] == w.scopes.aliases[c]
    requires w.tables.identities.Keys <= t'.identities.Keys
    requires forall c :: c in t'.identities && c in w.tables.identities ==> t'.identities[c].canonical == w.tables.identities[c].canonical
    ensures exists c :: Merged(t', s', id, c)
  {
    FormerHolder(w, id, d);
    assert Merged(t', s', id, w.scopes.physical[w.scopes.aliases[id]].current);
  }

  /** The identity that holds the retired alias's UID, and its device, which the new one does not share. */
  lemma FormerHolder(w: World, id: ControllerId, d: DeviceId)
    requires Owned(w.tables) && Synced(w.tables, w.scopes) && id !in w.tables.identities && id in w.scopes.aliases && d !in w.tables.members
    ensures var c := w.scopes.physical[w.scopes.aliases[id]].current;
      c in w.tables.identities && c != id && c in w.scopes.aliases && w.scopes.aliases[c] == w.scopes.aliases[id]
      && w.tables.identities[c].canonical != d
  {
  }

  /**
   * When the code meets "one immutable UID per physical controller": exactly when the branch for
   * a new controller is not taken with an id that already has an alias.
   */
  lemma RegistrationMeetsPromise(w: World, o: Observation, now: nat, owner: Option<ControllerId>, rows: seq<(ControllerId, DeviceId)>)
    requires Valid(w) && IsEndpointOwner(w.tables, KeyOf(o), owner)
    requires Listing(Register(w.tables, o, now, owner).tables, rows)
    ensures var s' := SyncRows(w.scopes, rows); var t' := Register(w.tables, o, now, owner).tables;
      !ReusesRetiredAlias(w, o, owner) <==> s'.Some? && Valid(World(t', s'.value)) && Extends(w, World(t', s'.value))
  {
    if ReusesRetiredAlias(w, o, owner) {
      if SyncRows(w.scopes, rows).Some? {
        RetiredAliasMergesUids(w, o, now, owner, rows);
        var t' := Register(w.tables, o, now, owner).tables;
        var s' := SyncRows(w.scopes, rows).value;
        var c :| Merged(t', s', IdOf(o), c);
        assert !(Settled(t', s', c) && Settled(t', s', IdOf(o)));
      }
    } else {
      RegisterKeepsValid(w, o, now, owner, rows);
    }
  }

  lemma SettledUid(w: World, c: ControllerId)
    requires Synced(w.tables, w.scopes) && c in w.tables.identities
    ensures c in w.scopes.aliases && w.scopes.aliases[c] in w.scopes.physical
    ensures w.scopes.physical[w.scopes.aliases[c]] == Physical(w.tables.identities[c].canonical, c)
  {
  }

  /** A controller with the device of an earlier one has that one's UID. */
  lemma SameDeviceSameUid(w: World, w': World, c: ControllerId, c': ControllerId)
    requires Valid(w) && Valid(w') && Extends(w, w') && c in w.tables.identities && c' in w'.tables.identities
    requires w'.tables.identities[c'].canonical == w.tables.identities[c].canonical
    ensures c in w.scopes.aliases && c' in w'.scopes.aliases && w'.scopes.aliases[c'] == w.scopes.aliases[c]
  {
    assert Settled(w.tables, w.scopes, c) && Settled(w'.tables, w'.scopes, c');
    assert Holds(w'.scopes, w.scopes.aliases[c], w.tables.identities[c].canonical);
  }

  /** A controller with a device that nobody owned has a UID that nobody had. */
  lemma FreshDeviceFreshUid(w: World, w': World, c': ControllerId)
    requires Valid(w) && Valid(w') && Extends(w, w') && c' in w'.tables.identities
    requires w'.tables.identities[c'].canonical !in w.tables.members
    ensures c' in w'.scopes.aliases && w'.scopes.aliases[c'] !in w.scopes.physical
  {
    SettledUid(w', c');
    if w'.scopes.aliases[c'] in w.scopes.physical {
      CanonicalIsOwned(w, w'.scopes.aliases[c']);
      KeptDevice(w, w', w'.scopes.aliases[c']);
    }
    hide Valid, Extends;
  }

  lemma KeptDevice(w: World, w': World, u: Uid)
    requires Extends(w, w') && u in w.scopes.physical
    ensures Holds(w'.scopes, u, w.scopes.physical[u].canonical)
  {
  }

  lemma CanonicalIsOwned(w: World, u: Uid)
    requires Valid(w) && u in w.scopes.physical
    ensures w.scopes.physical[u].canonical in w.tables.members
  {
    assert Settled(w.tables, w.scopes, CurrentOf(w, u));
  }

  // ----- Resolution -----

  datatype Identifier = ByUid(uid: Uid) | ById(id: ControllerId)

  datatype Scope = Scope(uid: Uid, controller: ControllerId, canonical: DeviceId, history: set<DeviceId>)

  function UidOf(s: ScopeTables, i: Identifier): Option<Uid> {
    match i
    case ByUid(u) => if u in s.physical then Some(u) else None
    case ById(c) => if c in s.aliases && s.aliases[c] in s.physical then Some(s.aliases[c]) else None
  }

  function History(w: World, u: Uid): set<DeviceId>
    requires u in w.scopes.physical
  {
    (set d | d in w.tables.members && w.tables.members[d] == CurrentOf(w, u)) + {w.scopes.physical[u].canonical}
  }

  function Resolve(w: World, i: Identifier): Option<Scope> {
    match UidOf(w.scopes, i)
    case None => None
    case Some(u) => Some(Scope(u, CurrentOf(w, u), w.scopes.physical[u].canonical, History(w, u)))
  }

  /**
   * What resolves and to what: exactly the UIDs in use and the ids with an alias, each to its own
   * UID, that UID's current identity, and all devices that are members of it.
   */
  lemma ResolvesExactly(w: World, i: Identifier)
    requires Valid(w)
    ensures Resolve(w, i).Some? <==> match i case ByUid(u) => u in w.scopes.physical case ById(c) => c in w.scopes.aliases
    ensures Resolve(w, i).Some? ==>
      var s := Resolve(w, i).value;
      && (i.ByUid? ==> s.uid == i.uid) && (i.ById? ==> s.uid == w.scopes.aliases[i.id])
      && s.controller in w.tables.identities && w.scopes.aliases[s.controller] == s.uid
      && s.canonical == w.tables.identities[s.controller].canonical
      && forall d :: d in s.history <==> w.tables.Member(s.controller, d)
  {
    if Resolve(w, i).Some? {
      var u := Resolve(w, i).value.uid;
      assert Settled(w.tables, w.scopes, CurrentOf(w, u));
      HistoryIsOwned(w, u);
    }
  }

  /** Every identity resolves under its id, as the current identity of its UID. */
  lemma IdentityResolves(w: World, c: ControllerId)
    requires Valid(w) && c in w.tables.identities
    ensures Resolve(w, ById(c)).Some? && Resolve(w, ById(c)).value.controller == c
    ensures Resolve(w, ByUid(Resolve(w, ById(c)).value.uid)) == Resolve(w, ById(c))
  {
    hide Inv, Synced, Syncable, History;
    SettledUid(w, c);
  }

  /** Whatever resolves once resolves for ever: to the same UID and device, over a growing history. */
  lemma ResolutionIsStable(w: World, w': World, i: Identifier)
    requires Valid(w) && Valid(w') && Extends(w, w') && Resolve(w, i).Some?
    ensures Resolve(w', i).Some?
    ensures Resolve(w', i).value.uid == Resolve(w, i).value.uid
    ensures Resolve(w', i).value.canonical == Resolve(w, i).value.canonical
    ensures Resolve(w, i).value.history <= Resolve(w', i).value.history
  {
    var u := Resolve(w, i).value.uid;
    assert KeepsUid(w, w', u) && Holds(w'.scopes, u, w.scopes.physical[u].canonical);
    HistoryGrows(w, w', u);
  }

  lemma HistoryGrows(w: World, w': World, u: Uid)
    requires u in w.scopes.physical && u in w'.scopes.physical
    requires KeepsUid(w, w', u) && w'.scopes.physical[u].canonical == w.scopes.physical[u].canonical
    ensures History(w, u) <= History(w', u)
  {
    forall d | d in History(w, u)
      ensures d in History(w', u)
    {
      if d != w.scopes.physical[u].canonical {
        assert w.tables.Member(CurrentOf(w, u), d);
      }
    }
  }

  /** Every device in a UID's history is a member of its current identity. */
  lemma HistoryIsOwned(w: World, u: Uid)
    requires Owned(w.tables) && Synced(w.tables, w.scopes) && u in w.scopes.physical
    ensures forall d :: d in History(w, u) ==> w.tables.Member(CurrentOf(w, u), d)
  {
  }

  /** Telemetry ownership is a partition: different UIDs own disjoint sets of devices. */
  lemma HistoriesDisjoint(w: World, u: Uid, v: Uid)
    requires Valid(w) && u in w.scopes.physical && v in w.scopes.physical && u != v
    ensures History(w, u) !! History(w, v)
  {
    HistoryIsOwned(w, u);
    HistoryIsOwned(w, v);
  }
}
