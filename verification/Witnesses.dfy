/**
 Inputs at which a promise is not kept, for those results that say exactly when it is:
 shared keys, an IPv6 pool, the two retries that repair nothing, and the skip after a
 failed link update.
 */
module Witnesses {
  import opened Wrappers
  import opened Address
  import opened Keys
  import opened LeaseTable
  import opened LeaseFile
  import opened LeaseManager
  import opened LeaseProtocol
  import opened WgDevice
  import AgentDevice
  import Cidr

  const POOL := Prefix(Addr(V4, 0x0a00_0001), 24)

  /** The record of a user with a repeated key, at `10.0.0.n`. */
  function RecordAt(c: char, n: nat, expires: int): WGRecord {
    WGRecord(Repeated(c), Addr(V4, 0x0a00_0000 + n), expires)
  }

  lemma HostAt(t: Table, u: string, c: char)
    requires u in t && t[u].pubKey == Repeated(c) && Sextet(c).Some?
    ensures u in HostsOf(t) && Some(HostsOf(t)[u].key) == ParseKey(Repeated(c))
  {
    RepeatedParses(c);
  }

  lemma DifferentKeys(c: char, d: char)
    requires Sextet(c).Some? && Sextet(d).Some? && Sextet(c) != Sextet(d)
    ensures ParseKey(Repeated(c)).Some? && ParseKey(Repeated(d)).Some?
    ensures ParseKey(Repeated(c)) != ParseKey(Repeated(d))
  {
    RepeatedParses(c);
    RepeatedParses(d);
  }

  /** Users `u` and `v` share a key, and the device holds another peer: in every order of
      the map one of them loses the route. */
  lemma SharedKeyLosesRoute() returns (t: Table, stray: Key)
    ensures t == map["u" := RecordAt('A', 2, 0), "v" := RecordAt('A', 3, 0)]
    ensures Some(stray) == ParseKey(Repeated('B'))
    ensures forall names | IsHostOrder(names, HostsOf(t)) :: !NothingDropped({stray}, PeersFor(HostsOf(t), names))
  {
    t := map["u" := RecordAt('A', 2, 0), "v" := RecordAt('A', 3, 0)];
    DifferentKeys('A', 'B');
    stray := ParseKey(Repeated('B')).value;
    HostAt(t, "u", 'A');
    HostAt(t, "v", 'A');
    var m := HostsOf(t);
    assert m.Keys == {"u", "v"};
    forall names | IsHostOrder(names, m)
      ensures !NothingDropped({stray}, PeersFor(m, names))
    {
      StrayPeerDropsShared({stray}, m, names, "u", "v", stray);
    }
  }

  const FD00: nat := 0xfd00_0000_0000_0000_0000_0000_0000_0000

  /** The pool `fd00::1/64` with users at `fd00::2` and `fd00::3`: a sound table, and no
      device mirrors it. */
  lemma IPv6PoolIsNotMirrored() returns (p: Prefix, t: Table)
    ensures p == Prefix(Addr(V6, FD00 + 1), 64) && p.Valid()
    ensures t == map["u" := WGRecord(Repeated('A'), Addr(V6, FD00 + 2), 0),
            "v" := WGRecord(Repeated('B'), Addr(V6, FD00 + 3), 0)]
    ensures Sound(p, t) && !exists d :: Mirrors(d, HostsOf(t))
  {
    p := Prefix(Addr(V6, FD00 + 1), 64);
    BigPool(p);
    BetweenEnds(p, FD00 + 2);
    BetweenEnds(p, FD00 + 3);
    t := PairInPool(p, "u", Addr(V6, FD00 + 2), "v", Addr(V6, FD00 + 3));
  }

  lemma BetweenEnds(p: Prefix, v: nat)
    requires p.Valid() && p.Masked().value < v < p.Last().value && v != p.addr.value
    ensures v in Block(p) - Reserved(p)
  {
  }

  lemma PairInPool(p: Prefix, u: string, a: Addr, v: string, b: Addr) returns (t: Table)
    requires p.Valid() && p.addr.family.V6? && p.bits >= 32 && u != v && a != b
    requires a.family == p.addr.family && a.value in Block(p) - Reserved(p)
    requires b.family == p.addr.family && b.value in Block(p) - Reserved(p)
    ensures t == map[u := WGRecord(Repeated('A'), a, 0), v := WGRecord(Repeated('B'), b, 0)]
    ensures Sound(p, t) && !exists d :: Mirrors(d, HostsOf(t))
  {
    t := map[u := WGRecord(Repeated('A'), a, 0), v := WGRecord(Repeated('B'), b, 0)];
    SoundPair(p, u, t[u], v, t[v]);
    PairHasDistinctKeys(t, u, v);
    IPv6PoolHasOneHost(p, t);
  }

  lemma PairHasDistinctKeys(t: Table, u: string, v: string)
    requires t.Keys == {u, v} && u != v && t[u].pubKey == Repeated('A') && t[v].pubKey == Repeated('B')
    ensures KeysDistinct(HostsOf(t)) && u in HostsOf(t) && v in HostsOf(t)
  {
    DifferentKeys('A', 'B');
    HostAt(t, u, 'A');
    HostAt(t, v, 'B');
  }

  lemma BigPool(p: Prefix)
    requires p == Prefix(Addr(V6, FD00 + 1), 64)
    ensures p.Valid() && p.Masked().value == FD00 && p.Last().value == FD00 + 0xffff_ffff_ffff_ffff
    ensures p.Size() == 0x1_0000_0000_0000_0000
  {
    Cidr.LargePowers();
    Pow2Of32();
    Pow2Add(32, 32);
    assert p.Size() == Pow2(64);
  }

  lemma SoundPair(p: Prefix, u: string, r: WGRecord, v: string, q: WGRecord)
    requires p.Valid() && u != v && r.ip != q.ip
    requires r.ip.family == p.addr.family && r.ip.value in Block(p) - Reserved(p)
    requires q.ip.family == p.addr.family && q.ip.value in Block(p) - Reserved(p)
    ensures Sound(p, map[u := r, v := q])
  {
  }

  // ---------- retries ----------

  /** A server whose last device update failed, with nothing in flight. */
  function AfterFailure(t: Table, device: State): World {
    World(true, 0, t, device, "", map[], 0, map[], false, 0, 0, false, true, true, map[], None, {})
  }

  lemma PoolIsValid()
    ensures POOL.Valid()
  {
    Pow2Of32();
  }

  /** The state after the request of a known user. */
  function Requested(t: Table, device: State, u: string, r: WGRecord, phase: Phase): World
    requires u in t
  {
    AfterFailure(t, device).(records := t[u := r], ops := map[0 := Request(phase, u, r)], nextId := 1,
                             latest := map[u := 0], written := {u})
  }

  lemma RetryIsServed(t: Table, device: State, u: string, key: string, expiry: int)
    requires POOL.Valid() && u in t && u != "" && key != ""
    ensures var r := t[u].(pubKey := key, expires := expiry);
            var phase := if t[u].pubKey != key then MustUpdate else MustSave;
            RequestStep(POOL, AfterFailure(t, device), u, key, expiry, Requested(t, device, u, r, phase))
  {
    var s := AfterFailure(t, device);
    assert s.ops == map[] && s.latest == map[] && s.written == {};
  }

  lemma SavedAfterwards(t: Table, device: State, u: string, r: WGRecord, text: string) returns (s: World)
    requires u in t && IsSavedFrom(text, t[u := r])
    ensures SaveStep(Requested(t, device, u, r, MustSave), 0, s)
    ensures Quiescent(s) && s.device == device && s.records == t[u := r]
  {
    var s1 := Requested(t, device, u, r, MustSave);
    assert s1.ops - {0} == map[];
    s := s1.(file := text, filed := s1.records, cut := false, saved := true, fileStale := false, ops := map[]);
  }

  lemma NoPeersNoMirror(t: Table, u: string, c: char)
    requires u in t && t[u].pubKey == Repeated(c) && Sextet(c).Some?
    ensures !Mirrors(State(map[], map[]), HostsOf(t))
  {
    HostAt(t, u, c);
  }

  /** The device lost its one peer; the user asks again with the same key, everything
      succeeds, and the peer is still missing. */
  lemma SameKeyRetryRepairsNothing() returns (s0: World, s1: World, s2: World)
    ensures POOL.Valid() && s0 == AfterFailure(map["u" := RecordAt('A', 2, 10)], State(map[], map[]))
    ensures RequestStep(POOL, s0, "u", Repeated('A'), 20, s1) && SaveStep(s1, 0, s2)
    ensures Quiescent(s2) && !Mirrors(s2.device, HostsOf(s2.records))
  {
    PoolIsValid();
    s0 := AfterFailure(map["u" := RecordAt('A', 2, 10)], State(map[], map[]));
    s1, s2 := UnchangedKeyRetry("u", 'A', RecordAt('A', 2, 10), 20);
  }

  lemma UnchangedKeyRetry(u: string, c: char, before: WGRecord, expiry: int) returns (s1: World, s2: World)
    requires POOL.Valid() && u != "" && before.pubKey == Repeated(c) && Sextet(c).Some? && PrintableAddr(before.ip)
    ensures RequestStep(POOL, AfterFailure(map[u := before], State(map[], map[])), u, Repeated(c), expiry, s1)
    ensures SaveStep(s1, 0, s2) && Quiescent(s2) && !Mirrors(s2.device, HostsOf(s2.records))
  {
    var t, r, device := map[u := before], before.(expires := expiry), State(map[], map[]);
    s1 := Requested(t, device, u, r, MustSave);
    RetryIsServed(t, device, u, Repeated(c), expiry);
    assert t[u := r] == map[u := r];
    OneRecordIsSaved(u, r);
    s2 := SavedAfterwards(t, device, u, r, PrintLine(u, r) + "\n");
    NoPeersNoMirror(s2.records, u, c);
  }

  lemma SharedUpdateFails(t: Table, device: State, u: string, r: WGRecord, v: string, stray: Key)
    requires t.Keys == {u, v} && u != v && t[v].pubKey == r.pubKey == Repeated('B') && t[v].ip != r.ip
    requires stray in device.peers && Some(stray) != ParseKey(Repeated('B')) && Addressable(t[u := r])
    ensures forall names, s2 | UpdateInOrder(Requested(t, device, u, r, MustUpdate), 0, names, s2) ::
              !Mirrors(s2.device, HostsOf(s2.records))
  {
    forall names, s2 | UpdateInOrder(Requested(t, device, u, r, MustUpdate), 0, names, s2)
      ensures !Mirrors(s2.device, HostsOf(s2.records))
    {
      SharedUpdateFailsIn(t, device, u, r, v, stray, names, s2);
    }
  }

  lemma PairSharesKey(t: Table, u: string, v: string, c: char, stray: Key)
    requires t.Keys == {u, v} && u != v && t[u].pubKey == t[v].pubKey == Repeated(c) && t[u].ip != t[v].ip
    requires Sextet(c).Some? && Some(stray) != ParseKey(Repeated(c)) && Addressable(t)
    ensures var m := HostsOf(t); u in m && v in m && m[u].key == m[v].key && stray !in HostKeys(m)
    ensures RangesDistinct(HostsOf(t))
  {
    HostAt(t, u, c);
    HostAt(t, v, c);
    AddressesAreRanges(t);
  }

  lemma SharedUpdateFailsIn(
    t: Table, device: State, u: string, r: WGRecord, v: string, stray: Key, names: seq<string>, s2: World)
    requires t.Keys == {u, v} && u != v && t[v].pubKey == r.pubKey == Repeated('B') && t[v].ip != r.ip
    requires stray in device.peers && Some(stray) != ParseKey(Repeated('B')) && Addressable(t[u := r])
    requires UpdateInOrder(Requested(t, device, u, r, MustUpdate), 0, names, s2)
    ensures !Mirrors(s2.device, HostsOf(s2.records))
  {
    var s1 := Requested(t, device, u, r, MustUpdate);
    PairSharesKey(s1.records, u, v, 'B', stray);
    UpdateDecides(s1, 0, names, s2);
    StrayPeerDropsShared(device.peers.Keys, HostsOf(s1.records), names, u, v, stray);
  }

  /** User `u` asks again with the key that `v` has, while a stray peer is left: the update
      succeeds, whatever the order of the map, and one of them has no route. */
  lemma SharedKeyRetryRepairsNothing() returns (s0: World, s1: World)
    ensures POOL.Valid() && ParseKey(Repeated('C')).Some?
    ensures s0 == AfterFailure(map["u" := RecordAt('A', 2, 10), "v" := RecordAt('B', 3, 10)],
                               State(map[ParseKey(Repeated('C')).value := NO_SETTINGS], map[]))
    ensures RequestStep(POOL, s0, "u", Repeated('B'), 20, s1)
    ensures forall names, s2 | UpdateInOrder(s1, 0, names, s2) :: !Mirrors(s2.device, HostsOf(s2.records))
  {
    PoolIsValid();
    DifferentKeys('B', 'C');
    DifferentKeys('A', 'B');
    var stray := ParseKey(Repeated('C')).value;
    var u, v, r := "u", "v", RecordAt('B', 2, 20);
    var t := map["u" := RecordAt('A', 2, 10), "v" := RecordAt('B', 3, 10)];
    var device := State(map[stray := NO_SETTINGS], map[]);
    s0 := AfterFailure(t, device);
    s1 := Requested(t, device, u, r, MustUpdate);
    RetryIsServed(t, device, u, Repeated('B'), 20);
    SharedUpdateFails(t, device, u, r, v, stray);
  }

  // ---------- the agent ----------

  /** The link could not be found for a configuration with another endpoint; the recorded one
      comes back, is skipped, and the peer keeps the other endpoint. */
  lemma SkipKeepsOtherEndpoint() returns (a: AgentDevice.Agent, other: AgentDevice.Lease, b: AgentDevice.Agent)
    ensures a.config.Some? && AgentDevice.Settled(a)
    ensures other == a.config.value.(peer := a.config.value.peer.(endpoint := Some("s2:51820")))
    ensures AgentDevice.Renew(a, other, AgentDevice.Faults(true, false, {}), None, b)
    ensures AgentDevice.Renew(b, a.config.value, AgentDevice.NO_FAULTS, None, b) && !AgentDevice.Settled(b)
  {
    var address := Prefix(Addr(V4, 0x0a00_0002), 32);
    var range := Prefix(Addr(V4, 0x0a00_0000), 24);
    var peer := PeerConfig(Key([]), false, false, None, Some("s1:51820"), [range], Some(KEEPALIVE));
    var l := AgentDevice.Lease(peer, address);
    other := l.(peer := l.peer.(endpoint := Some("s2:51820")));
    a := AgentDevice.Agent(AgentDevice.Kernel({address}, map[range := address.addr]),
                           AgentDevice.OnePeer(State(map[], map[]), l.peer), Some(l));
    b := a.(peers := AgentDevice.OnePeer(a.peers, other.peer));
    AgentDevice.SkipAfterFailedUpdate(a, other, AgentDevice.Faults(true, false, {}), b, AgentDevice.NO_FAULTS, None, b);
  }
}
