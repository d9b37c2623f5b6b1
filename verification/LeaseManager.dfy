/**
 `fileLeaseManager`: the lease table in memory, with its two mirrors, the peers of
 the WireGuard device and the leases file. Each method is one or more sections
 that the program runs under its mutex; what interleaving those sections does is
 the subject of module LeaseProtocol.
 */
module LeaseManager {
  import opened Wrappers
  import opened Address
  import opened Keys
  import opened WgDevice
  import opened LeaseTable
  import opened LeaseFile
  import Text

  /** A live user as the device sees it: a parsed key and a range. */
  datatype Host = Host(key: Key, range: Prefix)

  type Hosts = map<string, Host>

  /** The records whose key parses; the others are logged and skipped. */
  function HostsOf(t: Table): Hosts {
    map u | u in t && ParseKey(t[u].pubKey).Some? :: Host(ParseKey(t[u].pubKey).value, HostRange(t[u].ip))
  }

  /** The network of `<ip>/32`, as `net.ParseCIDR` returns it: for an IPv6 address that
      is the block its first 32 bits name. */
  function HostRange(ip: Addr): Prefix {
    Prefix(Prefix(ip, 32).Masked(), 32)
  }

  lemma HostRangeIsAddress(ip: Addr)
    requires PrintableAddr(ip)
    ensures Prefix(ip, 32).Valid() && HostRange(ip) == Prefix(ip, 32)
  {
    Pow2Of32();
    assert Prefix(ip, 32).Size() == 1;
  }

  /** The entry `newPeerConfig` makes of a record: its key and the network of `<ip>/32`. */
  function HostPeer(h: Host): PeerConfig {
    PeerConfig(h.key, false, false, None, None, [h.range], Some(KEEPALIVE))
  }

  /** The keys of the live users are different keys. The code never checks this. */
  ghost predicate KeysDistinct(m: Hosts) {
    forall u, v | u in m && v in m && m[u].key == m[v].key :: u == v
  }

  /** No two live users are routed the same range. */
  ghost predicate RangesDistinct(m: Hosts) {
    forall u, v | u in m && v in m && m[u].range == m[v].range :: u == v
  }

  ghost predicate AddressesDistinct(t: Table) {
    forall u, v | u in t && v in t && t[u].ip == t[v].ip :: u == v
  }

  /** No two live users share a key, and no two users an address. */
  ghost predicate Unshared(t: Table) {
    KeysDistinct(HostsOf(t)) && AddressesDistinct(t)
  }

  /** In an IPv4 pool different addresses are different ranges. */
  lemma AddressesAreRanges(t: Table)
    requires Addressable(t) && AddressesDistinct(t)
    ensures RangesDistinct(HostsOf(t))
  {
    var m := HostsOf(t);
    forall u | u in m
      ensures m[u].range == Prefix(t[u].ip, 32)
    {
      HostRangeIsAddress(t[u].ip);
    }
  }

  /** The device's peers are the image {key -> ip/32} of the live users. */
  ghost predicate Mirrors(d: State, m: Hosts) {
    && d.Valid()
    && (forall u | u in m :: m[u].key in d.peers && m[u].range in d.owner && d.owner[m[u].range] == m[u].key)
    && (forall k | k in d.peers :: exists u :: u in m && m[u].key == k)
    && (forall n | n in d.owner :: exists u :: u in m && n == m[u].range)
  }

  function HostKeys(m: Hosts): set<Key> {
    set u | u in m :: m[u].key
  }

  /** The peer list built for the users `names`, in that order. */
  ghost predicate PeersOf(m: Hosts, names: seq<string>, peers: seq<PeerConfig>) {
    && |names| == |peers|
    && (forall i | 0 <= i < |peers| :: names[i] in m && peers[i] == HostPeer(m[names[i]]))
    && (forall i, j | 0 <= i < j < |names| :: names[i] != names[j])
  }

  lemma PeersOfIsDisjoint(m: Hosts, names: seq<string>, peers: seq<PeerConfig>)
    requires PeersOf(m, names, peers) && RangesDistinct(m)
    ensures Disjoint(peers)
    ensures KeysDistinct(m) ==> DistinctKeys(peers)
  {
    forall i, j, n | 0 <= i < |peers| && 0 <= j < |peers| && n in peers[i].allowedIPs && n in peers[j].allowedIPs
      ensures i == j
    {
      var h, g := m[names[i]], m[names[j]];
      assert HostPeer(h).allowedIPs == [h.range] && HostPeer(g).allowedIPs == [g.range];
    }
  }

  lemma AgreementCoversHost(d: State, m: Hosts, names: seq<string>, peers: seq<PeerConfig>, u: string)
    requires Agrees(d, peers) && PeersOf(m, names, peers) && u in m && u in names
    ensures m[u].key in d.peers && m[u].range in d.owner && d.owner[m[u].range] == m[u].key
  {
    var i :| 0 <= i < |names| && names[i] == u;
    assert peers[i].key == m[u].key && m[u].range in peers[i].allowedIPs;
    assert Routes(peers, m[u].range, m[u].key);
  }

  lemma AgreementHasNoStrayPeer(d: State, m: Hosts, names: seq<string>, peers: seq<PeerConfig>, k: Key)
    requires Agrees(d, peers) && PeersOf(m, names, peers) && k in d.peers
    ensures exists u :: u in m && m[u].key == k
  {
    assert k in KeysOf(peers);
    var i :| 0 <= i < |peers| && peers[i].key == k;
    assert m[names[i]].key == k;
  }

  lemma AgreementHasNoStrayRange(d: State, m: Hosts, names: seq<string>, peers: seq<PeerConfig>, n: Prefix)
    requires Agrees(d, peers) && PeersOf(m, names, peers) && n in d.owner
    ensures exists u :: u in m && n == m[u].range
  {
    assert Routes(peers, n, d.owner[n]);
    var i :| 0 <= i < |peers| && peers[i].key == d.owner[n] && n in peers[i].allowedIPs;
    assert n == m[names[i]].range;
  }

  /** Agreeing with the list built from the live users is mirroring them. */
  lemma AgreementMirrors(d: State, m: Hosts, names: seq<string>, peers: seq<PeerConfig>)
    requires Agrees(d, peers) && PeersOf(m, names, peers) && forall u | u in m :: u in names
    ensures Mirrors(d, m)
  {
    forall u | u in m
      ensures m[u].key in d.peers && m[u].range in d.owner && d.owner[m[u].range] == m[u].key
    {
      AgreementCoversHost(d, m, names, peers, u);
    }
    forall k | k in d.peers
      ensures exists u :: u in m && m[u].key == k
    {
      AgreementHasNoStrayPeer(d, m, names, peers, k);
    }
    forall n | n in d.owner
      ensures exists u :: u in m && n == m[u].range
    {
      AgreementHasNoStrayRange(d, m, names, peers, n);
    }
  }

  /** Mirroring pins the device down: what one mirror of the live users holds, any
      other holds too, so that two of them are equal in peers and routes. */
  lemma MirrorsAreEqual(d: State, e: State, m: Hosts)
    requires Mirrors(d, m) && Mirrors(e, m)
    ensures forall n | n in d.owner :: n in e.owner && e.owner[n] == d.owner[n]
    ensures forall k | k in d.peers :: k in e.peers
  {
    forall n | n in d.owner
      ensures n in e.owner && e.owner[n] == d.owner[n]
    {
      RangeOwner(d, m, n, e);
    }
    forall k | k in d.peers
      ensures k in e.peers
    {
      var u :| u in m && m[u].key == k;
    }
  }

  lemma RangeOwner(d: State, m: Hosts, n: Prefix, e: State)
    requires Mirrors(d, m) && Mirrors(e, m) && n in d.owner
    ensures n in e.owner && e.owner[n] == d.owner[n]
  {
    var u :| u in m && n == m[u].range;
  }

  // ---------- shared keys and shared ranges ----------

  /** An order in which the map of records may be iterated, seen on the live users. */
  ghost predicate IsHostOrder(names: seq<string>, m: Hosts) {
    && (forall u :: u in names <==> u in m)
    && (forall i, j | 0 <= i < j < |names| :: names[i] != names[j])
  }

  function PeersFor(m: Hosts, names: seq<string>): (peers: seq<PeerConfig>)
    requires forall u | u in names :: u in m
    ensures |peers| == |names|
    ensures forall i | 0 <= i < |names| :: peers[i] == HostPeer(m[names[i]])
  {
    seq(|names|, i requires 0 <= i < |names| => HostPeer(m[names[i]]))
  }

  lemma HostIsListed(m: Hosts, names: seq<string>, peers: seq<PeerConfig>, u: string)
    requires PeersOf(m, names, peers) && u in m && u in names
    ensures m[u].key in KeysOf(peers) && Routes(peers, m[u].range, m[u].key)
  {
    var i :| 0 <= i < |names| && names[i] == u;
    assert peers[i] == HostPeer(m[u]);
    assert peers[i].key == m[u].key && m[u].range in peers[i].allowedIPs;
  }

  lemma ListedIsHost(m: Hosts, names: seq<string>, peers: seq<PeerConfig>, i: nat)
    requires PeersOf(m, names, peers) && i < |peers|
    ensures names[i] in m && peers[i].key == m[names[i]].key
    ensures forall n :: n in peers[i].allowedIPs <==> n == m[names[i]].range
  {
    assert peers[i] == HostPeer(m[names[i]]);
  }

  lemma OwnedIsRouted(d: State, m: Hosts, names: seq<string>, peers: seq<PeerConfig>, n: Prefix)
    requires Mirrors(d, m) && PeersOf(m, names, peers) && (forall u | u in m :: u in names) && n in d.owner
    ensures Routes(peers, n, d.owner[n])
  {
    var u :| u in m && n == m[u].range;
    HostIsListed(m, names, peers, u);
  }

  lemma RoutedIsOwned(d: State, m: Hosts, names: seq<string>, peers: seq<PeerConfig>, n: Prefix, k: Key)
    requires Mirrors(d, m) && PeersOf(m, names, peers) && Routes(peers, n, k)
    ensures n in d.owner && d.owner[n] == k
  {
    var i :| 0 <= i < |peers| && peers[i].key == k && n in peers[i].allowedIPs;
    ListedIsHost(m, names, peers, i);
  }

  lemma PeerIsListed(d: State, m: Hosts, names: seq<string>, peers: seq<PeerConfig>, k: Key)
    requires Mirrors(d, m) && PeersOf(m, names, peers) && (forall u | u in m :: u in names) && k in d.peers
    ensures k in KeysOf(peers)
  {
    var u :| u in m && m[u].key == k;
    HostIsListed(m, names, peers, u);
  }

  lemma ListedIsPeer(d: State, m: Hosts, names: seq<string>, peers: seq<PeerConfig>, k: Key)
    requires Mirrors(d, m) && PeersOf(m, names, peers) && k in KeysOf(peers)
    ensures k in d.peers
  {
    var i :| 0 <= i < |peers| && peers[i].key == k;
    ListedIsHost(m, names, peers, i);
  }

  /** The other way round: a device that mirrors the live users agrees with their list. */
  lemma MirrorAgrees(d: State, m: Hosts, names: seq<string>, peers: seq<PeerConfig>)
    requires Mirrors(d, m) && PeersOf(m, names, peers) && forall u | u in m :: u in names
    ensures Agrees(d, peers)
  {
    forall k
      ensures k in d.peers <==> k in KeysOf(peers)
    {
      if k in d.peers {
        PeerIsListed(d, m, names, peers, k);
      }
      if k in KeysOf(peers) {
        ListedIsPeer(d, m, names, peers, k);
      }
    }
    forall n, k
      ensures n in d.owner && d.owner[n] == k <==> Routes(peers, n, k)
    {
      MirroredRoute(d, m, names, peers, n, k);
    }
    AgreesIntro(d, peers);
  }

  lemma MirroredRoute(d: State, m: Hosts, names: seq<string>, peers: seq<PeerConfig>, n: Prefix, k: Key)
    requires Mirrors(d, m) && PeersOf(m, names, peers) && forall u | u in m :: u in names
    ensures n in d.owner && d.owner[n] == k <==> Routes(peers, n, k)
  {
    if n in d.owner {
      OwnedIsRouted(d, m, names, peers, n);
    }
    if Routes(peers, n, k) {
      RoutedIsOwned(d, m, names, peers, n, k);
    }
  }

  lemma AgreesIntro(d: State, peers: seq<PeerConfig>)
    requires d.Valid() && (forall k :: k in d.peers <==> k in KeysOf(peers))
    requires forall n, k :: n in d.owner && d.owner[n] == k <==> Routes(peers, n, k)
    ensures Agrees(d, peers)
  {
  }

  /** When users may share keys. In every order in which the map may be iterated, no
      user loses the route, if and only if the device holds no peer other than the
      shared key, whichever that is. */
  lemma SharedKeysKeptExactlyWhen(existing: set<Key>, m: Hosts)
    ensures (forall names | IsHostOrder(names, m) :: NothingDropped(existing, PeersFor(m, names))) <==>
            (forall u, v | u in m && v in m && u != v && m[u].key == m[v].key :: existing <= {m[u].key})
  {
    if forall names | IsHostOrder(names, m) :: NothingDropped(existing, PeersFor(m, names)) {
      forall u, v | u in m && v in m && u != v && m[u].key == m[v].key
        ensures existing <= {m[u].key}
      {
        var names := OrderWithTwoFirst(m.Keys, u, v);
        var peers := PeersFor(m, names);
        assert NothingDropped(existing, peers);
        assert peers[0].key == peers[1].key && peers[0].allowedIPs != [];
        assert KeysOf(peers[..1]) == {m[u].key};
      }
    }
    if forall u, v | u in m && v in m && u != v && m[u].key == m[v].key :: existing <= {m[u].key} {
      forall names | IsHostOrder(names, m)
        ensures NothingDropped(existing, PeersFor(m, names))
      {
        SharedKeysKept(existing, m, names);
      }
    }
  }

  lemma DistinctKeysKept(existing: set<Key>, m: Hosts, names: seq<string>)
    requires IsHostOrder(names, m) && KeysDistinct(m)
    ensures NothingDropped(existing, PeersFor(m, names))
  {
    SharedKeysKept(existing, m, names);
  }

  lemma SharedKeysKept(existing: set<Key>, m: Hosts, names: seq<string>)
    requires IsHostOrder(names, m)
    requires forall u, v | u in m && v in m && u != v && m[u].key == m[v].key :: existing <= {m[u].key}
    ensures NothingDropped(existing, PeersFor(m, names))
  {
    var peers := PeersFor(m, names);
    forall i, j | 0 <= i < j < |peers| && peers[i].key == peers[j].key
      ensures existing <= KeysOf(peers[..j])
    {
      assert names[i] in m && names[j] in m;
      assert peers[..j][i].key == peers[i].key;
    }
  }

  /** In particular, while a peer is left that no user has the key of, a shared key loses a
      route in every order. */
  lemma StrayPeerDropsShared(existing: set<Key>, m: Hosts, names: seq<string>, u: string, v: string, stray: Key)
    requires IsHostOrder(names, m) && u in m && v in m && u != v && m[u].key == m[v].key
    requires stray in existing && stray !in HostKeys(m)
    ensures !NothingDropped(existing, PeersFor(m, names))
  {
    var peers := PeersFor(m, names);
    assert u in names && v in names;
    var i :| 0 <= i < |names| && names[i] == u;
    var j :| 0 <= j < |names| && names[j] == v;
    var last := if i < j then j else i;
    forall l | 0 <= l < |peers|
      ensures peers[l].key != stray
    {
      assert names[l] in names;
    }
    assert stray !in KeysOf(peers[..last]);
    assert peers[i].allowedIPs != [] && peers[j].allowedIPs != [];
  }

  /** What a successful device update leaves for the live users, listed in this order:
      their keys for peers, in any case; and all of their routes, where no two are routed
      one range, if and only if no entry dropped the range of an earlier one with the same
      key. */
  ghost predicate UpdateOutcome(before: State, m: Hosts, names: seq<string>, after: State) {
    && after.Valid() && IsHostOrder(names, m) && after.peers.Keys == HostKeys(m)
    && (RangesDistinct(m) ==> (Mirrors(after, m) <==> NothingDropped(before.peers.Keys, PeersFor(m, names))))
  }

  /** Users routed the same range are users of the same key. */
  ghost predicate RangesAgree(m: Hosts) {
    forall u, v | u in m && v in m && m[u].range == m[v].range :: m[u].key == m[v].key
  }

  /** Some device mirrors the live users if and only if none of them is routed the range
      of another: a range has one owner. */
  lemma MirrorExistsExactlyWhen(m: Hosts)
    ensures (exists d :: Mirrors(d, m)) <==> RangesAgree(m)
  {
    if RangesAgree(m) {
      var d := BuildMirror(m);
    }
    forall d | Mirrors(d, m)
      ensures RangesAgree(m)
    {
      MirrorsAgree(d, m);
    }
  }

  lemma MirrorsAgree(d: State, m: Hosts)
    requires Mirrors(d, m)
    ensures RangesAgree(m)
  {
  }

  lemma OwnersExist(m: Hosts) returns (owner: map<Prefix, Key>)
    requires RangesAgree(m)
    ensures forall u | u in m :: m[u].range in owner && owner[m[u].range] == m[u].key
    ensures forall n | n in owner :: exists u :: u in m && n == m[u].range
  {
    owner := map u | u in m :: m[u].range := m[u].key;
  }

  lemma PeersExist(m: Hosts) returns (peers: map<Key, Peer>)
    ensures forall u | u in m :: m[u].key in peers
    ensures forall k | k in peers :: exists u :: u in m && m[u].key == k
  {
    peers := map u | u in m :: m[u].key := NO_SETTINGS;
  }

  lemma BuildMirror(m: Hosts) returns (d: State)
    requires RangesAgree(m)
    ensures Mirrors(d, m)
  {
    var owner := OwnersExist(m);
    var peers := PeersExist(m);
    d := State(peers, owner);
    forall n | n in d.owner
      ensures d.owner[n] in d.peers
    {
      var u :| u in m && n == m[u].range;
    }
  }

  lemma SameBlockSameRange(p: Prefix, ip: Addr)
    requires p.Valid() && p.addr.family.V6? && p.bits >= 32
    requires ip.family == p.addr.family && ip.value in Block(p)
    ensures HostRange(ip) == HostRange(p.addr)
  {
    BlockIsValid(p, ip.value);
    ContainsIsRange(p, ip);
    EndsAreValid(p);
    var outer := Prefix(p.addr, 32);
    EndsAreValid(outer);
    NestOrDisjoint(outer, p, p.addr, ip);
  }

  /** In an IPv6 pool all users are routed one range, so that it can be mirrored only while
      all live users have one key: if they have different keys, while at most one is live. */
  lemma IPv6PoolHasOneHost(p: Prefix, t: Table)
    requires p.Valid() && p.addr.family.V6? && p.bits >= 32 && Sound(p, t)
    ensures (exists d :: Mirrors(d, HostsOf(t))) <==>
            forall u, v | u in HostsOf(t) && v in HostsOf(t) :: HostsOf(t)[u].key == HostsOf(t)[v].key
    ensures KeysDistinct(HostsOf(t)) ==>
              ((exists d :: Mirrors(d, HostsOf(t))) <==> forall u, v | u in HostsOf(t) && v in HostsOf(t) :: u == v)
  {
    var m := HostsOf(t);
    forall u | u in m
      ensures m[u].range == HostRange(p.addr)
    {
      SameBlockSameRange(p, t[u].ip);
    }
    MirrorExistsExactlyWhen(m);
  }

  /** The skip of the device update is sound: what the device should hold depends
      on keys and addresses only. */
  lemma ExpiryChangeKeepsHosts(t: Table, u: string, expiry: int)
    requires u in t
    ensures HostsOf(t[u := t[u].(expires := expiry)]) == HostsOf(t)
  {
  }

  // ---------- the outside world ----------

  class Clock {
    var now: int

    method Now() returns (t: int)
      modifies this
      ensures t == now >= old(now)
    {
      var passed :| passed >= 0;
      now := now + passed;
      t := now;
    }
  }

  class LeasesFile {
    var present: bool
    var text: string
  }

  datatype SaveFault = NoFault | OpenFails | WriteFails(lines: nat)

  /** A save of so many records gets to its end. */
  predicate Saves(f: SaveFault, n: nat) {
    f.NoFault? || (f.WriteFails? && f.lines >= n)
  }

  // ---------- the manager ----------

  class FileLeaseManager {
    const ipPrefix: Prefix
    const device: Device
    const file: LeasesFile
    const clock: Clock
    var wgRecords: Table

    ghost predicate Valid()
      reads this, device
    {
      && ipPrefix.Valid() && ipPrefix.addr.family.V4?
      && device.state.Valid()
      && Addressable(wgRecords)
    }

    constructor (ipPrefix: Prefix, device: Device, file: LeasesFile, clock: Clock)
      requires ipPrefix.Valid() && ipPrefix.addr.family.V4? && device.state.Valid()
      ensures Valid() && Sound(ipPrefix, wgRecords) && wgRecords == map[]
      ensures this.ipPrefix == ipPrefix && this.device == device && this.file == file && this.clock == clock
    {
      this.ipPrefix, this.device, this.file, this.clock := ipPrefix, device, file, clock;
      wgRecords := map[];
    }

    /** Builds the set of candidates by removal and takes its lowest member. */
    method NextAvailableAddress() returns (r: Option<Addr>)
      requires Valid()
      ensures r.None? <==> Available(ipPrefix, wgRecords) == {}
      ensures r.Some? ==>
                r.value.family == ipPrefix.addr.family && IsLeast(r.value.value, Available(ipPrefix, wgRecords))
      ensures r.None? <==> !HasFreeAddress(ipPrefix, wgRecords)
      ensures r.Some? ==>
                && r.value.Valid() && ipPrefix.Contains(r.value) && !HasLease(wgRecords, r.value.value)
                && r.value != ipPrefix.addr && r.value != ipPrefix.Masked() && r.value != ipPrefix.Last()
    {
      var b := Block(ipPrefix);
      b := b - {ipPrefix.addr.value};
      b := b - {ipPrefix.Masked().value};
      b := b - {ipPrefix.Last().value};
      assert b == Block(ipPrefix) - Reserved(ipPrefix);
      b := WithoutLeased(b);
      FreeExactlyWhen(ipPrefix, wgRecords);
      match Least(b)
      case None => r := None;
      case Some(v) =>
        r := Some(Addr(ipPrefix.addr.family, v));
        BlockIsValid(ipPrefix, v);
        AvailableExactlyWhen(ipPrefix, wgRecords, r.value);
    }

    method WithoutLeased(candidates: set<nat>) returns (b: set<nat>)
      ensures b == candidates - Leased(wgRecords)
    {
      b := candidates;
      var users := wgRecords.Keys;
      while users != {}
        invariant users <= wgRecords.Keys
        invariant b == candidates - (set u | u in wgRecords && u !in users :: wgRecords[u].ip.value)
        decreases users
      {
        var u :| u in users;
        b := b - {wgRecords[u].ip.value};
        users := users - {u};
      }
    }

    method CreateOrUpdatePeer(username: string, pubKey: string, expiry: int)
      returns (r: Result<(WGRecord, bool), RequestError>)
      requires Valid()
      modifies this`wgRecords
      ensures Valid()
      ensures match Upsert(ipPrefix, old(wgRecords), username, pubKey, expiry)
              case Err(e) => r == Err(e) && wgRecords == old(wgRecords)
              case Ok(o) => r == Ok((o.record, o.needsUpdate)) && wgRecords == o.table
      ensures old(Sound(ipPrefix, wgRecords)) ==> Sound(ipPrefix, wgRecords)
    {
      if username == "" {
        return Err(EmptyUsername);
      }
      if pubKey == "" {
        return Err(EmptyPublicKey);
      }
      ghost var before := wgRecords;
      if username in wgRecords {
        var record := wgRecords[username];
        if record.pubKey == pubKey {
          record := record.(expires := expiry);
          wgRecords := wgRecords[username := record];
          r := Ok((record, false));
        } else {
          record := record.(pubKey := pubKey, expires := expiry);
          wgRecords := wgRecords[username := record];
          r := Ok((record, true));
        }
      } else {
        var ip := NextAvailableAddress();
        if ip.None? {
          return Err(PoolExhausted);
        }
        LeastIsUnique(ip.value.value, Available(ipPrefix, wgRecords));
        AvailableIsPrintable(ipPrefix, wgRecords, ip.value.value);
        wgRecords := wgRecords[username := WGRecord(pubKey, ip.value, expiry)];
        r := Ok((wgRecords[username], true));
      }
      if Sound(ipPrefix, before) {
        UpsertKeepsSound(ipPrefix, before, username, pubKey, expiry);
      }
    }

    /** Brings the peers of the device in line with the table. The device ends up
        mirroring it if and only if, in the order in which the map was iterated, no
        user who shares a key loses the route; so it does when the keys are different. */
    method UpdateWgPeers(fault: Option<nat>) returns (ok: bool, ghost names: seq<string>)
      requires Valid()
      modifies device
      ensures Valid()
      ensures ok <==> fault.None?
      ensures ok ==> UpdateOutcome(old(device.state), HostsOf(wgRecords), names, device.state)
      ensures ok && Unshared(wgRecords) ==> Mirrors(device.state, HostsOf(wgRecords))
      ensures IsHostOrder(names, HostsOf(wgRecords))
      ensures SetUpTo(old(device.state), PeersFor(HostsOf(wgRecords), names), fault, device.state)
    {
      var peers;
      peers, names := BuildPeers();
      ok := device.SetPeers(peers, fault);
      if ok {
        UpdateMirrors(old(device.state).peers.Keys, device.state, HostsOf(wgRecords), names);
        if AddressesDistinct(wgRecords) {
          AddressesAreRanges(wgRecords);
          DistinctKeysMirror(old(device.state), HostsOf(wgRecords), names, device.state);
        }
      }
    }

    /** The peer list, in the order in which the map is iterated; records whose key does
        not parse are left out. */
    method BuildPeers() returns (peers: seq<PeerConfig>, ghost names: seq<string>)
      requires Addressable(wgRecords)
      ensures IsHostOrder(names, HostsOf(wgRecords)) && peers == PeersFor(HostsOf(wgRecords), names)
    {
      ghost var m := HostsOf(wgRecords);
      peers, names := [], [];
      var users := wgRecords.Keys;
      while users != {}
        invariant users <= wgRecords.Keys
        invariant PeersOf(m, names, peers) && forall u :: u in names <==> u in m && u !in users
        decreases users
      {
        var u :| u in users;
        HostRangeIsAddress(wgRecords[u].ip);
        var peer := NewPeerConfig(wgRecords[u].pubKey, "", NoEndpoint, [Some(Prefix(wgRecords[u].ip, 32))]);
        if peer.Ok? {
          assert peer.value == HostPeer(m[u]);
          peers := peers + [peer.value];
          names := names + [u];
        }
        users := users - {u};
      }
    }

    /** Truncates the file and writes the table line by line. */
    method SaveWgRecords(fault: SaveFault) returns (ok: bool)
      requires Valid()
      modifies file
      ensures ok ==> file.present && IsSaved(file.text, wgRecords)
      ensures ok <==> Saves(fault, |wgRecords|)
      ensures fault.OpenFails? ==> file.present == old(file.present) && file.text == old(file.text)
      ensures fault.WriteFails? && !ok ==> file.present && HoldsLines(file.text, wgRecords, fault.lines)
    {
      if fault.OpenFails? {
        return false;
      }
      ghost var order;
      ok, order := WriteTable(match fault case WriteFails(n) => Some(n) case _ => None);
    }

    /** The writing loop; with a limit, the write after that many lines fails. */
    method WriteTable(limit: Option<nat>) returns (ok: bool, ghost order: seq<string>)
      requires Addressable(wgRecords)
      modifies file
      ensures file.present && (ok <==> limit.None? || limit.value >= |wgRecords|)
      ensures IsPartOfOrder(order, wgRecords) && file.text == PrintTable(order, wgRecords)
      ensures ok ==> IsOrder(order, wgRecords)
      ensures !ok ==> |order| == limit.value
    {
      file.present, file.text := true, "";
      order := [];
      var users, written := wgRecords.Keys, 0;
      while users != {}
        invariant users <= wgRecords.Keys && file.present
        invariant WrittenBut(order, wgRecords, users)
        invariant written == |order| == |wgRecords| - |users|
        invariant limit.Some? ==> |order| <= limit.value
        invariant file.text == PrintTable(order, wgRecords)
        decreases users
      {
        var u :| u in users;
        if limit.Some? && limit.value == written {
          WrittenIsPart(order, wgRecords, users);
          return false, order;
        }
        PrintAppend(order, u, wgRecords);
        WrittenOneMore(order, wgRecords, users, u);
        WriteLine(u);
        order := order + [u];
        users, written := users - {u}, written + 1;
      }
      WrittenIsPart(order, wgRecords, users);
      ok := true;
    }

    method WriteLine(u: string)
      requires Addressable(wgRecords) && u in wgRecords
      modifies file
      ensures file.present == old(file.present)
      ensures file.text == old(file.text) + PrintLine(u, wgRecords[u]) + "\n"
    {
      file.text := file.text + PrintLine(u, wgRecords[u]) + "\n";
    }

    /** The device update, for users who share neither key nor address. */
    method MirrorTable(fault: Option<nat>) returns (ok: bool)
      requires Valid()
      modifies device
      ensures Valid()
      ensures ok <==> fault.None?
      ensures ok && Unshared(wgRecords) ==> Mirrors(device.state, HostsOf(wgRecords))
    {
      ghost var names;
      ok, names := UpdateWgPeers(fault);
    }

    /** The two sections that bring the mirrors up to date, run back to back. */
    method UpdateAndSave(fault: Option<nat>, saveFault: SaveFault) returns (ok: bool)
      requires Valid()
      modifies device, file
      ensures Valid()
      ensures ok <==> fault.None? && Saves(saveFault, |wgRecords|)
      ensures ok ==> file.present && IsSaved(file.text, wgRecords)
      ensures fault.Some? ==> file.present == old(file.present) && file.text == old(file.text)
      ensures fault.None? && Unshared(wgRecords) ==> Mirrors(device.state, HostsOf(wgRecords))
    {
      ok := MirrorTable(fault);
      if ok {
        ok := SaveWgRecords(saveFault);
      }
    }

    /** Reads the file line by line. A table that was saved comes back, except for
        what has expired when its line is read. */
    method LoadWgRecords() returns (r: Option<LoadError>, ghost times: seq<int>)
      requires ipPrefix.Valid() && ipPrefix.addr.family.V4? && device.state.Valid()
      modifies this`wgRecords, clock
      ensures Valid()
      ensures clock.now >= old(clock.now)
      ensures !file.present ==> r.None? && wgRecords == map[]
      ensures file.present ==>
              && ReadAt(file.text, times, old(clock.now), clock.now)
              && LoadLines(Text.ScanLines(file.text), times) ==
                 match r case None => Ok(wgRecords) case Some(e) => Err(e)
      ensures file.present ==> forall t | Addressable(t) && IsSaved(file.text, t) && AllRestorable(t, old(clock.now)) ::
                r.None? && Loaded(t, wgRecords, old(clock.now), clock.now)
    {
      wgRecords := map[];
      times := [];
      if !file.present {
        return None, [];
      }
      var lines := Text.ScanLines(file.text);
      r, times := LoadRecords(lines);
      LoadedFromSaved(file.text, times, old(clock.now), clock.now);
    }

    /** The reading loop, from an empty table; it stops at the first bad line. */
    method LoadRecords(lines: seq<string>) returns (r: Option<LoadError>, ghost times: seq<int>)
      requires wgRecords == map[]
      modifies this`wgRecords, clock
      ensures Addressable(wgRecords)
      ensures clock.now >= old(clock.now)
      ensures |times| == |lines| && forall j | 0 <= j < |times| :: old(clock.now) <= times[j] <= clock.now
      ensures LoadLines(lines, times) == match r case None => Ok(wgRecords) case Some(e) => Err(e)
    {
      times := [];
      var i := 0;
      while i < |lines|
        invariant i == |times| <= |lines| && clock.now >= old(clock.now)
        invariant forall j | 0 <= j < i :: old(clock.now) <= times[j] <= clock.now
        invariant Addressable(wgRecords)
        invariant LoadLines(lines[..i], times) == Ok(wgRecords)
      {
        var now := clock.Now();
        LoadOneMore(lines, times, i, now, wgRecords);
        var step := LoadLine(wgRecords, lines[i], now);
        times := times + [now];
        if step.Err? {
          times := FilledUp(lines, times, now, step.error);
          return Some(step.error), times;
        }
        LoadLineAddressable(wgRecords, lines[i], now);
        wgRecords := step.value;
        i := i + 1;
      }
      assert lines[..i] == lines;
      r := None;
    }

    /** `newFileLeaseManager` once the directory is there: reads the file, then brings the
        device in line with it. A file that is refused leaves the device as it was. */
    method Boot(fault: Option<nat>) returns (ok: bool, ghost times: seq<int>, ghost names: seq<string>)
      requires ipPrefix.Valid() && ipPrefix.addr.family.V4? && device.state.Valid()
      modifies this`wgRecords, device, clock
      ensures Valid()
      ensures !file.present ==> wgRecords == map[]
      ensures file.present ==> ReadAt(file.text, times, old(clock.now), clock.now)
      ensures var loaded := if file.present then LoadLines(Text.ScanLines(file.text), times) else Ok(map[]);
              && (ok <==> loaded.Ok? && fault.None?)
              && (loaded.Ok? ==> loaded.value == wgRecords)
              && (loaded.Err? ==> device.state == old(device.state))
      ensures ok ==> UpdateOutcome(old(device.state), HostsOf(wgRecords), names, device.state)
    {
      var r;
      r, times := LoadWgRecords();
      if r.Some? {
        return false, times, [];
      }
      ok, names := UpdateWgPeers(fault);
    }

    /** One expiry sweep. The mirrors are brought up to date only if it removed
        something. */
    method SyncWgRecords(fault: Option<nat>, saveFault: SaveFault) returns (ok: bool)
      requires Valid()
      modifies this`wgRecords, device, file, clock
      ensures Valid()
      ensures Swept(old(wgRecords), wgRecords, old(clock.now), clock.now)
      ensures old(Sound(ipPrefix, wgRecords)) ==> Sound(ipPrefix, wgRecords)
      ensures ok <==> wgRecords == old(wgRecords) || (fault.None? && Saves(saveFault, |wgRecords|))
      ensures wgRecords == old(wgRecords) ==> device.state == old(device.state)
      ensures wgRecords == old(wgRecords) || fault.Some? ==>
                file.present == old(file.present) && file.text == old(file.text)
      ensures wgRecords != old(wgRecords) && ok ==> file.present && IsSaved(file.text, wgRecords)
      ensures wgRecords != old(wgRecords) && fault.None? && Unshared(wgRecords) ==>
                Mirrors(device.state, HostsOf(wgRecords))
    {
      ghost var before := wgRecords;
      var changed := DeleteExpired();
      if Sound(ipPrefix, before) {
        SubsetKeepsSound(ipPrefix, before, wgRecords);
      }
      ok := true;
      if changed {
        ok := UpdateAndSave(fault, saveFault);
      }
    }

    /** The locked section of the sweep. */
    method DeleteExpired() returns (changed: bool)
      requires Addressable(wgRecords)
      modifies this`wgRecords, clock
      ensures Addressable(wgRecords)
      ensures Swept(old(wgRecords), wgRecords, old(clock.now), clock.now)
      ensures changed <==> wgRecords != old(wgRecords)
    {
      ghost var before := wgRecords;
      changed := false;
      var users := wgRecords.Keys;
      while users != {}
        invariant users <= wgRecords.Keys <= before.Keys
        invariant clock.now >= old(clock.now)
        invariant forall u | u in wgRecords ::
                    wgRecords[u] == before[u] && (u in users || before[u].expires >= old(clock.now))
        invariant forall u | u in before && before[u].expires >= clock.now :: u in wgRecords
        invariant changed <==> wgRecords.Keys != before.Keys
        decreases users
      {
        var u :| u in users;
        var now := clock.Now();
        if wgRecords[u].expires < now {
          wgRecords := wgRecords - {u};
          changed := true;
          assert u in before && u !in wgRecords;
        }
        users := users - {u};
      }
    }

    /** What follows a change of the table; the device may be skipped. */
    method Propagate(needToUpdateWGPeers: bool, fault: Option<nat>, saveFault: SaveFault) returns (ok: bool)
      requires Valid()
      modifies device, file
      ensures Valid()
      ensures ok <==> (needToUpdateWGPeers ==> fault.None?) && Saves(saveFault, |wgRecords|)
      ensures ok ==> file.present && IsSaved(file.text, wgRecords)
      ensures needToUpdateWGPeers && fault.Some? ==> file.present == old(file.present) && file.text == old(file.text)
      ensures needToUpdateWGPeers && fault.None? && Unshared(wgRecords) ==> Mirrors(device.state, HostsOf(wgRecords))
      ensures !needToUpdateWGPeers ==> device.state == old(device.state)
    {
      if needToUpdateWGPeers {
        ok := UpdateAndSave(fault, saveFault);
      } else {
        ok := SaveWgRecords(saveFault);
      }
    }

    /** A lease request, run without interruption: the record handed out is in the
        table, on the device and in the file, or the caller is told of a failure. */
    method AddNewPeer(username: string, pubKey: string, expiry: int, fault: Option<nat>, saveFault: SaveFault)
      returns (r: Option<WGRecord>)
      requires Valid()
      modifies this`wgRecords, device, file
      ensures Valid()
      ensures old(Sound(ipPrefix, wgRecords)) ==> Sound(ipPrefix, wgRecords)
      ensures match Upsert(ipPrefix, old(wgRecords), username, pubKey, expiry)
              case Err(e) =>
                && r == None && wgRecords == old(wgRecords) && device.state == old(device.state)
                && file.present == old(file.present) && file.text == old(file.text)
              case Ok(o) =>
                && wgRecords == o.table
                && (r.Some? <==> (o.needsUpdate ==> fault.None?) && Saves(saveFault, |wgRecords|))
                && (r.Some? ==> r.value == o.record && file.present && IsSaved(file.text, wgRecords))
                && (o.needsUpdate && fault.Some? ==> file.present == old(file.present) && file.text == old(file.text))
                && (o.needsUpdate && fault.None? && Unshared(wgRecords) ==> Mirrors(device.state, HostsOf(wgRecords)))
                && (!o.needsUpdate ==> device.state == old(device.state))
                && (!o.needsUpdate && old(Mirrors(device.state, HostsOf(wgRecords))) ==>
                      Mirrors(device.state, HostsOf(wgRecords)))
    {
      ghost var before := wgRecords;
      var c := CreateOrUpdatePeer(username, pubKey, expiry);
      if c.Err? {
        return None;
      }
      var (record, needToUpdateWGPeers) := c.value;
      if !needToUpdateWGPeers {
        ExpiryChangeKeepsHosts(before, username, expiry);
      }
      var ok := Propagate(needToUpdateWGPeers, fault, saveFault);
      if !ok {
        return None;
      }
      return Some(record);
    }
  }

  lemma ListedKeysAreHostKeys(m: Hosts, names: seq<string>)
    requires IsHostOrder(names, m)
    ensures KeysOf(PeersFor(m, names)) == HostKeys(m)
  {
    var peers := PeersFor(m, names);
    forall u | u in m
      ensures m[u].key in KeysOf(peers)
    {
      assert u in names;
      var i :| 0 <= i < |names| && names[i] == u;
      assert peers[i].key == m[u].key;
    }
    forall i | 0 <= i < |names|
      ensures peers[i].key in HostKeys(m)
    {
      assert names[i] in names;
    }
  }

  lemma ListedAreNotRemovals(m: Hosts, names: seq<string>)
    requires IsHostOrder(names, m)
    ensures NoRemovals(PeersFor(m, names))
  {
    assert forall i | 0 <= i < |names| :: names[i] in m;
  }

  /** What a successful `SetPeers` means for the live users. */
  lemma UpdateMirrors(existing: set<Key>, d: State, m: Hosts, names: seq<string>)
    requires IsHostOrder(names, m)
    requires NoRemovals(PeersFor(m, names)) ==> d.peers.Keys == KeysOf(PeersFor(m, names))
    requires Disjoint(PeersFor(m, names)) ==>
               (Agrees(d, PeersFor(m, names)) <==> NothingDropped(existing, PeersFor(m, names)))
    ensures d.peers.Keys == HostKeys(m)
    ensures RangesDistinct(m) ==> (Mirrors(d, m) <==> NothingDropped(existing, PeersFor(m, names)))
  {
    var peers := PeersFor(m, names);
    ListedAreNotRemovals(m, names);
    ListedKeysAreHostKeys(m, names);
    if RangesDistinct(m) {
      assert PeersOf(m, names, peers);
      PeersOfIsDisjoint(m, names, peers);
      if Mirrors(d, m) {
        MirrorAgrees(d, m, names, peers);
      }
      if NothingDropped(existing, peers) {
        AgreementMirrors(d, m, names, peers);
      }
    }
  }

  lemma DistinctKeysMirror(before: State, m: Hosts, names: seq<string>, after: State)
    requires UpdateOutcome(before, m, names, after)
    ensures KeysDistinct(m) && RangesDistinct(m) ==> Mirrors(after, m)
  {
    if KeysDistinct(m) {
      DistinctKeysKept(before.peers.Keys, m, names);
    }
  }

  lemma LeastIsUnique(v: nat, s: set<nat>)
    requires IsLeast(v, s)
    ensures Least(s) == Some(v)
  {
  }

  lemma AvailableIsPrintable(p: Prefix, t: Table, v: nat)
    requires p.Valid() && p.addr.family.V4? && v in Available(p, t)
    ensures v < 0x1_0000_0000
  {
    BlockIsValid(p, v);
    Pow2Of32();
  }

  lemma {:induction false} JoinAppend(lines: seq<string>, line: string)
    ensures JoinLines(lines + [line]) == JoinLines(lines) + line + "\n"
  {
    if lines != [] {
      JoinAppend(lines[1..], line);
      assert (lines + [line])[1..] == lines[1..] + [line];
    }
  }

  /** A file cut short: the lines of `n` users, in some order. */
  ghost predicate HoldsLines(text: string, t: Table, n: nat)
    requires Addressable(t)
  {
    exists order :: IsPartOfOrder(order, t) && |order| == n && text == PrintTable(order, t)
  }

  ghost predicate IsPartOfOrder(order: seq<string>, t: Table) {
    && (forall u | u in order :: u in t)
    && (forall i, j | 0 <= i < j < |order| :: order[i] != order[j])
  }

  /** `order` lists, once each, the users of the table that are not in `users`. */
  ghost predicate WrittenBut(order: seq<string>, t: Table, users: set<string>) {
    && (forall u :: u in order <==> u in t && u !in users)
    && (forall i, j | 0 <= i < j < |order| :: order[i] != order[j])
  }

  lemma WrittenIsPart(order: seq<string>, t: Table, users: set<string>)
    requires WrittenBut(order, t, users)
    ensures IsPartOfOrder(order, t)
    ensures users == {} ==> IsOrder(order, t)
  {
  }

  lemma WrittenOneMore(order: seq<string>, t: Table, users: set<string>, u: string)
    requires WrittenBut(order, t, users) && u in users && u in t
    ensures WrittenBut(order + [u], t, users - {u})
  {
    assert u !in order;
  }

  lemma PrintAppend(order: seq<string>, u: string, t: Table)
    requires Addressable(t) && u in t && forall v | v in order :: v in t
    ensures PrintTable(order + [u], t) == PrintTable(order, t) + PrintLine(u, t[u]) + "\n"
  {
    JoinAppend(Lines(order, t), PrintLine(u, t[u]));
    assert Lines(order + [u], t) == Lines(order, t) + [PrintLine(u, t[u])];
  }

  lemma LoadLineAddressable(t: Table, line: string, now: int)
    requires Addressable(t) && LoadLine(t, line, now).Ok?
    ensures Addressable(LoadLine(t, line, now).value)
  {
  }

  lemma LoadOneMore(lines: seq<string>, times: seq<int>, i: nat, now: int, t: Table)
    requires i == |times| < |lines| && LoadLines(lines[..i], times) == Ok(t)
    ensures LoadLines(lines[..i + 1], times + [now]) == LoadLine(t, lines[i], now)
  {
    assert lines[..i + 1][..i] == lines[..i];
    assert (times + [now])[..i] == times;
    LoadNext(lines[..i + 1], times + [now], t);
  }

  lemma FilledUp(lines: seq<string>, times: seq<int>, now: int, e: LoadError) returns (all: seq<int>)
    requires |times| <= |lines| && LoadLines(lines[..|times|], times) == Err(e)
    ensures |all| == |lines| && LoadLines(lines, all) == Err(e)
    ensures forall j | 0 <= j < |all| :: all[j] == if j < |times| then times[j] else now
  {
    all := times + seq(|lines| - |times|, _ => now);
    assert all[..|times|] == times;
    ErrorStays(lines, all, |times|, e);
  }

  lemma {:induction false} ErrorStays(lines: seq<string>, times: seq<int>, n: nat, e: LoadError)
    requires n <= |lines| == |times| && LoadLines(lines[..n], times[..n]) == Err(e)
    ensures LoadLines(lines, times) == Err(e)
    decreases |lines|
  {
    if n == |lines| {
      assert lines[..n] == lines && times[..n] == times;
    } else {
      var m := |lines| - 1;
      assert lines[..m][..n] == lines[..n] && times[..m][..n] == times[..n];
      ErrorStays(lines[..m], times[..m], n, e);
    }
  }

  /** Whatever table a file was saved from, that table is what loading yields. */
  lemma LoadedFromSaved(text: string, times: seq<int>, from: int, to: int)
    requires |times| == |Text.ScanLines(text)| && forall i | 0 <= i < |times| :: from <= times[i] <= to
    ensures forall t | Addressable(t) && IsSaved(text, t) && AllRestorable(t, from) ::
              LoadLines(Text.ScanLines(text), times).Ok?
                && Loaded(t, LoadLines(Text.ScanLines(text), times).value, from, to)
  {
    forall t | Addressable(t) && IsSaved(text, t) && AllRestorable(t, from)
      ensures LoadLines(Text.ScanLines(text), times).Ok?
              && Loaded(t, LoadLines(Text.ScanLines(text), times).value, from, to)
    {
      SaveThenLoad(text, t, times, from, to);
    }
  }
}
