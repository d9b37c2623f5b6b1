/**
 What a renewal does to the agent's machine: the address and routes of the link,
 brought up to date step by step from the last applied configuration, and the one
 peer of the WireGuard device.
 */
module AgentDevice {
  import opened Wrappers
  import opened Address
  import opened Keys
  import opened WgDevice

  /** `WirestewardPeerConfig`. */
  datatype Lease = Lease(peer: PeerConfig, localAddress: Prefix)

  /** The addresses and routes of the link; a route carries its gateway. */
  datatype Kernel = Kernel(addresses: set<Prefix>, routes: map<Prefix, Addr>)

  /** Which system calls fail: the link lookup, the address add, and the route adds
      with these indices; deleting what is there always succeeds. */
  datatype Faults = Faults(link: bool, addrAdd: bool, routeAdds: set<nat>)

  const NO_FAULTS := Faults(false, false, {})

  // ---------- comparing configurations ----------

  /** A lease as the server response is turned into one: nothing to remove or replace,
      no preshared key, and the one keepalive interval. */
  ghost predicate Received(l: Lease) {
    !l.peer.remove && !l.peer.replaceAllowedIPs && l.peer.presharedKey.None? && l.peer.keepalive == Some(KEEPALIVE)
  }

  /** `wirestewardPeerConfigsEqual`. */
  method ConfigsEqual(a: Option<Lease>, b: Option<Lease>) returns (r: bool)
    requires a.Some? ==> Received(a.value)
    requires b.Some? ==> Received(b.value)
    ensures r <==> a == b
  {
    if a.None? || b.None? {
      return a.None? && b.None?;
    }
    var x, y := a.value, b.value;
    if x.localAddress != y.localAddress || x.peer.key != y.peer.key || x.peer.endpoint != y.peer.endpoint {
      return false;
    }
    if |x.peer.allowedIPs| != |y.peer.allowedIPs| {
      return false;
    }
    var i := 0;
    while i < |x.peer.allowedIPs|
      invariant i <= |x.peer.allowedIPs|
      invariant forall j | 0 <= j < i :: x.peer.allowedIPs[j] == y.peer.allowedIPs[j]
    {
      if x.peer.allowedIPs[i] != y.peer.allowedIPs[i] {
        return false;
      }
      i := i + 1;
    }
    assert x.peer.allowedIPs == y.peer.allowedIPs;
    return true;
  }

  // ---------- the link ----------

  function Networks(l: Lease): set<Prefix> {
    set n | n in l.peer.allowedIPs
  }

  /** The routes added for the first `n` ranges. */
  function RoutesAdded(l: Lease, failing: set<nat>, n: nat): map<Prefix, Addr>
    requires n <= |l.peer.allowedIPs|
  {
    if n == 0 then map[]
    else
      var m := RoutesAdded(l, failing, n - 1);
      if n - 1 in failing then m else m[l.peer.allowedIPs[n - 1] := l.localAddress.addr]
  }

  function WithoutOld(k: Kernel, before: Option<Lease>): Kernel {
    match before
    case None => k
    case Some(o) => Kernel(k.addresses - {o.localAddress}, k.routes - Networks(o))
  }

  /** The kernel after `updateDeviceConfig`, and whether it reported success. */
  function Updated(k: Kernel, before: Option<Lease>, l: Lease, f: Faults): (Kernel, bool) {
    if f.link then (k, false)
    else
      var clean := WithoutOld(k, before);
      if f.addrAdd || l.localAddress in clean.addresses then (clean, false)
      else (Kernel(clean.addresses + {l.localAddress},
                   clean.routes + RoutesAdded(l, f.routeAdds, |l.peer.allowedIPs|)), true)
  }

  class Link {
    var addresses: set<Prefix>
    var routes: map<Prefix, Addr>

    constructor ()
      ensures addresses == {} && routes == map[]
    {
      addresses, routes := {}, map[];
    }

    ghost function State(): Kernel
      reads this
    {
      Kernel(addresses, routes)
    }

    /** Deletes a route; a missing one is only logged. */
    method RouteDel(n: Prefix)
      modifies this`routes
      ensures routes == old(routes) - {n}
    {
      routes := routes - {n};
    }

    method AddrDel(a: Prefix)
      modifies this`addresses
      ensures addresses == old(addresses) - {a}
    {
      addresses := addresses - {a};
    }

    /** Adding an address that is there is an error. */
    method AddrAdd(a: Prefix, fails: bool) returns (ok: bool)
      modifies this`addresses
      ensures ok <==> !fails && a !in old(addresses)
      ensures addresses == if ok then old(addresses) + {a} else old(addresses)
    {
      ok := !fails && a !in addresses;
      if ok {
        addresses := addresses + {a};
      }
    }

    method RouteReplace(n: Prefix, gw: Addr, fails: bool)
      modifies this`routes
      ensures routes == if fails then old(routes) else old(routes)[n := gw]
    {
      if !fails {
        routes := routes[n := gw];
      }
    }

    method UpdateDeviceConfig(oldConfig: Option<Lease>, config: Lease, f: Faults) returns (ok: bool)
      modifies this
      ensures (State(), ok) == Updated(old(State()), oldConfig, config, f)
    {
      if f.link {
        return false;
      }
      if oldConfig.Some? {
        var o := oldConfig.value;
        var i := 0;
        while i < |o.peer.allowedIPs|
          invariant i <= |o.peer.allowedIPs| && addresses == old(addresses)
          invariant routes == old(routes) - (set n | n in o.peer.allowedIPs[..i])
        {
          RouteDel(o.peer.allowedIPs[i]);
          assert o.peer.allowedIPs[..i + 1] == o.peer.allowedIPs[..i] + [o.peer.allowedIPs[i]];
          i := i + 1;
        }
        assert o.peer.allowedIPs[..i] == o.peer.allowedIPs;
        AddrDel(o.localAddress);
      }
      assert State() == WithoutOld(old(State()), oldConfig);
      ok := AddrAdd(config.localAddress, f.addrAdd);
      if ok {
        ghost var clean := routes;
        var i := 0;
        while i < |config.peer.allowedIPs|
          invariant i <= |config.peer.allowedIPs|
          invariant addresses == WithoutOld(old(State()), oldConfig).addresses + {config.localAddress}
          invariant routes == clean + RoutesAdded(config, f.routeAdds, i)
        {
          RouteReplace(config.peer.allowedIPs[i], config.localAddress.addr, i in f.routeAdds);
          i := i + 1;
        }
      }
    }
  }

  // ---------- a renewal ----------

  /** What the renewal loop keeps of a device: kernel, peers and last applied config. */
  datatype Agent = Agent(kernel: Kernel, peers: State, config: Option<Lease>)

  const FRESH := Agent(Kernel({}, map[]), State(map[], map[]), None)

  /** The device once `setPeers` succeeded with the one peer of the lease. */
  function OnePeer(d: State, c: PeerConfig): State {
    State(map[c.key := Configured(d, c)], map n | n in c.allowedIPs :: c.key)
  }

  lemma SetPeersLeavesOnePeer(d: State, c: PeerConfig, d': State)
    requires Agrees(d', [c]) && SettingsApplied(d, [c], 1, d')
    ensures d' == OnePeer(d, c)
  {
    var one := OnePeer(d, c);
    assert [c][0] == c;
    assert KeysOf([c]) == {c.key};
    assert d'.peers == one.peers;
    forall n
      ensures n in d'.owner <==> n in c.allowedIPs
      ensures n in d'.owner ==> d'.owner[n] == c.key
    {
      if n in d'.owner {
        assert Routes([c], n, d'.owner[n]);
      }
      if n in c.allowedIPs {
        assert Routes([c], n, c.key);
      }
    }
    assert d'.owner == one.owner;
  }

  /** The part of `renewLease` after the response, with every call made; a call that sets
      the peer may fail after some of its changes. */
  ghost predicate Apply(a: Agent, l: Lease, f: Faults, peersFault: Option<nat>, a': Agent) {
    var (k, ok) := Updated(a.kernel, a.config, l, f);
    && a'.kernel == k
    && a'.config == (if ok then Some(l) else a.config)
    && PeersAfter(a.peers, l.peer, peersFault, a'.peers)
  }

  ghost predicate PeersAfter(d: State, c: PeerConfig, fault: Option<nat>, d': State) {
    if fault.None? then d' == OnePeer(d, c) else SetUpTo(d, [c], fault, d')
  }

  lemma OneEntry(d: State, c: PeerConfig, plan: seq<PeerConfig>)
    requires !c.remove && RemovesOnce(d.peers.Keys, [c], plan)
    ensures Wanted([c]) && KeysOf([c]) == {c.key} && |plan| == 1 + |d.peers.Keys - {c.key}|
  {
    assert [c][0] == c;
  }

  lemma WholePlanSetsOnePeer(d: State, c: PeerConfig, plan: seq<PeerConfig>)
    requires d.Valid() && !c.remove && IsWholePlan(d.peers.Keys, [c], plan)
    ensures ApplyAll(d, plan) == OnePeer(d, c)
  {
    OneEntry(d, c, plan);
    PlanReconciles(d, [c], plan);
    PlanAppliesSettings(d, [c], plan, |plan|);
    assert plan[..|plan|] == plan;
    SetPeersLeavesOnePeer(d, c, ApplyAll(d, plan));
  }

  lemma SetUpIsPeersAfter(d: State, c: PeerConfig, fault: Option<nat>, d': State)
    requires d.Valid() && !c.remove
    ensures SetUpTo(d, [c], fault, d') ==> PeersAfter(d, c, fault, d')
  {
    if fault.None? && SetUpTo(d, [c], fault, d') {
      var plan :| SetsUp(d, [c], plan, fault, d');
      WholePlanIsTaken(d, c, plan, d');
    }
  }

  lemma WholePlanIsTaken(d: State, c: PeerConfig, plan: seq<PeerConfig>, d': State)
    requires d.Valid() && !c.remove && SetsUp(d, [c], plan, None, d')
    ensures d' == OnePeer(d, c)
  {
    assert plan[..|plan|] == plan;
    WholePlanSetsOnePeer(d, c, plan);
  }

  /** The same, skipping everything when the response is the last applied config. */
  ghost predicate Renew(a: Agent, l: Lease, f: Faults, peersFault: Option<nat>, a': Agent) {
    if a.config == Some(l) then a' == a else Apply(a, l, f, peersFault, a')
  }

  class DeviceManager {
    const link: Link
    const device: Device
    var config: Option<Lease>

    constructor ()
      ensures fresh(link) && fresh(device) && Abstract() == FRESH
    {
      link := new Link();
      device := new Device();
      config := None;
    }

    ghost function Abstract(): Agent
      reads this, link, device
    {
      Agent(link.State(), device.state, config)
    }

    /** Applies a received lease unless it is the one in force. */
    method ApplyLease(l: Lease, f: Faults, peersFault: Option<nat>) returns (ok: bool)
      requires Received(l) && device.state.Valid() && (config.Some? ==> Received(config.value))
      modifies this`config, link, device
      ensures device.state.Valid() && (config.Some? ==> Received(config.value))
      ensures Renew(old(Abstract()), l, f, peersFault, Abstract())
      ensures ok <==> peersFault.None? || old(config) == Some(l)
    {
      var equal := ConfigsEqual(config, Some(l));
      ok := true;
      if !equal {
        var updated := link.UpdateDeviceConfig(config, l, f);
        if updated {
          config := Some(l);
        }
        ghost var before := device.state;
        ok := device.SetPeers([l.peer], peersFault);
        SetUpIsPeersAfter(before, l.peer, peersFault, device.state);
      }
    }
  }

  // ---------- the kernel follows the config ----------

  /** The link holds nothing that the last applied config does not explain. */
  ghost predicate Tracks(k: Kernel, c: Option<Lease>) {
    match c
    case None => k == Kernel({}, map[])
    case Some(l) =>
      && k.addresses <= {l.localAddress}
      && forall n | n in k.routes :: n in l.peer.allowedIPs && k.routes[n] == l.localAddress.addr
  }

  /** The link holds exactly what the lease asks for. */
  ghost predicate Exact(k: Kernel, l: Lease) {
    && k.addresses == {l.localAddress}
    && k.routes.Keys == Networks(l)
    && forall n | n in k.routes :: k.routes[n] == l.localAddress.addr
  }

  /** Range `r` of the lease was among the first `n` and its route add did not fail. */
  ghost predicate RouteWasAdded(l: Lease, failing: set<nat>, n: nat, r: Prefix)
    requires n <= |l.peer.allowedIPs|
  {
    exists i :: 0 <= i < n && i !in failing && l.peer.allowedIPs[i] == r
  }

  lemma {:induction false} RoutesAddedAre(l: Lease, failing: set<nat>, n: nat)
    requires n <= |l.peer.allowedIPs|
    ensures forall r :: r in RoutesAdded(l, failing, n) <==> RouteWasAdded(l, failing, n, r)
    ensures forall r | r in RoutesAdded(l, failing, n) :: RoutesAdded(l, failing, n)[r] == l.localAddress.addr
  {
    if n > 0 {
      RoutesAddedAre(l, failing, n - 1);
      forall r
        ensures RouteWasAdded(l, failing, n, r) <==>
                RouteWasAdded(l, failing, n - 1, r) || (n - 1 !in failing && l.peer.allowedIPs[n - 1] == r)
      {
        if RouteWasAdded(l, failing, n - 1, r) {
          var i :| 0 <= i < n - 1 && i !in failing && l.peer.allowedIPs[i] == r;
          assert i < n && l.peer.allowedIPs[i] == r;
        }
      }
    }
  }

  lemma AllRoutesAdded(l: Lease)
    ensures RoutesAdded(l, {}, |l.peer.allowedIPs|).Keys == Networks(l)
  {
    RoutesAddedAre(l, {}, |l.peer.allowedIPs|);
    forall n | n in Networks(l)
      ensures RouteWasAdded(l, {}, |l.peer.allowedIPs|, n)
    {
      var i :| 0 <= i < |l.peer.allowedIPs| && l.peer.allowedIPs[i] == n;
    }
  }

  /** What one update leaves: the lease's address and those of its routes whose add did
      not fail, if it succeeds, and nothing if it had to give up after the clean-up. */
  lemma UpdateTracks(k: Kernel, c: Option<Lease>, l: Lease, f: Faults)
    requires Tracks(k, c)
    ensures var (k', ok) := Updated(k, c, l, f);
            && Tracks(k', if ok then Some(l) else c)
            && (ok <==> !f.link && !f.addrAdd)
            && (ok ==> k'.addresses == {l.localAddress})
            && (ok ==> forall n :: n in k'.routes <==> RouteWasAdded(l, f.routeAdds, |l.peer.allowedIPs|, n))
            && (!ok ==> k' == if f.link then k else Kernel({}, map[]))
            && (f == NO_FAULTS ==> Exact(k', l))
  {
    RoutesAddedAre(l, f.routeAdds, |l.peer.allowedIPs|);
    AllRoutesAdded(l);
    assert !f.link ==> WithoutOld(k, c) == Kernel({}, map[]);
  }

  datatype Response = Response(lease: Lease, faults: Faults, peersFault: Option<nat>)

  ghost predicate Run(states: seq<Agent>, rs: seq<Response>) {
    && |states| == |rs| + 1 && states[0] == FRESH
    && forall i: nat | i < |rs| :: RenewsAt(states, rs, i)
  }

  ghost predicate RenewsAt(states: seq<Agent>, rs: seq<Response>, i: nat)
    requires i < |rs| && |states| == |rs| + 1
  {
    Renew(states[i], rs[i].lease, rs[i].faults, rs[i].peersFault, states[i + 1])
  }

  /** Over any run of renewals, whatever link lookups, address adds and route adds
      fail, the link holds nothing but addresses and routes of the last applied
      config; and an update in which no add failed leaves exactly those. */
  lemma {:induction false} KernelTracksConfig(states: seq<Agent>, rs: seq<Response>, i: nat)
    requires Run(states, rs) && i < |states|
    ensures Tracks(states[i].kernel, states[i].config)
    ensures i > 0 && rs[i - 1].faults == NO_FAULTS && states[i - 1].config != Some(rs[i - 1].lease) ==>
              states[i].config == Some(rs[i - 1].lease) && Exact(states[i].kernel, rs[i - 1].lease)
  {
    if i > 0 {
      KernelTracksConfig(states, rs, i - 1);
      assert RenewsAt(states, rs, i - 1);
      UpdateTracks(states[i - 1].kernel, states[i - 1].config, rs[i - 1].lease, rs[i - 1].faults);
    }
  }

  /** No address and no route of an earlier lease survives one that was applied. */
  lemma EarlierLeaseIsGone(states: seq<Agent>, rs: seq<Response>, i: nat, j: nat)
    requires Run(states, rs) && i < j < |states| && states[i].config.Some? && states[j].config.Some?
    ensures states[i].config.value.localAddress != states[j].config.value.localAddress ==>
              states[i].config.value.localAddress !in states[j].kernel.addresses
    ensures forall n | n in states[i].config.value.peer.allowedIPs && n !in states[j].config.value.peer.allowedIPs ::
            n !in states[j].kernel.routes
  {
    KernelTracksConfig(states, rs, j);
  }

  // ---------- skipping refines always applying ----------

  /** Two runs over the same responses without failures: one skips, one does not. */
  ghost predicate BothRun(skip: seq<Agent>, always: seq<Agent>, leases: seq<Lease>) {
    && |skip| == |always| == |leases| + 1
    && skip[0] == FRESH && always[0] == FRESH
    && forall i | 0 <= i < |leases| ::
         && Renew(skip[i], leases[i], NO_FAULTS, None, skip[i + 1])
         && Apply(always[i], leases[i], NO_FAULTS, None, always[i + 1])
  }

  ghost predicate Settled(a: Agent) {
    a.config.Some? ==> Exact(a.kernel, a.config.value) && PeerIsSet(a.peers, a.config.value.peer)
  }

  lemma ReapplyingChangesNothing(a: Agent, a': Agent)
    requires a.config.Some? && Settled(a) && Apply(a, a.config.value, NO_FAULTS, None, a')
    ensures a' == a
  {
    var l := a.config.value;
    RoutesAddedAre(l, {}, |l.peer.allowedIPs|);
    AllRoutesAdded(l);
    assert WithoutOld(a.kernel, a.config) == Kernel({}, map[]);
    assert a'.kernel.routes == a.kernel.routes;
  }

  /** Skipping an equal config refines always updating: after any sequence of
      responses the two runs are in the same state: addresses, routes, peers. */
  lemma {:induction false} SkippingRefinesUpdating(skip: seq<Agent>, always: seq<Agent>, leases: seq<Lease>, i: nat)
    requires BothRun(skip, always, leases) && i < |skip|
    ensures skip[i] == always[i] && Settled(skip[i]) && Tracks(skip[i].kernel, skip[i].config)
    ensures i > 0 ==> skip[i].config == Some(leases[i - 1])
  {
    if i > 0 {
      SkippingRefinesUpdating(skip, always, leases, i - 1);
      var a, l := skip[i - 1], leases[i - 1];
      if a.config == Some(l) {
        ReapplyingChangesNothing(a, always[i]);
      } else {
        UpdateTracks(a.kernel, a.config, l, NO_FAULTS);
        assert OnePeer(OnePeer(a.peers, l.peer), l.peer) == OnePeer(a.peers, l.peer);
      }
    }
  }

  /** The peer part of a configuration is on the device as `c` wants it. */
  ghost predicate PeerIsSet(d: State, c: PeerConfig) {
    d == OnePeer(d, c)
  }

  /** Setting `o` leaves the peer as `c` wants it if and only if the two have the same key
      and ranges and no setting of `c` comes out differently. */
  ghost predicate SetsTheSame(d: State, o: PeerConfig, c: PeerConfig) {
    && o.key == c.key
    && (forall n :: n in o.allowedIPs <==> n in c.allowedIPs)
    && (c.endpoint.Some? ==> Configured(d, o).endpoint == c.endpoint)
    && (c.presharedKey.Some? ==> Configured(d, o).presharedKey == c.presharedKey)
    && (c.keepalive.Some? ==> Configured(d, o).keepalive == c.keepalive)
  }

  lemma SettingAnother(d: State, o: PeerConfig, c: PeerConfig)
    ensures PeerIsSet(OnePeer(d, o), c) <==> SetsTheSame(d, o, c)
  {
    var one := OnePeer(d, o);
    var two := OnePeer(one, c);
    assert forall n :: n in one.owner <==> n in o.allowedIPs;
    assert forall n :: n in two.owner <==> n in c.allowedIPs;
    assert one.peers == map[o.key := Configured(d, o)] && two.peers == map[c.key := Configured(one, c)];
    if PeerIsSet(one, c) {
      assert one.peers == two.peers && one.owner == two.owner;
      assert o.key in one.peers && o.key in two.peers;
      assert Configured(d, o) == Configured(one, c);
    }
    if SetsTheSame(d, o, c) {
      assert one.owner == two.owner;
      assert Configured(one, c) == Configured(d, o);
      assert one.peers == two.peers;
    }
  }

  /** Where it stops refining: the peer is set even when the link update failed and the
      configuration was not recorded. If the next response is the recorded configuration
      again, it is skipped. Address, routes and peer are then as that configuration wants
      them if and only if it was the link that could not be found, so that nothing was
      torn down, and the other response had the same key and ranges and named no other
      endpoint. When the address add failed they never are. */
  lemma SkipAfterFailedUpdate(
    a: Agent, other: Lease, f: Faults, a1: Agent, g: Faults, peersFault: Option<nat>, a2: Agent)
    requires a.config.Some? && Settled(a) && other != a.config.value
    requires Received(other) && Received(a.config.value)
    requires f.link || f.addrAdd
    requires Renew(a, other, f, None, a1) && Renew(a1, a.config.value, g, peersFault, a2)
    ensures a2.config == a.config
    ensures Exact(a2.kernel, a.config.value) <==> f.link
    ensures Settled(a2) <==>
            && f.link
            && other.peer.key == a.config.value.peer.key && Networks(other) == Networks(a.config.value)
            && (a.config.value.peer.endpoint.Some? && other.peer.endpoint.Some? ==>
               other.peer.endpoint == a.config.value.peer.endpoint)
  {
    var l := a.config.value;
    UpdateTracks(a.kernel, a.config, other, f);
    SettingAnother(a.peers, other.peer, l.peer);
    SameSettings(a.peers, other, l);
  }

  lemma SameSettings(d: State, o: Lease, l: Lease)
    requires PeerIsSet(d, l.peer) && Received(o) && Received(l)
    ensures SetsTheSame(d, o.peer, l.peer) <==>
            && o.peer.key == l.peer.key && Networks(o) == Networks(l)
            && (l.peer.endpoint.Some? && o.peer.endpoint.Some? ==> o.peer.endpoint == l.peer.endpoint)
  {
    assert d.peers[l.peer.key] == Configured(d, l.peer);
    assert Networks(o) == Networks(l) <==> forall n :: n in o.peer.allowedIPs <==> n in l.peer.allowedIPs by {
      if forall n :: n in o.peer.allowedIPs <==> n in l.peer.allowedIPs {
        assert Networks(o) == Networks(l);
      }
      forall n
        ensures n in Networks(o) <==> n in o.peer.allowedIPs
        ensures n in Networks(l) <==> n in l.peer.allowedIPs
      {
      }
    }
  }

  // ---------- the peer over a whole run ----------

  /** The last response before state `i` that was not skipped. */
  ghost function LastApplied(states: seq<Agent>, rs: seq<Response>, i: nat): Option<nat>
    requires i < |states| == |rs| + 1
  {
    if i == 0 then None
    else if states[i - 1].config == Some(rs[i - 1].lease) then LastApplied(states, rs, i - 1)
    else Some(i - 1)
  }

  /** Nothing changes between one response that is applied and the next. */
  lemma {:induction false} SkippedChangesNothing(states: seq<Agent>, rs: seq<Response>, i: nat)
    requires Run(states, rs) && i < |states|
    ensures match LastApplied(states, rs, i)
            case None => states[i] == FRESH
            case Some(j) =>
              j < i && states[i] == states[j + 1] && states[j].config != Some(rs[j].lease)
  {
    if i > 0 {
      SkippedChangesNothing(states, rs, i - 1);
      SkippedStays(states, rs, i - 1);
    }
  }

  lemma SkippedStays(states: seq<Agent>, rs: seq<Response>, i: nat)
    requires Run(states, rs) && i < |rs|
    ensures states[i].config == Some(rs[i].lease) ==> states[i + 1] == states[i]
  {
    assert RenewsAt(states, rs, i);
  }

  lemma AppliedIsRecorded(states: seq<Agent>, rs: seq<Response>, j: nat)
    requires Run(states, rs) && j < |rs| && states[j].config != Some(rs[j].lease)
    requires !rs[j].faults.link && !rs[j].faults.addrAdd
    ensures states[j + 1].config == Some(rs[j].lease)
  {
    KernelTracksConfig(states, rs, j);
    assert RenewsAt(states, rs, j);
    UpdateTracks(states[j].kernel, states[j].config, rs[j].lease, rs[j].faults);
  }

  lemma AppliedSetsPeer(states: seq<Agent>, rs: seq<Response>, j: nat)
    requires Run(states, rs) && j < |rs|
    ensures states[j].config != Some(rs[j].lease) ==>
              PeersAfter(states[j].peers, rs[j].lease.peer, rs[j].peersFault, states[j + 1].peers)
  {
    assert RenewsAt(states, rs, j);
  }

  lemma PartOfPlanLeavesTwo(d: State, c: PeerConfig, plan: seq<PeerConfig>, n: nat, w: PeerConfig)
    requires !c.remove && IsWholePlan(d.peers.Keys, [c], plan) && 0 < n < |plan|
    ensures !PeerIsSet(ApplyAll(d, plan[..n]), w)
  {
    OneEntry(d, c, plan);
    var k := UnwantedPeerIsLeft(d, [c], plan, n);
    PlanMovesPeers(d, [c], plan, n);
    WantedKeysAreDone(d.peers.Keys, [c], plan);
    TwoPeersAreNotOne(ApplyAll(d, plan[..n]), c.key, k, w);
  }

  lemma TwoPeersAreNotOne(s: State, a: Key, b: Key, w: PeerConfig)
    requires a in s.peers && b in s.peers && a != b
    ensures !PeerIsSet(s, w)
  {
    assert OnePeer(s, w).peers.Keys == {w.key};
  }

  /** A failed `setPeers` leaves the peer as `w` wants it if and only if it was so and no
      change was made, or all changes were made and set the same. */
  lemma FailedCallSetsExactlyWhen(d: State, c: PeerConfig, n: nat, d': State, w: PeerConfig)
    requires d.Valid() && !c.remove && SetUpTo(d, [c], Some(n), d')
    ensures PeerIsSet(d', w) <==>
            if n == 0 then PeerIsSet(d, w) else n > |d.peers.Keys - {c.key}| && SetsTheSame(d, c, w)
  {
    var plan :| SetsUp(d, [c], plan, Some(n), d');
    OneEntry(d, c, plan);
    if n == 0 {
      assert plan[..0] == [];
    } else if n < |plan| {
      PartOfPlanLeavesTwo(d, c, plan, n, w);
    } else {
      assert plan[..|plan|] == plan;
      WholePlanSetsOnePeer(d, c, plan);
      SettingAnother(d, c, w);
    }
  }

  lemma {:induction false} PeersStayValid(states: seq<Agent>, rs: seq<Response>, i: nat)
    requires Run(states, rs) && i < |states|
    ensures states[i].peers.Valid()
  {
    if i > 0 {
      PeersStayValid(states, rs, i - 1);
      SkippedStays(states, rs, i - 1);
      AppliedSetsPeer(states, rs, i - 1);
      if states[i - 1].config != Some(rs[i - 1].lease) {
        PeersAfterIsValid(states[i - 1].peers, rs[i - 1].lease.peer, rs[i - 1].peersFault, states[i].peers);
      }
    }
  }

  lemma PeersAfterIsValid(d: State, c: PeerConfig, fault: Option<nat>, d': State)
    requires d.Valid() && PeersAfter(d, c, fault, d')
    ensures d'.Valid()
  {
    if fault.Some? {
      SetUpToKeepsValid(d, [c], fault, d');
    }
  }

  /** When the peer of response `q`, applied to the peers `d`, is right for `w`. */
  ghost predicate LeavesPeerSet(d: State, q: Response, w: PeerConfig) {
    match q.peersFault
    case None => SetsTheSame(d, q.lease.peer, w)
    case Some(n) =>
      if n == 0 then PeerIsSet(d, w)
      else n > |d.peers.Keys - {q.lease.peer.key}| && SetsTheSame(d, q.lease.peer, w)
  }

  /** Over any run of responses and failures, exactly when the peer on the device is that of
      the recorded configuration, from the peers before the last response that was not
      skipped: if all changes of its call were made, when that sets the same; if none was,
      when the peer was right before; and otherwise never. No later response that is
      skipped repairs it. */
  lemma PeerFollowsConfig(states: seq<Agent>, rs: seq<Response>, i: nat)
    requires Run(states, rs) && i < |states| && states[i].config.Some?
    requires forall k | 0 <= k < |rs| :: Received(rs[k].lease)
    ensures var c := states[i].config.value.peer;
            match LastApplied(states, rs, i)
            case None => false
            case Some(j) =>
              && j < i
              && (PeerIsSet(states[i].peers, c) <==> LeavesPeerSet(states[j].peers, rs[j], c))
              && (!rs[j].faults.link && !rs[j].faults.addrAdd ==> states[i].config == Some(rs[j].lease))
  {
    SkippedChangesNothing(states, rs, i);
    AppliedPeerFollows(states, rs, LastApplied(states, rs, i).value, states[i].config.value.peer);
  }

  lemma AppliedPeerFollows(states: seq<Agent>, rs: seq<Response>, j: nat, w: PeerConfig)
    requires Run(states, rs) && j < |rs| && states[j].config != Some(rs[j].lease) && Received(rs[j].lease)
    ensures PeerIsSet(states[j + 1].peers, w) <==> LeavesPeerSet(states[j].peers, rs[j], w)
    ensures !rs[j].faults.link && !rs[j].faults.addrAdd ==> states[j + 1].config == Some(rs[j].lease)
  {
    PeersStayValid(states, rs, j);
    AppliedSetsPeer(states, rs, j);
    PeersAfterExactlyWhen(states[j].peers, rs[j], states[j + 1].peers, w);
    if !rs[j].faults.link && !rs[j].faults.addrAdd {
      AppliedIsRecorded(states, rs, j);
    }
  }

  lemma PeersAfterExactlyWhen(d: State, q: Response, d': State, w: PeerConfig)
    requires d.Valid() && !q.lease.peer.remove && PeersAfter(d, q.lease.peer, q.peersFault, d')
    ensures PeerIsSet(d', w) <==> LeavesPeerSet(d, q, w)
  {
    match q.peersFault
    case None => SettingAnother(d, q.lease.peer, w);
    case Some(n) => FailedCallSetsExactlyWhen(d, q.lease.peer, n, d', w);
  }

  /** In particular, a peer that could not be set after the link was updated is not
      retried, however often the same response comes back. */
  lemma {:induction false} FailedPeerIsNotRetried(states: seq<Agent>, rs: seq<Response>, j: nat, i: nat)
    requires Run(states, rs) && j < i < |states|
    requires states[j].config != Some(rs[j].lease) && !rs[j].faults.link && !rs[j].faults.addrAdd
    requires forall k | j < k < i :: rs[k].lease == rs[j].lease
    ensures states[i] == states[j + 1] && states[i].config == Some(rs[j].lease)
  {
    if i == j + 1 {
      AppliedIsRecorded(states, rs, j);
    } else {
      FailedPeerIsNotRetried(states, rs, j, i - 1);
      SkippedStays(states, rs, i - 1);
    }
  }
}
