/**
 The WireGuard device as a cryptokey-routing table, and `setPeers`, which turns
 a wanted peer list into a list of changes and applies it in order. Assigning an
 allowed IP to a peer takes it away from the peer that had it, so the order of
 the changes matters.
 */
module WgDevice {
  import opened Wrappers
  import opened Address
  import opened Keys

  /** What a peer is set up with; the keepalive interval is in seconds. */
  datatype Peer = Peer(endpoint: Option<string>, presharedKey: Option<Key>, keepalive: Option<nat>)

  const NO_SETTINGS := Peer(None, None, None)

  const KEEPALIVE: nat := 25

  /** `owner` maps each allowed IP range to the one peer it routes to. */
  datatype State = State(peers: map<Key, Peer>, owner: map<Prefix, Key>) {
    ghost predicate Valid() {
      forall n | n in owner :: owner[n] in peers
    }
  }

  datatype PeerConfig = PeerConfig(
    key: Key, remove: bool, replaceAllowedIPs: bool,
    presharedKey: Option<Key>, endpoint: Option<string>, allowedIPs: seq<Prefix>, keepalive: Option<nat>)

  function Removal(k: Key): PeerConfig {
    PeerConfig(k, true, false, None, None, [], None)
  }

  // ---------- what a configuration entry contains ----------

  /** The network of a CIDR, as `net.ParseCIDR` returns it: host bits cleared. */
  function NetworkOf(p: Prefix): Prefix
    requires p.Valid()
  {
    Prefix(p.Masked(), p.bits)
  }

  /** It has the same addresses, and is written as the least of them. */
  lemma NetworkIsCanonical(p: Prefix, a: Addr)
    requires p.Valid() && a.Valid()
    ensures NetworkOf(p).Valid() && NetworkOf(p).bits == p.bits
    ensures NetworkOf(p).Contains(a) <==> p.Contains(a)
    ensures p.Contains(NetworkOf(p).addr) && (p.Contains(a) ==> NetworkOf(p).addr.value <= a.value)
  {
    EndsAreValid(p);
    if a.family == p.addr.family {
      ContainsIsRange(p, a);
    }
  }

  /** So CIDRs of one length have one network exactly when they overlap. */
  lemma SameNetworkExactlyWhen(p: Prefix, q: Prefix)
    requires p.Valid() && q.Valid() && p.bits == q.bits
    ensures NetworkOf(p) == NetworkOf(q) <==> q.Contains(p.addr)
  {
    if NetworkOf(p) == NetworkOf(q) {
      SameStart(p, q);
    }
  }

  lemma SameStart(p: Prefix, q: Prefix)
    requires p.Valid() && q.Valid() && NetworkOf(p) == NetworkOf(q)
    ensures q.Contains(p.addr)
  {
    EndsAreValid(p);
    ContainsIsRange(p, p.addr);
    ContainsIsRange(q, p.addr);
  }

  /** An endpoint as the caller gives it, and what name resolution makes of it. */
  datatype Endpoint = NoEndpoint | Unresolvable | Resolved(address: string)

  datatype ConfigError = BadKey | BadPresharedKey | BadEndpoint | BadCIDR

  /** The first thing wrong with the arguments, in the order in which the code looks. */
  ghost predicate IsConfigError(
      e: ConfigError, publicKey: string, presharedKey: string, endpoint: Endpoint, allowedIPs: seq<Option<Prefix>>) {
    match e
    case BadKey => ParseKey(publicKey).None?
    case BadPresharedKey => ParseKey(publicKey).Some? && presharedKey != "" && ParseKey(presharedKey).None?
    case BadEndpoint =>
      ParseKey(publicKey).Some? && (presharedKey == "" || ParseKey(presharedKey).Some?) && endpoint.Unresolvable?
    case BadCIDR =>
      && ParseKey(publicKey).Some? && (presharedKey == "" || ParseKey(presharedKey).Some?) && !endpoint.Unresolvable?
      && None in allowedIPs
  }

  /** `newPeerConfig`, given what each CIDR parses as. It fails exactly when something is
      wrong with an argument; otherwise the entry says what the arguments do. */
  method NewPeerConfig(publicKey: string, presharedKey: string, endpoint: Endpoint, allowedIPs: seq<Option<Prefix>>)
    returns (r: Result<PeerConfig, ConfigError>)
    requires forall i | 0 <= i < |allowedIPs| && allowedIPs[i].Some? :: allowedIPs[i].value.Valid()
    ensures r.Err? ==> IsConfigError(r.error, publicKey, presharedKey, endpoint, allowedIPs)
    ensures r.Ok? ==>
            && Some(r.value.key) == ParseKey(publicKey)
            && r.value.presharedKey == (if presharedKey == "" then None else ParseKey(presharedKey))
            && (presharedKey != "" ==> r.value.presharedKey.Some?)
            && r.value.endpoint == (if endpoint.Resolved? then Some(endpoint.address) else None)
            && !endpoint.Unresolvable?
            && !r.value.remove && !r.value.replaceAllowedIPs && r.value.keepalive == Some(25)
            && |r.value.allowedIPs| == |allowedIPs|
            && forall i | 0 <= i < |allowedIPs| ::
                 allowedIPs[i].Some? && r.value.allowedIPs[i] == NetworkOf(allowedIPs[i].value)
  {
    var key := ParseKey(publicKey);
    if key.None? {
      return Err(BadKey);
    }
    var psk := None;
    if presharedKey != "" {
      psk := ParseKey(presharedKey);
      if psk.None? {
        return Err(BadPresharedKey);
      }
    }
    var address := None;
    match endpoint {
      case NoEndpoint =>
      case Unresolvable => return Err(BadEndpoint);
      case Resolved(a) => address := Some(a);
    }
    var networks := [];
    var i := 0;
    while i < |allowedIPs|
      invariant i == |networks| <= |allowedIPs|
      invariant forall j | 0 <= j < i :: allowedIPs[j].Some? && networks[j] == NetworkOf(allowedIPs[j].value)
    {
      if allowedIPs[i].None? {
        return Err(BadCIDR);
      }
      networks := networks + [NetworkOf(allowedIPs[i].value)];
      i := i + 1;
    }
    return Ok(PeerConfig(key.value, false, false, psk, address, networks, Some(KEEPALIVE)));
  }

  // ---------- what the device does with a configuration ----------

  /** The settings of a peer once `c` is applied: those `c` names, and its old ones. */
  function Configured(d: State, c: PeerConfig): Peer {
    var before := if c.key in d.peers then d.peers[c.key] else NO_SETTINGS;
    Peer(if c.endpoint.Some? then c.endpoint else before.endpoint,
         if c.presharedKey.Some? then c.presharedKey else before.presharedKey,
         if c.keepalive.Some? then c.keepalive else before.keepalive)
  }

  function ApplyOne(d: State, c: PeerConfig): State {
    if c.remove then
      State(d.peers - {c.key}, map n | n in d.owner && d.owner[n] != c.key :: d.owner[n])
    else
      var kept := if c.replaceAllowedIPs then map n | n in d.owner && d.owner[n] != c.key :: d.owner[n] else d.owner;
      State(d.peers[c.key := Configured(d, c)], kept + map n | n in c.allowedIPs :: c.key)
  }

  function ApplyAll(d: State, plan: seq<PeerConfig>): State {
    if plan == [] then d else ApplyOne(ApplyAll(d, plan[..|plan| - 1]), plan[|plan| - 1])
  }

  // ---------- what the caller wants ----------

  ghost predicate DistinctKeys(desired: seq<PeerConfig>) {
    forall i, j | 0 <= i < j < |desired| :: desired[i].key != desired[j].key
  }

  ghost predicate NoRemovals(desired: seq<PeerConfig>) {
    forall i | 0 <= i < |desired| :: !desired[i].remove
  }

  /** Nothing to remove, and no range is asked for twice. */
  ghost predicate Disjoint(desired: seq<PeerConfig>) {
    && NoRemovals(desired)
    && (forall i, j, n | 0 <= i < |desired| && 0 <= j < |desired|
                         && n in desired[i].allowedIPs && n in desired[j].allowedIPs :: i == j)
  }

  ghost predicate Wanted(desired: seq<PeerConfig>) {
    DistinctKeys(desired) && Disjoint(desired)
  }

  ghost function KeysOf(desired: seq<PeerConfig>): set<Key> {
    set i | 0 <= i < |desired| :: desired[i].key
  }

  ghost function Elements(s: seq<Key>): set<Key> {
    set k | k in s
  }

  /** `k` is wanted and `n` is to route to it. */
  ghost predicate Routes(desired: seq<PeerConfig>, n: Prefix, k: Key) {
    exists i :: 0 <= i < |desired| && desired[i].key == k && n in desired[i].allowedIPs
  }

  /** The device agrees with the wanted list: same peers, same routing. */
  ghost predicate Agrees(d: State, desired: seq<PeerConfig>) {
    && d.Valid()
    && d.peers.Keys == KeysOf(desired)
    && (forall n, k :: n in d.owner && d.owner[n] == k <==> Routes(desired, n, k))
  }

  // ---------- the plan ----------

  /** The i-th wanted entry as `setPeers` sends it: its ranges replace the peer's old
      ones if the search for some peer of the device got as far as this entry. */
  ghost function Marked(existing: set<Key>, desired: seq<PeerConfig>, i: nat): PeerConfig
    requires i < |desired|
  {
    desired[i].(replaceAllowedIPs := desired[i].replaceAllowedIPs || !(existing <= KeysOf(desired[..i])))
  }

  /** What the nested loop of `setPeers` builds for the peers found on the device. */
  ghost predicate IsPlan(existing: set<Key>, desired: seq<PeerConfig>, plan: seq<PeerConfig>) {
    && |desired| <= |plan|
    && (forall i | 0 <= i < |desired| :: plan[i] == Marked(existing, desired, i))
    && (forall i | |desired| <= i < |plan| ::
          plan[i].remove && plan[i].key in existing && plan[i].key !in KeysOf(desired))
    && (forall k | k in existing && k !in KeysOf(desired) :: exists i :: |desired| <= i < |plan| && plan[i].key == k)
  }

  /** No peer is removed twice. */
  ghost predicate RemovesOnce(existing: set<Key>, desired: seq<PeerConfig>, plan: seq<PeerConfig>) {
    |plan| == |desired| + |existing - KeysOf(desired)|
  }

  ghost predicate IsWholePlan(existing: set<Key>, desired: seq<PeerConfig>, plan: seq<PeerConfig>) {
    IsPlan(existing, desired, plan) && RemovesOnce(existing, desired, plan)
  }

  /** One search for `k`: it marks the entries up to the first with that key. */
  ghost predicate Searched(before: seq<PeerConfig>, k: Key, plan: seq<PeerConfig>) {
    && |plan| == |before|
    && forall i | 0 <= i < |before| ::
         plan[i] == before[i].(replaceAllowedIPs := before[i].replaceAllowedIPs || k !in KeysOf(before[..i]))
  }

  method BuildPlan(existing: seq<Key>, desired: seq<PeerConfig>) returns (plan: seq<PeerConfig>)
    ensures IsWholePlan(Elements(existing), desired, plan)
  {
    plan := desired;
    ghost var done := {};
    NothingPlanned(desired);
    var e := 0;
    while e < |existing|
      invariant e <= |existing|
      invariant done == Elements(existing[..e]) && IsWholePlan(done, desired, plan)
    {
      ghost var before := plan;
      var found;
      plan, found := Search(plan, existing[e]);
      ghost var searched := plan;
      if !found {
        plan := plan + [Removal(existing[e])];
      }
      ElementsNext(existing, e);
      WholePlanGrows(done, existing[e], desired, before, searched, plan);
      done := done + {existing[e]};
      e := e + 1;
    }
    assert existing[..e] == existing;
  }

  lemma NothingPlanned(desired: seq<PeerConfig>)
    ensures IsWholePlan({}, desired, desired)
  {
    assert forall i | 0 <= i < |desired| :: Marked({}, desired, i) == desired[i];
    assert {} - KeysOf(desired) == {};
  }

  lemma WholePlanGrows(
      done: set<Key>, k: Key, desired: seq<PeerConfig>, before: seq<PeerConfig>, searched: seq<PeerConfig>,
        plan: seq<PeerConfig>)
    requires IsWholePlan(done, desired, before) && Searched(before, k, searched)
    requires plan == if k in KeysOf(before) then searched else searched + [Removal(k)]
    ensures IsWholePlan(done + {k}, desired, plan)
  {
    PlanGrows(done, k, desired, before, searched, plan);
    RemovesOneMore(done, k, desired, before, plan);
  }

  /** The inner loop. */
  method Search(peers: seq<PeerConfig>, k: Key) returns (plan: seq<PeerConfig>, found: bool)
    ensures Searched(peers, k, plan) && (found <==> k in KeysOf(peers))
  {
    plan, found := peers, false;
    var i := 0;
    while i < |peers|
      invariant i <= |peers| == |plan|
      invariant forall j | 0 <= j < i :: plan[j] == peers[j].(replaceAllowedIPs := true) && peers[j].key != k
      invariant forall j | i <= j < |peers| :: plan[j] == peers[j]
    {
      plan := plan[i := plan[i].(replaceAllowedIPs := true)];
      if plan[i].key == k {
        assert peers[i].key == k;
        forall j | i < j < |peers|
          ensures k in KeysOf(peers[..j])
        {
          assert peers[..j][i].key == k;
        }
        return plan, true;
      }
      i := i + 1;
    }
  }

  lemma ElementsNext(s: seq<Key>, i: nat)
    requires i < |s|
    ensures Elements(s[..i + 1]) == Elements(s[..i]) + {s[i]}
  {
    assert s[..i + 1] == s[..i] + [s[i]];
  }

  lemma SameKeys(a: seq<PeerConfig>, b: seq<PeerConfig>)
    requires |a| == |b| && forall i | 0 <= i < |a| :: a[i].key == b[i].key
    ensures KeysOf(a) == KeysOf(b)
  {
    forall k
      ensures k in KeysOf(a) <==> k in KeysOf(b)
    {
      if k in KeysOf(a) {
        var i :| 0 <= i < |a| && a[i].key == k;
        assert b[i].key == k;
      }
      if k in KeysOf(b) {
        var i :| 0 <= i < |b| && b[i].key == k;
        assert a[i].key == k;
      }
    }
  }

  lemma MarkedNext(
      done: set<Key>, k: Key, desired: seq<PeerConfig>, before: seq<PeerConfig>, searched: seq<PeerConfig>, i: nat)
    requires IsPlan(done, desired, before) && Searched(before, k, searched) && i < |desired|
    ensures searched[i] == Marked(done + {k}, desired, i)
  {
    assert forall j | 0 <= j < i :: before[j] == Marked(done, desired, j);
    SameKeys(before[..i], desired[..i]);
  }

  lemma PlanGrows(
      done: set<Key>, k: Key, desired: seq<PeerConfig>, before: seq<PeerConfig>, searched: seq<PeerConfig>,
        plan: seq<PeerConfig>)
    requires IsPlan(done, desired, before) && Searched(before, k, searched)
    requires plan == if k in KeysOf(before) then searched else searched + [Removal(k)]
    ensures IsPlan(done + {k}, desired, plan)
  {
    forall i | 0 <= i < |desired|
      ensures plan[i] == Marked(done + {k}, desired, i)
    {
      MarkedNext(done, k, desired, before, searched, i);
    }
    assert forall i | 0 <= i < |before| :: plan[i].key == before[i].key;
    forall i | 0 <= i < |desired|
      ensures desired[i].key in KeysOf(before)
    {
      assert before[i].key == Marked(done, desired, i).key;
    }
    RemovalsGrow(done, k, desired, before, plan);
  }

  lemma ListedIsWantedOrDone(done: set<Key>, k: Key, desired: seq<PeerConfig>, before: seq<PeerConfig>)
    requires IsPlan(done, desired, before)
    ensures k in KeysOf(before) <==> k in KeysOf(desired) || k in done
  {
    forall i | 0 <= i < |desired|
      ensures before[i].key == desired[i].key
    {
      assert before[i] == Marked(done, desired, i);
    }
    if k in KeysOf(desired) {
      var i :| 0 <= i < |desired| && desired[i].key == k;
      assert before[i].key == k;
    }
  }

  lemma RemovesOneMore(done: set<Key>, k: Key, desired: seq<PeerConfig>, before: seq<PeerConfig>, plan: seq<PeerConfig>)
    requires IsPlan(done, desired, before) && RemovesOnce(done, desired, before)
    requires |plan| == |before| + if k in KeysOf(before) then 0 else 1
    ensures RemovesOnce(done + {k}, desired, plan)
  {
    ListedIsWantedOrDone(done, k, desired, before);
    OneMoreUnwanted(done, KeysOf(desired), k);
  }

  lemma OneMoreUnwanted(done: set<Key>, wanted: set<Key>, k: Key)
    ensures |(done + {k}) - wanted| == |done - wanted| + if k in wanted || k in done then 0 else 1
  {
    assert (done + {k}) - wanted == if k in wanted || k in done then done - wanted else (done - wanted) + {k};
  }

  lemma RemovalsGrow(done: set<Key>, k: Key, desired: seq<PeerConfig>, before: seq<PeerConfig>, plan: seq<PeerConfig>)
    requires IsPlan(done, desired, before) && KeysOf(desired) <= KeysOf(before)
    requires |before| <= |plan| <= |before| + 1
    requires forall i | 0 <= i < |before| :: plan[i].key == before[i].key && plan[i].remove == before[i].remove
    requires if k in KeysOf(before) then |plan| == |before|
             else |plan| == |before| + 1 && plan[|before|].remove && plan[|before|].key == k
    ensures forall i | |desired| <= i < |plan| ::
              plan[i].remove && plan[i].key in done + {k} && plan[i].key !in KeysOf(desired)
    ensures forall q | q in done + {k} && q !in KeysOf(desired) ::
              exists i :: |desired| <= i < |plan| && plan[i].key == q
  {
    forall q | q in done + {k} && q !in KeysOf(desired)
      ensures exists i :: |desired| <= i < |plan| && plan[i].key == q
    {
      if q in done {
        var i :| |desired| <= i < |before| && before[i].key == q;
        assert plan[i].key == q;
      } else if k !in KeysOf(before) {
        assert plan[|before|].key == q;
      }
    }
  }

  // ---------- applying the plan ----------

  /** Entry `i` routes `n` to `k`, and no later entry for `k` replaces its ranges. */
  ghost predicate LandsAt(done: seq<PeerConfig>, i: int, n: Prefix, k: Key) {
    && 0 <= i < |done| && done[i].key == k && n in done[i].allowedIPs
    && forall j | i < j < |done| && done[j].key == k :: !done[j].replaceAllowedIPs
  }

  ghost predicate Lands(done: seq<PeerConfig>, n: Prefix, k: Key) {
    exists i :: LandsAt(done, i, n, k)
  }

  /** The state once the wanted peers `done` are set up and the peers `gone` removed. */
  ghost predicate Progress(d: State, desired: seq<PeerConfig>, done: seq<PeerConfig>, gone: set<Key>, s: State) {
    && (forall n, k | Lands(done, n, k) :: n in s.owner && s.owner[n] == k)
    && (forall n | n in s.owner && !Lands(done, n, s.owner[n]) ::
          n in d.owner && d.owner[n] == s.owner[n] && s.owner[n] !in KeysOf(done) && s.owner[n] !in gone)
    && s.peers.Keys == (d.peers.Keys - gone) + KeysOf(done)
    // traffic of a peer that keeps a range is never interrupted
    && (DistinctKeys(desired) ==>
          forall n | n in d.owner && Routes(desired, n, d.owner[n]) :: n in s.owner && s.owner[n] == d.owner[n])
  }

  lemma KeysExtend(done: seq<PeerConfig>, c: PeerConfig)
    ensures KeysOf(done + [c]) == KeysOf(done) + {c.key}
  {
    var all := done + [c];
    assert all[|done|] == c && forall i | 0 <= i < |done| :: all[i] == done[i];
    forall k | k in KeysOf(done)
      ensures k in KeysOf(all)
    {
      var i :| 0 <= i < |done| && done[i].key == k;
      assert all[i].key == k;
    }
    assert c.key in KeysOf(all);
  }

  lemma LandsExtend(done: seq<PeerConfig>, c: PeerConfig, n: Prefix, k: Key)
    ensures Lands(done + [c], n, k) <==>
            (c.key == k && n in c.allowedIPs) || (Lands(done, n, k) && !(c.key == k && c.replaceAllowedIPs))
  {
    var all := done + [c];
    assert all[|done|] == c && forall i | 0 <= i < |done| :: all[i] == done[i];
    if c.key == k && n in c.allowedIPs {
      assert LandsAt(all, |done|, n, k);
    }
    if Lands(done, n, k) && !(c.key == k && c.replaceAllowedIPs) {
      var i :| LandsAt(done, i, n, k);
      assert LandsAt(all, i, n, k);
    }
    if Lands(all, n, k) && !(c.key == k && n in c.allowedIPs) {
      var i :| LandsAt(all, i, n, k);
      assert LandsAt(done, i, n, k);
    }
  }

  lemma SetUpStep(d: State, desired: seq<PeerConfig>, done: seq<PeerConfig>, c: PeerConfig, s: State)
    requires d.Valid() && Progress(d, desired, done, {}, s)
    requires !c.remove
    requires forall n, k | Lands(done, n, k) :: n !in c.allowedIPs
    requires c.key in d.peers && c.key !in KeysOf(done) ==> c.replaceAllowedIPs
    requires DistinctKeys(desired) ==> forall n, k | Routes(desired, n, k) :: n in c.allowedIPs <==> k == c.key
    ensures Progress(d, desired, done + [c], {}, ApplyOne(s, c))
  {
    KeysExtend(done, c);
    forall n, k
      ensures Lands(done + [c], n, k) <==>
              (c.key == k && n in c.allowedIPs) || (Lands(done, n, k) && !(c.key == k && c.replaceAllowedIPs))
    {
      LandsExtend(done, c, n, k);
    }
  }

  lemma RemoveStep(d: State, desired: seq<PeerConfig>, done: seq<PeerConfig>, gone: set<Key>, c: PeerConfig, s: State)
    requires d.Valid() && Progress(d, desired, done, gone, s)
    requires c.remove && c.key !in KeysOf(done) && c.key !in KeysOf(desired)
    ensures Progress(d, desired, done, gone + {c.key}, ApplyOne(s, c))
  {
    forall n, k | Lands(done, n, k)
      ensures k != c.key
    {
      var i :| LandsAt(done, i, n, k);
    }
    RoutesAreWanted(desired);
  }

  lemma RoutesAreWanted(desired: seq<PeerConfig>)
    ensures forall n, k | Routes(desired, n, k) :: k in KeysOf(desired)
  {
  }

  ghost function Done(desired: seq<PeerConfig>, plan: seq<PeerConfig>, i: nat): seq<PeerConfig>
    requires |desired| <= |plan|
  {
    plan[..if i < |desired| then i else |desired|]
  }

  ghost function Gone(desired: seq<PeerConfig>, plan: seq<PeerConfig>, i: nat): set<Key>
    requires |desired| <= |plan| && i <= |plan|
  {
    if i <= |desired| then {} else KeysOf(plan[|desired|..i])
  }

  lemma PlanEntry(existing: set<Key>, desired: seq<PeerConfig>, plan: seq<PeerConfig>, i: nat)
    requires IsPlan(existing, desired, plan) && i < |desired|
    ensures plan[i].key == desired[i].key && plan[i].allowedIPs == desired[i].allowedIPs
            && plan[i].remove == desired[i].remove
    ensures plan[i].endpoint == desired[i].endpoint && plan[i].presharedKey == desired[i].presharedKey
            && plan[i].keepalive == desired[i].keepalive
    ensures plan[i].replaceAllowedIPs <==> desired[i].replaceAllowedIPs || !(existing <= KeysOf(desired[..i]))
  {
    assert plan[i] == Marked(existing, desired, i);
  }

  lemma PlanHasWantedKeys(existing: set<Key>, desired: seq<PeerConfig>, plan: seq<PeerConfig>, i: nat)
    requires IsPlan(existing, desired, plan) && i <= |desired|
    ensures KeysOf(plan[..i]) == KeysOf(desired[..i])
  {
    forall j | 0 <= j < i
      ensures plan[j].key == desired[j].key
    {
      PlanEntry(existing, desired, plan, j);
    }
    SameKeys(plan[..i], desired[..i]);
  }

  lemma SetUpIsFresh(desired: seq<PeerConfig>, plan: seq<PeerConfig>, existing: set<Key>, i: nat)
    requires Disjoint(desired) && IsPlan(existing, desired, plan) && i < |desired|
    ensures forall n, k | Lands(plan[..i], n, k) :: n !in plan[i].allowedIPs
    ensures DistinctKeys(desired) ==>
              forall n, k | Routes(desired, n, k) :: n in plan[i].allowedIPs <==> k == plan[i].key
  {
    PlanEntry(existing, desired, plan, i);
    forall n, k | Lands(plan[..i], n, k)
      ensures n !in plan[i].allowedIPs
    {
      var j :| LandsAt(plan[..i], j, n, k);
      PlanEntry(existing, desired, plan, j);
    }
  }

  lemma ProgressSetUp(d: State, desired: seq<PeerConfig>, plan: seq<PeerConfig>, i: nat, s: State)
    requires d.Valid() && Disjoint(desired) && IsPlan(d.peers.Keys, desired, plan) && i < |desired|
    requires Progress(d, desired, plan[..i], {}, s)
    ensures Progress(d, desired, plan[..i + 1], {}, ApplyOne(s, plan[i]))
  {
    SetUpIsFresh(desired, plan, d.peers.Keys, i);
    PlanEntry(d.peers.Keys, desired, plan, i);
    PlanHasWantedKeys(d.peers.Keys, desired, plan, i);
    assert plan[..i] + [plan[i]] == plan[..i + 1];
    SetUpStep(d, desired, plan[..i], plan[i], s);
  }

  lemma ProgressRemove(d: State, desired: seq<PeerConfig>, plan: seq<PeerConfig>, i: nat, s: State)
    requires d.Valid() && |desired| <= i < |plan|
    requires KeysOf(plan[..|desired|]) == KeysOf(desired) && plan[i].remove && plan[i].key !in KeysOf(desired)
    requires Progress(d, desired, plan[..|desired|], Gone(desired, plan, i), s)
    ensures Progress(d, desired, plan[..|desired|], Gone(desired, plan, i + 1), ApplyOne(s, plan[i]))
  {
    RemoveStep(d, desired, plan[..|desired|], Gone(desired, plan, i), plan[i], s);
    GoneExtend(desired, plan, i + 1);
  }

  lemma RemovalIsUnwanted(existing: set<Key>, desired: seq<PeerConfig>, plan: seq<PeerConfig>, i: nat)
    requires IsPlan(existing, desired, plan) && |desired| <= i < |plan|
    ensures plan[i].remove && plan[i].key !in KeysOf(desired)
  {
  }

  lemma ProgressStart(d: State, desired: seq<PeerConfig>)
    ensures Progress(d, desired, [], {}, d)
  {
    assert forall n, k :: !Lands([], n, k);
    assert KeysOf([]) == {};
  }

  lemma ApplyNext(d: State, plan: seq<PeerConfig>, i: nat)
    requires i < |plan|
    ensures ApplyAll(d, plan[..i + 1]) == ApplyOne(ApplyAll(d, plan[..i]), plan[i])
  {
    assert plan[..i + 1][..i] == plan[..i];
  }

  ghost predicate PrefixProgress(d: State, desired: seq<PeerConfig>, plan: seq<PeerConfig>, i: nat)
    requires |desired| <= |plan| && i <= |plan|
  {
    Progress(d, desired, Done(desired, plan, i), Gone(desired, plan, i), ApplyAll(d, plan[..i]))
  }

  lemma ProgressNext(d: State, desired: seq<PeerConfig>, plan: seq<PeerConfig>, i: nat)
    requires d.Valid() && Disjoint(desired) && IsPlan(d.peers.Keys, desired, plan)
    requires i < |plan| && PrefixProgress(d, desired, plan, i)
    ensures PrefixProgress(d, desired, plan, i + 1)
  {
    var s := ApplyAll(d, plan[..i]);
    ApplyNext(d, plan, i);
    if i < |desired| {
      ProgressSetUp(d, desired, plan, i, s);
    } else {
      PlanHasWantedKeys(d.peers.Keys, desired, plan, |desired|);
      assert desired[..|desired|] == desired;
      RemovalIsUnwanted(d.peers.Keys, desired, plan, i);
      ProgressRemove(d, desired, plan, i, s);
    }
  }

  lemma {:induction false} ProgressHolds(d: State, desired: seq<PeerConfig>, plan: seq<PeerConfig>, i: nat)
    requires d.Valid() && Disjoint(desired) && IsPlan(d.peers.Keys, desired, plan)
    requires i <= |plan|
    ensures PrefixProgress(d, desired, plan, i)
  {
    if i == 0 {
      ProgressStart(d, desired);
      assert Done(desired, plan, 0) == [];
    } else {
      ProgressHolds(d, desired, plan, i - 1);
      ProgressNext(d, desired, plan, i - 1);
    }
  }

  lemma GoneExtend(desired: seq<PeerConfig>, plan: seq<PeerConfig>, i: nat)
    requires |desired| < i <= |plan|
    ensures Gone(desired, plan, i) == Gone(desired, plan, i - 1) + {plan[i - 1].key}
  {
    KeysExtend(plan[|desired|..i - 1], plan[i - 1]);
    assert plan[|desired|..i - 1] + [plan[i - 1]] == plan[|desired|..i];
    if i - 1 == |desired| {
      assert KeysOf(plan[|desired|..i - 1]) == {};
    }
  }

  lemma GoneIsUnwanted(existing: set<Key>, desired: seq<PeerConfig>, plan: seq<PeerConfig>, i: nat)
    requires IsPlan(existing, desired, plan) && i <= |plan|
    ensures Gone(desired, plan, i) !! KeysOf(desired)
    ensures i == |plan| ==> existing <= KeysOf(desired) + Gone(desired, plan, i)
  {
    forall k | k in Gone(desired, plan, i)
      ensures k !in KeysOf(desired)
    {
      var j :| 0 <= j < i - |desired| && plan[|desired|..i][j].key == k;
      assert plan[|desired| + j].key == k;
    }
    if i == |plan| {
      forall k | k in existing && k !in KeysOf(desired)
        ensures k in Gone(desired, plan, i)
      {
        var j :| |desired| <= j < |plan| && plan[j].key == k;
        assert plan[|desired|..i][j - |desired|].key == k;
      }
    }
  }

  /** The device once the whole plan is applied: the wanted peers, and what lands. */
  ghost predicate Settles(s: State, desired: seq<PeerConfig>, done: seq<PeerConfig>) {
    && s.Valid()
    && s.peers.Keys == KeysOf(desired)
    && (forall n, k :: n in s.owner && s.owner[n] == k <==> Lands(done, n, k))
  }

  lemma FinishedSettles(d: State, desired: seq<PeerConfig>, done: seq<PeerConfig>, gone: set<Key>, s: State)
    requires d.Valid() && Progress(d, desired, done, gone, s) && KeysOf(done) == KeysOf(desired)
    requires gone !! KeysOf(desired) && d.peers.Keys <= KeysOf(desired) + gone
    ensures Settles(s, desired, done)
  {
    forall n, k | Lands(done, n, k)
      ensures k in KeysOf(done)
    {
      var i :| LandsAt(done, i, n, k);
    }
  }

  lemma PlanSettles(d: State, desired: seq<PeerConfig>, plan: seq<PeerConfig>)
    requires d.Valid() && Disjoint(desired) && IsPlan(d.peers.Keys, desired, plan)
    ensures Settles(ApplyAll(d, plan), desired, plan[..|desired|])
  {
    var s, gone := ApplyAll(d, plan), Gone(desired, plan, |plan|);
    ProgressHolds(d, desired, plan, |plan|);
    assert plan[..|plan|] == plan && desired[..|desired|] == desired;
    PlanHasWantedKeys(d.peers.Keys, desired, plan, |desired|);
    GoneIsUnwanted(d.peers.Keys, desired, plan, |plan|);
    FinishedSettles(d, desired, plan[..|desired|], gone, s);
  }

  /** A peer listed again loses the ranges of its earlier entries, unless by then the
      search has met every peer of the device. */
  ghost predicate NothingDropped(existing: set<Key>, desired: seq<PeerConfig>) {
    forall i, j | 0 <= i < j < |desired| && desired[i].key == desired[j].key && desired[i].allowedIPs != [] ::
      !desired[j].replaceAllowedIPs && existing <= KeysOf(desired[..j])
  }

  lemma AllLandExactlyWhen(existing: set<Key>, desired: seq<PeerConfig>, plan: seq<PeerConfig>)
    requires Disjoint(desired) && IsPlan(existing, desired, plan)
    ensures (forall n, k :: Lands(plan[..|desired|], n, k) <==> Routes(desired, n, k)) <==>
            NothingDropped(existing, desired)
  {
    var done := plan[..|desired|];
    forall i | 0 <= i < |desired|
      ensures done[i].key == desired[i].key && done[i].allowedIPs == desired[i].allowedIPs
      ensures done[i].replaceAllowedIPs <==> desired[i].replaceAllowedIPs || !(existing <= KeysOf(desired[..i]))
    {
      PlanEntry(existing, desired, plan, i);
    }
    if NothingDropped(existing, desired) {
      forall n, k
        ensures Lands(done, n, k) <==> Routes(desired, n, k)
      {
        RouteLands(existing, desired, done, n, k);
      }
    } else {
      var i, j :| 0 <= i < j < |desired| && desired[i].key == desired[j].key && desired[i].allowedIPs != []
                  && !(!desired[j].replaceAllowedIPs && existing <= KeysOf(desired[..j]));
      RouteIsDropped(desired, done, i, j);
    }
  }

  lemma RouteLands(existing: set<Key>, desired: seq<PeerConfig>, done: seq<PeerConfig>, n: Prefix, k: Key)
    requires |done| == |desired| && NothingDropped(existing, desired)
    requires forall i | 0 <= i < |desired| ::
               done[i].key == desired[i].key && done[i].allowedIPs == desired[i].allowedIPs
    requires forall i | 0 <= i < |desired| ::
               done[i].replaceAllowedIPs <==> desired[i].replaceAllowedIPs || !(existing <= KeysOf(desired[..i]))
    ensures Lands(done, n, k) <==> Routes(desired, n, k)
  {
    if Routes(desired, n, k) {
      var i :| 0 <= i < |desired| && desired[i].key == k && n in desired[i].allowedIPs;
      assert LandsAt(done, i, n, k);
    }
    if Lands(done, n, k) {
      var i :| LandsAt(done, i, n, k);
      assert desired[i].key == k && n in desired[i].allowedIPs;
    }
  }

  lemma RouteIsDropped(desired: seq<PeerConfig>, done: seq<PeerConfig>, i: nat, j: nat)
    requires Disjoint(desired) && i < j < |desired| == |done|
    requires forall l | 0 <= l < |desired| ::
               done[l].key == desired[l].key && done[l].allowedIPs == desired[l].allowedIPs
    requires desired[i].key == desired[j].key && desired[i].allowedIPs != [] && done[j].replaceAllowedIPs
    ensures exists n, k :: Routes(desired, n, k) && !Lands(done, n, k)
  {
    var n, k := desired[i].allowedIPs[0], desired[i].key;
    assert n in desired[i].allowedIPs;
    assert Routes(desired, n, k);
    assert forall l :: LandsAt(done, l, n, k) ==> l == i;
  }

  /** Reconciliation, whether or not keys are listed more than once: the device ends up
      with exactly the wanted peers and ranges if and only if no entry dropped the
      ranges of an earlier one. */
  lemma PlanReconcilesExactlyWhen(d: State, desired: seq<PeerConfig>, plan: seq<PeerConfig>)
    requires d.Valid() && Disjoint(desired) && IsPlan(d.peers.Keys, desired, plan)
    ensures ApplyAll(d, plan).Valid() && ApplyAll(d, plan).peers.Keys == KeysOf(desired)
    ensures Agrees(ApplyAll(d, plan), desired) <==> NothingDropped(d.peers.Keys, desired)
  {
    PlanSettles(d, desired, plan);
    AllLandExactlyWhen(d.peers.Keys, desired, plan);
    SettledAgreesWhenAllLands(ApplyAll(d, plan), desired, plan[..|desired|]);
  }

  lemma SettledAgreesWhenAllLands(s: State, desired: seq<PeerConfig>, done: seq<PeerConfig>)
    requires Settles(s, desired, done)
    ensures Agrees(s, desired) <==> forall n, k :: Lands(done, n, k) <==> Routes(desired, n, k)
  {
    if Agrees(s, desired) {
      forall n, k
        ensures Lands(done, n, k) <==> Routes(desired, n, k)
      {
        assert Lands(done, n, k) <==> n in s.owner && s.owner[n] == k;
      }
    }
  }

  /** Reconciliation: whatever the device held before, applying the plan leaves
      exactly the wanted peers with exactly the wanted allowed IPs. */
  lemma PlanReconciles(d: State, desired: seq<PeerConfig>, plan: seq<PeerConfig>)
    requires d.Valid() && Wanted(desired) && IsPlan(d.peers.Keys, desired, plan)
    ensures Agrees(ApplyAll(d, plan), desired)
  {
    PlanReconcilesExactlyWhen(d, desired, plan);
  }

  /** The peers after any number of changes: those not removed yet, and those set up. */
  ghost predicate PeersMoved(d: State, desired: seq<PeerConfig>, plan: seq<PeerConfig>, i: nat)
    requires |desired| <= |plan| && i <= |plan|
  {
    ApplyAll(d, plan[..i]).peers.Keys == (d.peers.Keys - Gone(desired, plan, i)) + KeysOf(Done(desired, plan, i))
  }

  lemma SetUpMovesPeers(d: State, desired: seq<PeerConfig>, plan: seq<PeerConfig>, i: nat)
    requires i < |desired| <= |plan| && !plan[i].remove && PeersMoved(d, desired, plan, i)
    ensures PeersMoved(d, desired, plan, i + 1)
  {
    ApplyNext(d, plan, i);
    KeysExtend(plan[..i], plan[i]);
    assert plan[..i] + [plan[i]] == plan[..i + 1];
  }

  lemma RemovalMovesPeers(d: State, desired: seq<PeerConfig>, plan: seq<PeerConfig>, i: nat)
    requires |desired| <= i < |plan| && plan[i].remove && plan[i].key !in KeysOf(plan[..|desired|])
    requires PeersMoved(d, desired, plan, i)
    ensures PeersMoved(d, desired, plan, i + 1)
  {
    ApplyNext(d, plan, i);
    GoneExtend(desired, plan, i + 1);
  }

  lemma {:induction false} PlanMovesPeers(d: State, desired: seq<PeerConfig>, plan: seq<PeerConfig>, i: nat)
    requires NoRemovals(desired) && IsPlan(d.peers.Keys, desired, plan) && i <= |plan|
    ensures PeersMoved(d, desired, plan, i)
  {
    if i == 0 {
      assert KeysOf(Done(desired, plan, 0)) == {};
    } else {
      PlanMovesPeers(d, desired, plan, i - 1);
      PeersMovedNext(d, desired, plan, i - 1);
    }
  }

  lemma PeersMovedNext(d: State, desired: seq<PeerConfig>, plan: seq<PeerConfig>, i: nat)
    requires NoRemovals(desired) && IsPlan(d.peers.Keys, desired, plan) && i < |plan|
    requires PeersMoved(d, desired, plan, i)
    ensures PeersMoved(d, desired, plan, i + 1)
  {
    if i < |desired| {
      PlanEntry(d.peers.Keys, desired, plan, i);
      SetUpMovesPeers(d, desired, plan, i);
    } else {
      RemovalIsUnwanted(d.peers.Keys, desired, plan, i);
      WantedKeysAreDone(d.peers.Keys, desired, plan);
      RemovalMovesPeers(d, desired, plan, i);
    }
  }

  lemma WantedKeysAreDone(existing: set<Key>, desired: seq<PeerConfig>, plan: seq<PeerConfig>)
    requires IsPlan(existing, desired, plan)
    ensures KeysOf(plan[..|desired|]) == KeysOf(desired)
  {
    PlanHasWantedKeys(existing, desired, plan, |desired|);
    assert desired[..|desired|] == desired;
  }

  /** Whatever ranges and keys are listed, the plan leaves exactly the listed peers. */
  lemma PlanLeavesWantedPeers(d: State, desired: seq<PeerConfig>, plan: seq<PeerConfig>)
    requires NoRemovals(desired) && IsPlan(d.peers.Keys, desired, plan)
    ensures ApplyAll(d, plan).peers.Keys == KeysOf(desired)
  {
    PlanMovesPeers(d, desired, plan, |plan|);
    assert plan[..|plan|] == plan;
    WantedKeysAreDone(d.peers.Keys, desired, plan);
    GoneIsUnwanted(d.peers.Keys, desired, plan, |plan|);
  }

  /** At no point of the plan is a wanted peer that was present missing; and a range
      that stays with its peer routes to it throughout, if no range and no key is listed
      more than once. */
  lemma PlanKeepsWantedPeers(d: State, desired: seq<PeerConfig>, plan: seq<PeerConfig>, i: nat)
    requires d.Valid() && NoRemovals(desired) && IsPlan(d.peers.Keys, desired, plan)
    requires i <= |plan|
    ensures forall k | k in d.peers && k in KeysOf(desired) :: k in ApplyAll(d, plan[..i]).peers
    ensures Wanted(desired) ==> forall n | n in d.owner && Routes(desired, n, d.owner[n]) ::
              n in ApplyAll(d, plan[..i]).owner && ApplyAll(d, plan[..i]).owner[n] == d.owner[n]
  {
    PlanMovesPeers(d, desired, plan, i);
    GoneIsUnwanted(d.peers.Keys, desired, plan, i);
    if Wanted(desired) {
      ProgressHolds(d, desired, plan, i);
    }
  }

  lemma {:induction false} FewKeys(peers: seq<PeerConfig>)
    ensures |KeysOf(peers)| <= |peers|
  {
    if peers == [] {
      assert KeysOf(peers) == {};
    } else {
      var n := |peers| - 1;
      FewKeys(peers[..n]);
      KeysExtend(peers[..n], peers[n]);
      assert peers[..n] + [peers[n]] == peers;
    }
  }

  /** Until the last change, some peer is left that is not wanted, if there was one. */
  lemma UnwantedPeerIsLeft(d: State, desired: seq<PeerConfig>, plan: seq<PeerConfig>, i: nat) returns (k: Key)
    requires NoRemovals(desired) && IsWholePlan(d.peers.Keys, desired, plan) && |desired| <= i < |plan|
    ensures k in ApplyAll(d, plan[..i]).peers && k !in KeysOf(desired)
  {
    PlanMovesPeers(d, desired, plan, i);
    var gone, unwanted := Gone(desired, plan, i), d.peers.Keys - KeysOf(desired);
    FewKeys(plan[|desired|..i]);
    assert |gone| < |unwanted|;
    if unwanted <= gone {
      SmallerSet(unwanted, gone);
    }
    k :| k in unwanted && k !in gone;
  }

  lemma SmallerSet(a: set<Key>, b: set<Key>)
    requires a <= b
    ensures |a| <= |b|
  {
    assert b == a + (b - a);
  }

  /** The first `i` wanted peers have their settings, and the others those they had. */
  ghost predicate SettingsApplied(d: State, desired: seq<PeerConfig>, i: nat, s: State) {
    forall j | 0 <= j < |desired| ::
      if j < i then desired[j].key in s.peers && s.peers[desired[j].key] == Configured(d, desired[j])
      else (desired[j].key in s.peers <==> desired[j].key in d.peers)
           && (desired[j].key in s.peers ==> s.peers[desired[j].key] == d.peers[desired[j].key])
  }

  /** Setting up a wanted peer leaves the other wanted peers as they are. */
  lemma SettingsSetUp(d: State, desired: seq<PeerConfig>, i: nat, c: PeerConfig, s: State)
    requires DistinctKeys(desired) && i < |desired| && SettingsApplied(d, desired, i, s)
    requires c.key == desired[i].key && c.endpoint == desired[i].endpoint
             && c.presharedKey == desired[i].presharedKey && c.keepalive == desired[i].keepalive && !c.remove
    ensures SettingsApplied(d, desired, i + 1, ApplyOne(s, c))
  {
    var t := ApplyOne(s, c);
    assert t.peers == s.peers[c.key := Configured(s, c)];
    assert Configured(s, c) == Configured(d, desired[i]);
    assert forall j | 0 <= j < |desired| && j != i :: desired[j].key != c.key;
  }

  lemma SettingsRemoval(d: State, desired: seq<PeerConfig>, i: nat, c: PeerConfig, s: State)
    requires i >= |desired| && SettingsApplied(d, desired, i, s)
    requires c.remove && c.key !in KeysOf(desired)
    ensures SettingsApplied(d, desired, i + 1, ApplyOne(s, c))
  {
    assert forall j | 0 <= j < |desired| :: desired[j].key in KeysOf(desired);
    assert ApplyOne(s, c).peers == s.peers - {c.key};
  }

  lemma SettingsNext(d: State, desired: seq<PeerConfig>, plan: seq<PeerConfig>, i: nat, s: State)
    requires DistinctKeys(desired) && IsPlan(d.peers.Keys, desired, plan) && i < |plan|
    requires forall j | 0 <= j < |desired| :: !desired[j].remove
    requires SettingsApplied(d, desired, i, s)
    ensures SettingsApplied(d, desired, i + 1, ApplyOne(s, plan[i]))
  {
    if i < |desired| {
      PlanEntry(d.peers.Keys, desired, plan, i);
      SettingsSetUp(d, desired, i, plan[i], s);
    } else {
      RemovalIsUnwanted(d.peers.Keys, desired, plan, i);
      SettingsRemoval(d, desired, i, plan[i], s);
    }
  }

  /** Every wanted peer ends up with the endpoint and preshared key of its entry, or
      else those it had; after `i` changes, so have the first `i`. */
  lemma {:induction false} PlanAppliesSettings(d: State, desired: seq<PeerConfig>, plan: seq<PeerConfig>, i: nat)
    requires DistinctKeys(desired) && IsPlan(d.peers.Keys, desired, plan)
    requires forall j | 0 <= j < |desired| :: !desired[j].remove
    requires i <= |plan|
    ensures SettingsApplied(d, desired, i, ApplyAll(d, plan[..i]))
  {
    if i > 0 {
      PlanAppliesSettings(d, desired, plan, i - 1);
      ApplyNext(d, plan, i - 1);
      SettingsNext(d, desired, plan, i - 1, ApplyAll(d, plan[..i - 1]));
    }
  }

  /** What that is, once the plan is applied: a setting that the entry names is that of the
      entry, and any other is what the peer had, or nothing if it is new. */
  lemma PlanSetsWhatIsNamed(d: State, desired: seq<PeerConfig>, plan: seq<PeerConfig>, j: nat)
    requires DistinctKeys(desired) && IsPlan(d.peers.Keys, desired, plan) && NoRemovals(desired) && j < |desired|
    ensures desired[j].key in ApplyAll(d, plan).peers
    ensures var c, q := desired[j], ApplyAll(d, plan).peers[desired[j].key];
            && (c.endpoint.Some? ==> q.endpoint == c.endpoint)
            && (c.presharedKey.Some? ==> q.presharedKey == c.presharedKey)
            && (c.keepalive.Some? ==> q.keepalive == c.keepalive)
            && (c.key in d.peers ==>
                  && (c.endpoint.None? ==> q.endpoint == d.peers[c.key].endpoint)
                  && (c.presharedKey.None? ==> q.presharedKey == d.peers[c.key].presharedKey)
                  && (c.keepalive.None? ==> q.keepalive == d.peers[c.key].keepalive))
            && (c.key !in d.peers ==>
                  && (c.endpoint.None? ==> q.endpoint.None?)
                  && (c.presharedKey.None? ==> q.presharedKey.None?)
                  && (c.keepalive.None? ==> q.keepalive.None?))
  {
    PlanAppliesSettings(d, desired, plan, |plan|);
    assert plan[..|plan|] == plan;
  }

  lemma {:induction false} ApplyAllKeepsValid(d: State, plan: seq<PeerConfig>)
    requires d.Valid()
    ensures ApplyAll(d, plan).Valid()
  {
    if plan != [] {
      ApplyAllKeepsValid(d, plan[..|plan| - 1]);
    }
  }

  /** How many changes are made when a call fails after so many of them. */
  function Taken(plan: seq<PeerConfig>, fault: Option<nat>): (n: nat)
    ensures n <= |plan|
  {
    match fault case None => |plan| case Some(m) => if m < |plan| then m else |plan|
  }

  /** What `setPeers` leaves of a device, when it stops after so many changes. */
  ghost predicate SetUpTo(d: State, desired: seq<PeerConfig>, fault: Option<nat>, d': State) {
    exists plan :: SetsUp(d, desired, plan, fault, d')
  }

  ghost predicate SetsUp(d: State, desired: seq<PeerConfig>, plan: seq<PeerConfig>, fault: Option<nat>, d': State) {
    IsWholePlan(d.peers.Keys, desired, plan) && d' == ApplyAll(d, plan[..Taken(plan, fault)])
  }

  lemma SetUpToKeepsValid(d: State, desired: seq<PeerConfig>, fault: Option<nat>, d': State)
    requires d.Valid() && SetUpTo(d, desired, fault, d')
    ensures d'.Valid()
  {
    var plan :| SetsUp(d, desired, plan, fault, d');
    ApplyAllKeepsValid(d, plan[..Taken(plan, fault)]);
  }

  /** The device as the program sees it through `wgctrl`. */
  class Device {
    var state: State

    constructor ()
      ensures state == State(map[], map[])
    {
      state := State(map[], map[]);
    }

    /** The peers of the device, in some order. */
    method ListPeers() returns (keys: seq<Key>)
      ensures Elements(keys) == state.peers.Keys
    {
      keys := [];
      var rest := state.peers.Keys;
      while rest != {}
        invariant Elements(keys) + rest == state.peers.Keys
        decreases rest
      {
        var k :| k in rest;
        keys := keys + [k];
        rest := rest - {k};
      }
    }

    /** Applies the changes in order; a fault stops it after that many of them. */
    method ConfigureDevice(plan: seq<PeerConfig>, fault: Option<nat>) returns (ok: bool)
      modifies this
      ensures ok <==> fault.None?
      ensures state == ApplyAll(old(state), plan[..Taken(plan, fault)])
    {
      var i := 0;
      var n := Taken(plan, fault);
      while i < n
        invariant i <= n <= |plan|
        invariant state == ApplyAll(old(state), plan[..i])
      {
        ApplyNext(old(state), plan, i);
        state := ApplyOne(state, plan[i]);
        i := i + 1;
      }
      return fault.None?;
    }

    /** `setPeers`. When every call succeeds the device has the listed peers, and agrees
        with the list, where that asks for no range twice, if and only if no peer that is
        listed twice lost ranges. Whether or not it succeeds, no wanted peer that was
        present is lost, a range that stays with its peer keeps its route, and the
        settings were applied up to some entry. */
    method SetPeers(desired: seq<PeerConfig>, fault: Option<nat>) returns (ok: bool)
      requires state.Valid()
      modifies this
      ensures state.Valid()
      ensures ok <==> fault.None?
      ensures SetUpTo(old(state), desired, fault, state)
      ensures NoRemovals(desired) && ok ==> state.peers.Keys == KeysOf(desired)
      ensures Disjoint(desired) && ok ==> (Agrees(state, desired) <==> NothingDropped(old(state).peers.Keys, desired))
      ensures Wanted(desired) && ok ==> Agrees(state, desired) && SettingsApplied(old(state), desired, |desired|, state)
      ensures Wanted(desired) ==> exists i: nat :: SettingsApplied(old(state), desired, i, state)
      ensures NoRemovals(desired) ==> forall k | k in old(state).peers && k in KeysOf(desired) :: k in state.peers
      ensures Wanted(desired) ==> forall n | n in old(state).owner && Routes(desired, n, old(state).owner[n]) ::
                n in state.owner && state.owner[n] == old(state).owner[n]
    {
      var existing := ListPeers();
      var plan := BuildPlan(existing, desired);
      ok := ConfigureDevice(plan, fault);
      ghost var i := Taken(plan, fault);
      assert SetsUp(old(state), desired, plan, fault, state);
      SetUpToKeepsValid(old(state), desired, fault, state);
      if NoRemovals(desired) {
        PlanKeepsWantedPeers(old(state), desired, plan, i);
        if ok {
          assert plan[..i] == plan;
          PlanLeavesWantedPeers(old(state), desired, plan);
          if Disjoint(desired) {
            PlanReconcilesExactlyWhen(old(state), desired, plan);
          }
        }
      }
      if Wanted(desired) {
        PlanAppliesSettings(old(state), desired, plan, i);
      }
    }
  }
}
