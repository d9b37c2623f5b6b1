/**
 `verifyServerConfig`: the gate in front of everything the server advertises.
 A CIDR string is represented by what `netip.ParsePrefix` makes of it.
 */
module ServerConfig {
  import opened Wrappers
  import opened Address
  import opened Cidr
  import Text

  datatype CidrText = NotCidr(text: string) | Cidr(prefix: Prefix) {
    ghost predicate Valid() {
      Cidr? ==> prefix.Valid()
    }
  }

  datatype OauthServer = OauthServer(server: string, clientID: string)

  datatype ConfigError =
    | MissingAddress
    | UnparsableAddress  // MustParsePrefix panics
    | PublicAddress
    | InvalidRoute(index: nat)
    | PublicRoute(index: nat)
    | MissingEndpoint
    | BadEndpoint
    | BadPort
    | NoOauthServers
    | OauthMissingServer(index: nat)
    | OauthMissingClientID(index: nat)

  /** The first thing wrong with a configuration, in the order in which the code looks. */
  ghost predicate IsRefusal(
      e: ConfigError, address: CidrText, routes: seq<CidrText>, endpoint: string, oauth: seq<OauthServer>, public: bool)
    requires address.Valid() && AllValid(routes)
  {
    match e
    case MissingAddress => address == NotCidr("")
    case UnparsableAddress => address.NotCidr? && address.text != ""
    case PublicAddress => address.Cidr? && !public && !IsPrivateCidr(address.prefix)
    case InvalidRoute(i) =>
      PassesAddress(address, public) && !public && i < |routes| && AllPassGate(routes[..i]) && routes[i].NotCidr?
    case PublicRoute(i) =>
      && PassesAddress(address, public) && !public && i < |routes| && AllPassGate(routes[..i])
      && routes[i].Cidr? && !IsPrivateCidr(routes[i].prefix)
    case MissingEndpoint => PassesRoutes(address, routes, public) && endpoint == ""
    case BadEndpoint => PassesRoutes(address, routes, public) && endpoint != "" && !HasHostAndPort(endpoint)
    case BadPort =>
      PassesRoutes(address, routes, public) && HasHostAndPort(endpoint) && !exists n :: IsEndpoint(endpoint, n)
    case NoOauthServers =>
      PassesRoutes(address, routes, public) && (exists n :: IsEndpoint(endpoint, n)) && oauth == []
    case OauthMissingServer(i) =>
      && PassesRoutes(address, routes, public) && (exists n :: IsEndpoint(endpoint, n))
      && i < |oauth| && AllGoodOauth(oauth[..i]) && oauth[i].server == ""
    case OauthMissingClientID(i) =>
      && PassesRoutes(address, routes, public) && (exists n :: IsEndpoint(endpoint, n))
      && i < |oauth| && AllGoodOauth(oauth[..i]) && oauth[i].server != "" && oauth[i].clientID == ""
  }

  ghost predicate PassesAddress(address: CidrText, public: bool)
    requires address.Valid()
  {
    address.Cidr? && (public || IsPrivateCidr(address.prefix))
  }

  ghost predicate PassesRoutes(address: CidrText, routes: seq<CidrText>, public: bool)
    requires address.Valid() && AllValid(routes)
  {
    PassesAddress(address, public) && (public || AllPassGate(routes))
  }

  /** One colon, with a host before it and a port after it, whatever these are. */
  ghost predicate HasHostAndPort(endpoint: string) {
    exists host, port :: IsHostAndPort(endpoint, host, port)
  }

  ghost predicate IsHostAndPort(endpoint: string, host: string, port: string) {
    endpoint == host + ":" + port && ':' !in host && ':' !in port
  }

  /** The port is a number of 64 bits. */
  ghost predicate IsEndpoint(endpoint: string, n: int) {
    && -0x8000_0000_0000_0000 <= n < 0x8000_0000_0000_0000
    && exists host, port :: IsHostAndPort(endpoint, host, port) && Text.ParseInt(port) == Some(n)
  }

  lemma TwoParts(endpoint: string, host: string, port: string)
    ensures IsHostAndPort(endpoint, host, port) <==> Text.Split(endpoint, ':') == [host, port]
  {
    if IsHostAndPort(endpoint, host, port) {
      Text.SplitWithoutSeparator(port, ':');
      Text.SplitAtSeparator(host, port, ':');
    }
    if Text.Split(endpoint, ':') == [host, port] {
      Text.JoinSplit(endpoint, ':');
      assert [host, port][1..] == [port];
      assert Text.Split(endpoint, ':')[0] == host && Text.Split(endpoint, ':')[1] == port;
    }
  }

  lemma HostAndPortExactlyWhen(endpoint: string)
    ensures HasHostAndPort(endpoint) <==> |Text.Split(endpoint, ':')| == 2
  {
    var parts := Text.Split(endpoint, ':');
    if |parts| == 2 {
      assert parts == [parts[0], parts[1]];
      TwoParts(endpoint, parts[0], parts[1]);
    }
    if HasHostAndPort(endpoint) {
      var host, port :| IsHostAndPort(endpoint, host, port);
      TwoParts(endpoint, host, port);
    }
  }

  /** Exactly which endpoints are accepted, and with which port. */
  lemma EndpointExactlyWhen(endpoint: string, n: int)
    ensures EndpointPort(endpoint) == Some(n) <==> IsEndpoint(endpoint, n)
  {
    var parts := Text.Split(endpoint, ':');
    if EndpointPort(endpoint) == Some(n) {
      assert parts == [parts[0], parts[1]];
      TwoParts(endpoint, parts[0], parts[1]);
    }
    if IsEndpoint(endpoint, n) {
      var host, port :| IsHostAndPort(endpoint, host, port) && Text.ParseInt(port) == Some(n);
      TwoParts(endpoint, host, port);
    }
  }

  lemma EndpointIsAccepted(endpoint: string)
    ensures EndpointPort(endpoint).Some? <==> exists n :: IsEndpoint(endpoint, n)
  {
    if EndpointPort(endpoint).Some? {
      EndpointExactlyWhen(endpoint, EndpointPort(endpoint).value);
    }
    if n :| IsEndpoint(endpoint, n) {
      EndpointExactlyWhen(endpoint, n);
    }
  }

  const DEFAULT_DEVICE_NAME := "wg0"
  const DEFAULT_KEY_FILENAME := "/etc/wiresteward/key"
  const DEFAULT_LEASES_FILENAME := "/var/lib/wiresteward/leases"
  const DEFAULT_LISTEN_ADDRESS := "0.0.0.0:8080"
  const DEFAULT_SYNC_INTERVAL: int := 60_000_000_000  // one minute in nanoseconds

  predicate PassesGate(c: CidrText)
    requires c.Valid()
  {
    c.Cidr? && IsPrivateCidr(c.prefix)
  }

  /** The host entry appended for health checks: the own address with `/32`. */
  function OwnRoute(p: Prefix): CidrText {
    Cidr(Prefix(p.addr, 32))
  }

  ghost predicate OnlyPrivate(c: CidrText) {
    c.Cidr? && c.Valid() && forall a: Addr | a.Valid() && c.prefix.Contains(a) :: IsPrivate(a)
  }

  /** No address of any of these routes is public. */
  ghost predicate AdvertisesOnlyPrivate(routes: seq<CidrText>) {
    forall i | 0 <= i < |routes| :: OnlyPrivate(routes[i])
  }

  ghost predicate AllValid(routes: seq<CidrText>) {
    forall i | 0 <= i < |routes| :: routes[i].Valid()
  }

  predicate AllPassGate(routes: seq<CidrText>)
    requires AllValid(routes)
  {
    forall i | 0 <= i < |routes| :: PassesGate(routes[i])
  }

  predicate AllGoodOauth(servers: seq<OauthServer>) {
    forall i | 0 <= i < |servers| :: GoodOauth(servers[i])
  }

  /** What a `<host>:<port>` endpoint has to look like, and the port in it. */
  function EndpointPort(endpoint: string): Option<int> {
    var parts := Text.Split(endpoint, ':');
    if |parts| != 2 then None
    else
      match Text.ParseInt(parts[1])
      case Some(n) => if -0x8000_0000_0000_0000 <= n < 0x8000_0000_0000_0000 then Some(n) else None
      case None => None
  }

  function OrDefault(s: string, default: string): string {
    if s == "" then default else s
  }

  predicate GoodOauth(s: OauthServer) {
    s.server != "" && s.clientID != ""
  }

  class ServerConfig {
    var address: CidrText
    var allowedIPs: seq<CidrText>
    var deviceName: string
    var endpoint: string
    var keyFilename: string
    var leaserSyncInterval: int
    var leasesFilename: string
    var wireguardIPPrefix: Prefix
    var wireguardListenPort: int
    var oauthServers: seq<OauthServer>
    var serverListenAddress: string

    ghost predicate Valid()
      reads this
    {
      address.Valid() && AllValid(allowedIPs)
    }

    /** Accepts exactly the configurations below. Without the override, what an
        accepted configuration then advertises (the appended own address included,
        which nothing checks) is private if and only if the own address is not an
        IPv4-mapped IPv6 one. */
    method Verify(allowPublicRoutes: bool) returns (r: Option<ConfigError>)
      requires Valid()
      modifies this
      ensures Valid()
      ensures address == old(address) && endpoint == old(endpoint) && oauthServers == old(oauthServers)
      ensures r.None? <==>
              && address.Cidr?
              && (!allowPublicRoutes ==> PassesGate(address) && AllPassGate(old(allowedIPs)))
              && (exists n :: IsEndpoint(endpoint, n))
              && oauthServers != []
              && forall i | 0 <= i < |oauthServers| :: oauthServers[i].server != "" && oauthServers[i].clientID != ""
      ensures r.Some? ==>
              IsRefusal(r.value, address, old(allowedIPs), endpoint, oauthServers, allowPublicRoutes)
      ensures r.None? ==>
              && wireguardIPPrefix == address.prefix
              && allowedIPs == old(allowedIPs) + [Cidr(Prefix(address.prefix.addr, 32))]
              && IsEndpoint(endpoint, wireguardListenPort)
              && deviceName == (if old(deviceName) == "" then "wg0" else old(deviceName))
              && keyFilename == (if old(keyFilename) == "" then "/etc/wiresteward/key" else old(keyFilename))
              && leasesFilename ==
                 (if old(leasesFilename) == "" then "/var/lib/wiresteward/leases" else old(leasesFilename))
              && serverListenAddress ==
                 (if old(serverListenAddress) == "" then "0.0.0.0:8080" else old(serverListenAddress))
              && leaserSyncInterval ==
                 (if old(leaserSyncInterval) == 0 then 60_000_000_000 else old(leaserSyncInterval))
      ensures r.None? && !allowPublicRoutes ==>
              (AdvertisesOnlyPrivate(allowedIPs) <==> !address.prefix.addr.Is4In6())
    {
      r := VerifyRoutes(allowPublicRoutes);
      if r.Some? {
        return;
      }
      deviceName := OrDefault(deviceName, DEFAULT_DEVICE_NAME);
      r := VerifyEndpointAndFiles();
      EndpointIsAccepted(endpoint);
      if r.Some? {
        return;
      }
      EndpointExactlyWhen(endpoint, wireguardListenPort);
      if oauthServers == [] {
        return Some(NoOauthServers);
      }
      var i := FirstBadOauth();
      if i < |oauthServers| {
        return Some(if oauthServers[i].server == "" then OauthMissingServer(i) else OauthMissingClientID(i));
      }
      serverListenAddress := OrDefault(serverListenAddress, DEFAULT_LISTEN_ADDRESS);
    }

    /** The address and route gates, and the appended own route. */
    method VerifyRoutes(allowPublicRoutes: bool) returns (r: Option<ConfigError>)
      requires Valid()
      modifies this`wireguardIPPrefix, this`allowedIPs
      ensures Valid()
      ensures r.None? <==> address.Cidr? && (!allowPublicRoutes ==> PassesGate(address) && AllPassGate(old(allowedIPs)))
      ensures r.None? ==>
                wireguardIPPrefix == address.prefix && allowedIPs == old(allowedIPs) + [OwnRoute(address.prefix)]
      ensures r.Some? ==> allowedIPs == old(allowedIPs)
      ensures r.Some? ==>
              && (r.value.MissingAddress? || r.value.UnparsableAddress? || r.value.PublicAddress?
                  || r.value.InvalidRoute? || r.value.PublicRoute?)
              && IsRefusal(r.value, address, old(allowedIPs), endpoint, oauthServers, allowPublicRoutes)
      ensures r.None? && !allowPublicRoutes ==>
              (AdvertisesOnlyPrivate(allowedIPs) <==> !address.prefix.addr.Is4In6())
    {
      if address == NotCidr("") {
        return Some(MissingAddress);
      }
      if !address.Cidr? {
        return Some(UnparsableAddress);
      }
      wireguardIPPrefix := address.prefix;
      if !allowPublicRoutes {
        if !IsPrivateCidr(address.prefix) {
          return Some(PublicAddress);
        }
        var bad := FirstRejectedRoute();
        if bad < |allowedIPs| {
          return Some(if allowedIPs[bad].Cidr? then PublicRoute(bad) else InvalidRoute(bad));
        }
        AdvertisedSpaceIsPrivate(address.prefix, allowedIPs);
      }
      allowedIPs := allowedIPs + [OwnRoute(wireguardIPPrefix)];
      return None;
    }

    /** The loop over `AllowedIPs`: where it stops. */
    method FirstRejectedRoute() returns (i: nat)
      requires Valid()
      ensures i <= |allowedIPs|
      ensures forall j | 0 <= j < i :: PassesGate(allowedIPs[j])
      ensures i < |allowedIPs| ==> !PassesGate(allowedIPs[i])
    {
      i := 0;
      while i < |allowedIPs|
        invariant i <= |allowedIPs|
        invariant forall j | 0 <= j < i :: PassesGate(allowedIPs[j])
      {
        if !PassesGate(allowedIPs[i]) {
          return;
        }
        i := i + 1;
      }
    }

    /** The loop over `OauthServers`: where it stops. */
    method FirstBadOauth() returns (i: nat)
      ensures i <= |oauthServers|
      ensures forall j | 0 <= j < i :: GoodOauth(oauthServers[j])
      ensures i < |oauthServers| ==> !GoodOauth(oauthServers[i])
    {
      i := 0;
      while i < |oauthServers|
        invariant i <= |oauthServers|
        invariant forall j | 0 <= j < i :: GoodOauth(oauthServers[j])
      {
        if !GoodOauth(oauthServers[i]) {
          return;
        }
        i := i + 1;
      }
    }

    method VerifyEndpointAndFiles() returns (r: Option<ConfigError>)
      modifies this`wireguardListenPort, this`keyFilename, this`leaserSyncInterval, this`leasesFilename
      ensures r.None? <==> EndpointPort(endpoint).Some?
      ensures r.Some? ==>
              match r.value
              case MissingEndpoint => endpoint == ""
              case BadEndpoint => endpoint != "" && !HasHostAndPort(endpoint)
              case BadPort => HasHostAndPort(endpoint) && !exists n :: IsEndpoint(endpoint, n)
              case _ => false
      ensures r.None? ==>
              && Some(wireguardListenPort) == EndpointPort(endpoint)
              && keyFilename == OrDefault(old(keyFilename), DEFAULT_KEY_FILENAME)
              && leasesFilename == OrDefault(old(leasesFilename), DEFAULT_LEASES_FILENAME)
              && leaserSyncInterval ==
                 (if old(leaserSyncInterval) == 0 then DEFAULT_SYNC_INTERVAL else old(leaserSyncInterval))
    {
      if endpoint == "" {
        assert |Text.Split("", ':')| == 1;
        return Some(MissingEndpoint);
      }
      HostAndPortExactlyWhen(endpoint);
      EndpointIsAccepted(endpoint);
      if |Text.Split(endpoint, ':')| != 2 {
        return Some(BadEndpoint);
      }
      var port := EndpointPort(endpoint);
      if port.None? {
        return Some(BadPort);
      }
      wireguardListenPort := port.value;
      keyFilename := OrDefault(keyFilename, DEFAULT_KEY_FILENAME);
      if leaserSyncInterval == 0 {
        leaserSyncInterval := DEFAULT_SYNC_INTERVAL;
      }
      leasesFilename := OrDefault(leasesFilename, DEFAULT_LEASES_FILENAME);
      return None;
    }
  }

  /** The own `/32` is not checked by anything. For a native address it is private
      because the interface prefix is; for an IPv4-mapped one, 32 bits leave out
      the embedded address and the entry spans public space. */
  lemma OwnRouteIsPrivateIffNative(p: Prefix)
    requires p.Valid() && IsPrivateCidr(p)
    ensures OnlyPrivate(OwnRoute(p)) <==> !p.addr.Is4In6()
  {
    var own := OwnRoute(p).prefix;
    EndsAreValid(p);
    TwoEndpointTestIsExact(p);
    assert IsPrivate(p.addr);
    if p.addr.family.V4? {
      assert own.Size() == 1;
    } else if p.addr.Is4In6() {
      MappedHostRouteIsPublic(p.addr);
    } else {
      NativeHostRouteIsPrivate(p.addr);
    }
  }

  lemma NativeHostRouteIsPrivate(addr: Addr)
    requires addr.Valid() && addr.family.V6? && !addr.Is4In6() && IsPrivate(addr)
    ensures OnlyPrivate(OwnRoute(Prefix(addr, 32)))
  {
    var own := Prefix(addr, 32);
    DivMul(addr.value, 0x100_0000_0000_0000_0000_0000_0000_0000, 2);
    BlockMembership(addr, 3);
    EndsAreValid(own);
    forall a: Addr | a.Valid() && own.Contains(a)
      ensures IsPrivate(a)
    {
      NarrowerPrefixIsPrivate(own, 3, addr, a);
    }
  }

  lemma MappedHostRouteIsPublic(addr: Addr)
    requires addr.Valid() && addr.Is4In6()
    ensures !OnlyPrivate(OwnRoute(Prefix(addr, 32)))
  {
    LargePowers();
    var own := Prefix(addr, 32);
    assert own.Size() == 0x1_0000_0000_0000_0000_0000_0000;
    var zero := Addr(V6, 0);
    assert own.Contains(zero) && !IsPrivate(zero);
  }

  /** Accepted configurations advertise only private space, and exactly when. */
  lemma AdvertisedSpaceIsPrivate(p: Prefix, routes: seq<CidrText>)
    requires p.Valid() && IsPrivateCidr(p)
    requires AllValid(routes) && AllPassGate(routes)
    ensures var all := routes + [OwnRoute(p)];
            AdvertisesOnlyPrivate(all) <==> !p.addr.Is4In6()
  {
    var all := routes + [OwnRoute(p)];
    OwnRouteIsPrivateIffNative(p);
    forall i | 0 <= i < |routes|
      ensures OnlyPrivate(routes[i])
    {
      TwoEndpointTestIsExact(routes[i].prefix);
    }
    assert all[|routes|] == OwnRoute(p);
    assert forall i | 0 <= i < |routes| :: all[i] == routes[i];
  }

  /** An input at which they do not: `::ffff:10.0.0.1/104` passes the gate, and its own
      route covers public space. */
  lemma MappedConfigAdvertisesPublicSpace() returns (p: Prefix)
    ensures p == Prefix(Addr(V6, 0xffff_0a00_0001), 104) && p.Valid() && IsPrivateCidr(p)
    ensures !AdvertisesOnlyPrivate([OwnRoute(p)])
  {
    p := Prefix(Addr(V6, 0xffff_0a00_0001), 104);
    SmallPowers();
    LargePowers();
    assert p.Size() == Pow2(24);
    assert p.Masked().value == 0xffff_0a00_0000 && p.Last().value == 0xffff_0aff_ffff;
    AdvertisedSpaceIsPrivate(p, []);
    assert [] + [OwnRoute(p)] == [OwnRoute(p)];
  }
}
