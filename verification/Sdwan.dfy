/** SD-WAN networks of sdwan.go: validation, normalisation and topology expansion.  An
    absent enumeration value is Unset, any other text Unknown. */
module Sdwan {
  import opened Text

  datatype Layer = LayerUnset | L3 | L2 | LayerUnknown
  datatype Topology = TopologyUnset | PartialMesh | HubSpoke | FullMesh | TopologyUnknown
  datatype Transport = TransportUnset | WireGuard | Geneve | Vxlan | TransportUnknown
  datatype PathMode = ModeUnset | Direct | Relay | Transit | Auto | ModeUnknown

  datatype Owner = Owner(kind: string, name: string, id: string)

  datatype Site = Site(
    name: string, router: string, cidrs: seq<string>, endpoint: string, publicKey: string, role: string,
    attributes: map<string, string>, segments: seq<string>, transit: bool, relay: bool)

  datatype Link = Link(
    name: string, from: string, to: string, transport: Transport, mode: PathMode,
    endpointA: string, endpointB: string, allowedIPs: seq<string>, cost: int,
    enabled: bool, disabled: bool, attributes: map<string, string>)

  datatype Policy = Policy(
    name: string, sourceSite: string, destSite: string, sourceCIDRs: seq<string>, destCIDRs: seq<string>,
    preferLinks: seq<string>, avoidLinks: seq<string>, priority: int)

  datatype Network = Network(
    name: string, layer: Layer, topology: Topology, transport: Transport, mode: PathMode,
    sites: seq<Site>, links: seq<Link>, policies: seq<Policy>, owner: Owner, labels: map<string, string>)

  // ----- names

  /** The name of the link between two sites when it is not given one. */
  function PairName(a: string, b: string): string {
    if Less(b, a) then b + "--" + a else a + "--" + b
  }

  function StableName(l: Link): string {
    if l.name != "" then l.name else PairName(l.from, l.to)
  }

  function SiteName(s: Site): string { s.name }

  function PolicyName(p: Policy): string { p.name }

  predicate Joins(l: Link, a: string, b: string) {
    (l.from == a && l.to == b) || (l.from == b && l.to == a)
  }

  lemma PairNameSymmetric(a: string, b: string)
    ensures PairName(a, b) == PairName(b, a)
  {
    LessTrichotomy(a, b);
  }

  /** strings.EqualFold(role, "hub"). */
  predicate IsHubRole(role: string) {
    |role| == 3 && role[0] in {'h', 'H'} && role[1] in {'u', 'U'} && role[2] in {'b', 'B'}
  }

  predicate IsRelaySite(s: Site) {
    IsHubRole(s.role) || s.transit || s.relay
  }

  function RelayNames(sites: seq<Site>): set<string> {
    set s | s in sites && IsRelaySite(s) :: s.name
  }

  function Names(sites: seq<Site>): set<string> {
    set s | s in sites :: s.name
  }

  // ----- validation

  predicate Blank(s: string) { Trim(s) == "" }

  predicate ValidTransport(t: Transport) { t in {WireGuard, Geneve, Vxlan} }

  predicate ValidMode(m: PathMode) { m in {Direct, Relay, Transit, Auto} }

  predicate ValidSite(s: Site, layer: Layer, validCidr: string -> bool) {
    && !Blank(s.name) && !Blank(s.router)
    && (layer == L3 ==> s.cidrs != [])
    && (forall c :: c in s.cidrs ==> validCidr(c))
    && (forall k :: k in s.attributes ==> !Blank(k))
  }

  predicate NeedsRelay(m: PathMode) { m in {Relay, Transit, Auto} }

  /** SDWANLink.Validate and validateSDWANLinkPathEndpoint. */
  predicate ValidLink(l: Link, names: set<string>, relays: set<string>, fallback: Transport) {
    && !Blank(StableName(l))
    && l.from in names && l.to in names && l.from != l.to
    && ValidTransport(if l.transport == TransportUnset then fallback else l.transport)
    && (l.mode == ModeUnset || ValidMode(l.mode))
    && (NeedsRelay(l.mode) ==> l.from in relays || l.to in relays)
  }

  predicate ValidPolicy(p: Policy, names: set<string>, validCidr: string -> bool) {
    && !Blank(p.name)
    && (p.sourceSite != "" ==> p.sourceSite in names) && (p.destSite != "" ==> p.destSite in names)
    && (forall c :: c in p.sourceCIDRs + p.destCIDRs ==> validCidr(c))
  }

  predicate ValidHeader(n: Network) {
    && !Blank(n.name)
    && n.layer in {LayerUnset, L3, L2}
    && n.topology in {TopologyUnset, PartialMesh, HubSpoke, FullMesh}
    && (n.transport == TransportUnset || ValidTransport(n.transport))
    && (n.mode == ModeUnset || ValidMode(n.mode))
    && (n.owner == Owner("", "", "") || (!Blank(n.owner.kind) && (!Blank(n.owner.name) || !Blank(n.owner.id))))
    && (forall k :: k in n.labels ==> !Blank(k))
    && |n.sites| >= 2
  }

  function LayerOf(n: Network): Layer { if n.layer == LayerUnset then L3 else n.layer }

  function TransportOf(n: Network): Transport { if n.transport == TransportUnset then WireGuard else n.transport }

  ghost predicate ValidSites(sites: seq<Site>, layer: Layer, validCidr: string -> bool) {
    DistinctBy(sites, SiteName) && forall s :: s in sites ==> ValidSite(s, layer, validCidr)
  }

  ghost predicate ValidNetwork(n: Network, validCidr: string -> bool) {
    && ValidHeader(n)
    && ValidSites(n.sites, LayerOf(n), validCidr)
    && (forall l :: l in n.links ==> ValidLink(l, Names(n.sites), RelayNames(n.sites), TransportOf(n)))
    && (forall p :: p in n.policies ==> ValidPolicy(p, Names(n.sites), validCidr))
  }

  /** The site loop of SDWANNetwork.Validate, which also collects the names that the links
      and policies are checked against. */
  method CheckSites(sites: seq<Site>, layer: Layer, validCidr: string -> bool)
    returns (ok: bool, names: set<string>, relays: set<string>)
    ensures ok <==> ValidSites(sites, layer, validCidr)
    ensures ok ==> names == Names(sites) && relays == RelayNames(sites)
  {
    names, relays := {}, {};
    for i := 0 to |sites|
      invariant names == Names(sites[..i]) && relays == RelayNames(sites[..i])
      invariant ValidSites(sites[..i], layer, validCidr)
    {
      var site := sites[i];
      ghost var next := sites[..i + 1];
      assert next == sites[..i] + [site] && site in sites;
      if !ValidSite(site, layer, validCidr) {
        return false, names, relays;
      }
      if site.name in names {
        var j :| 0 <= j < i && sites[j].name == site.name;
        assert SiteName(sites[j]) == SiteName(sites[i]);
        return false, names, relays;
      }
      names := names + {site.name};
      if IsRelaySite(site) {
        relays := relays + {site.name};
      }
    }
    assert sites[..|sites|] == sites;
    return true, names, relays;
  }

  /** SDWANNetwork.Validate. */
  method Validate(n: Network, validCidr: string -> bool) returns (ok: bool)
    ensures ok <==> ValidNetwork(n, validCidr)
  {
    if !ValidHeader(n) {
      return false;
    }
    var sitesOk, names, relays := CheckSites(n.sites, LayerOf(n), validCidr);
    if !sitesOk {
      return false;
    }
    for i := 0 to |n.links|
      invariant forall j :: 0 <= j < i ==> ValidLink(n.links[j], names, relays, TransportOf(n))
    {
      if !ValidLink(n.links[i], names, relays, TransportOf(n)) {
        assert n.links[i] in n.links;
        return false;
      }
    }
    for i := 0 to |n.policies|
      invariant forall j :: 0 <= j < i ==> ValidPolicy(n.policies[j], names, validCidr)
    {
      if !ValidPolicy(n.policies[i], names, validCidr) {
        assert n.policies[i] in n.policies;
        return false;
      }
    }
    return true;
  }

  // ----- normalisation

  function NormSite(s: Site): Site {
    s.(cidrs := Unique(s.cidrs), segments := Unique(s.segments))
  }

  function MapSeq<T>(s: seq<T>, f: T -> T): (out: seq<T>)
    ensures |out| == |s|
    ensures forall i :: 0 <= i < |s| ==> out[i] == f(s[i])
  {
    seq(|s|, i requires 0 <= i < |s| => f(s[i]))
  }

  /** normalizeSDWANSites. */
  function NormSites(sites: seq<Site>): seq<Site> {
    SortBy(MapSeq(sites, NormSite), SiteName)
  }

  type Pair = (string, string)

  function PairsWith(a: string, sites: seq<Site>): seq<Pair> {
    if sites == [] then [] else [(a, sites[0].name)] + PairsWith(a, sites[1..])
  }

  function MeshPairs(sites: seq<Site>): seq<Pair> {
    if sites == [] then [] else PairsWith(sites[0].name, sites[1..]) + MeshPairs(sites[1..])
  }

  function SpokePairs(hub: Site, sites: seq<Site>): seq<Pair> {
    if sites == [] then []
    else (if sites[0].name == hub.name || IsRelaySite(sites[0]) then [] else [(hub.name, sites[0].name)])
         + SpokePairs(hub, sites[1..])
  }

  function HubPairs(hubs: seq<Site>, sites: seq<Site>): seq<Pair> {
    if hubs == [] then []
    else (if IsRelaySite(hubs[0]) then SpokePairs(hubs[0], sites) else []) + HubPairs(hubs[1..], sites)
  }

  /** The pairs that the topology asks for, in the order in which they are tried. */
  function AutoPairs(topology: Topology, sites: seq<Site>): seq<Pair> {
    match topology
    case FullMesh => MeshPairs(NormSites(sites))
    case HubSpoke => HubPairs(NormSites(sites), NormSites(sites))
    case _ => []
  }

  function AutoLink(p: Pair, transport: Transport): Link {
    Link(PairName(p.0, p.1), p.0, p.1, transport, ModeUnset, "", "", [], 0, true, false, map[])
  }

  predicate NameTaken(links: seq<Link>, name: string) {
    exists i :: 0 <= i < |links| && StableName(links[i]) == name
  }

  /** ensureAutoSDWANLink: a link that already has the name is left alone; otherwise
      replaceSDWANLink appends. */
  function EnsureAuto(base: seq<Link>, p: Pair, transport: Transport): seq<Link> {
    if NameTaken(base, PairName(p.0, p.1)) then base else base + [AutoLink(p, transport)]
  }

  function Expand(base: seq<Link>, pairs: seq<Pair>, transport: Transport): seq<Link>
    decreases |pairs|
  {
    if pairs == [] then base else Expand(EnsureAuto(base, pairs[0], transport), pairs[1..], transport)
  }

  /** defaultSDWANLinkPathMode. */
  function DefaultMode(mode: PathMode, l: Link, relays: set<string>): PathMode {
    if mode == ModeUnset || mode == Direct then Direct
    else if l.from in relays || l.to in relays then mode
    else Direct
  }

  function NormLink(transport: Transport, mode: PathMode, relays: set<string>): Link -> Link {
    (l: Link) => l.(
      name := StableName(l),
      transport := if l.transport == TransportUnset then transport else l.transport,
      mode := if l.mode == ModeUnset then DefaultMode(mode, l, relays) else l.mode,
      enabled := !l.disabled,
      allowedIPs := Unique(l.allowedIPs))
  }

  function ExpandedLinks(n: Network): seq<Link> {
    Expand(n.links, AutoPairs(n.topology, n.sites), n.transport)
  }

  /** normalizeSDWANLinks. */
  function NormLinks(n: Network): seq<Link> {
    SortBy(MapSeq(ExpandedLinks(n), NormLink(n.transport, n.mode, RelayNames(n.sites))), StableName)
  }

  function WithDefaults(n: Network): Network {
    n.(layer := LayerOf(n),
       topology := if n.topology == TopologyUnset then PartialMesh else n.topology,
       transport := TransportOf(n),
       mode := if n.mode == ModeUnset then Direct else n.mode,
       sites := NormSites(n.sites))
  }

  /** normalizeSDWANNetwork. */
  function Normalise(n: Network): Network {
    var out := WithDefaults(n);
    out.(links := NormLinks(out), policies := SortBy(n.policies, PolicyName))
  }

  // ----- the loops behind the expansion

  lemma {:induction false} ExpandConcat(base: seq<Link>, p: seq<Pair>, q: seq<Pair>, transport: Transport)
    ensures Expand(base, p + q, transport) == Expand(Expand(base, p, transport), q, transport)
    decreases |p|
  {
    if p == [] {
      assert p + q == q;
    } else {
      assert (p + q)[0] == p[0] && (p + q)[1..] == p[1..] + q;
      ExpandConcat(EnsureAuto(base, p[0], transport), p[1..], q, transport);
    }
  }

  /** ensureAutoSDWANLink. */
  method EnsureAutoLink(base: seq<Link>, p: Pair, transport: Transport) returns (links: seq<Link>)
    ensures links == Expand(base, [p], transport)
  {
    var name := PairName(p.0, p.1);
    for i := 0 to |base|
      invariant forall k :: 0 <= k < i ==> StableName(base[k]) != name
    {
      if StableName(base[i]) == name {
        return base;
      }
    }
    return base + [AutoLink(p, transport)];
  }

  /** The nested loops of normalizeSDWANLinks. */
  method ExpandTopology(n: Network) returns (links: seq<Link>)
    ensures links == ExpandedLinks(n)
  {
    var sites := NormSites(n.sites);
    match n.topology {
      case FullMesh => links := ExpandMesh(n.links, sites, n.transport);
      case HubSpoke => links := ExpandHubs(n.links, sites, n.transport);
      case _ => links := n.links;
    }
  }

  method ExpandMesh(base: seq<Link>, sites: seq<Site>, transport: Transport) returns (links: seq<Link>)
    ensures links == Expand(base, MeshPairs(sites), transport)
  {
    links := base;
    for i := 0 to |sites|
      invariant Expand(links, MeshPairs(sites[i..]), transport) == Expand(base, MeshPairs(sites), transport)
    {
      var rest := sites[i + 1..];
      assert sites[i..][1..] == rest;
      ExpandConcat(links, PairsWith(sites[i].name, rest), MeshPairs(rest), transport);
      links := ExpandRow(links, sites[i].name, rest, transport);
    }
  }

  method ExpandRow(base: seq<Link>, name: string, sites: seq<Site>, transport: Transport) returns (links: seq<Link>)
    ensures links == Expand(base, PairsWith(name, sites), transport)
  {
    links := base;
    for j := 0 to |sites|
      invariant Expand(links, PairsWith(name, sites[j..]), transport) == Expand(base, PairsWith(name, sites), transport)
    {
      assert sites[j..][1..] == sites[j + 1..];
      ExpandConcat(links, [(name, sites[j].name)], PairsWith(name, sites[j + 1..]), transport);
      links := EnsureAutoLink(links, (name, sites[j].name), transport);
    }
  }

  lemma HubPairsAt(sites: seq<Site>, i: nat)
    requires i < |sites|
    ensures HubPairs(sites[i..], sites) ==
      if IsRelaySite(sites[i]) then SpokePairs(sites[i], sites) + HubPairs(sites[i + 1..], sites)
      else HubPairs(sites[i + 1..], sites)
  {
    var rest := HubPairs(sites[i + 1..], sites);
    assert sites[i..][1..] == sites[i + 1..] && [] + rest == rest;
  }

  method ExpandHubs(base: seq<Link>, sites: seq<Site>, transport: Transport) returns (links: seq<Link>)
    ensures links == Expand(base, HubPairs(sites, sites), transport)
  {
    links := base;
    for i := 0 to |sites|
      invariant Expand(links, HubPairs(sites[i..], sites), transport) == Expand(base, HubPairs(sites, sites), transport)
    {
      HubPairsAt(sites, i);
      if !IsRelaySite(sites[i]) {
        continue;
      }
      ExpandConcat(links, SpokePairs(sites[i], sites), HubPairs(sites[i + 1..], sites), transport);
      links := ExpandSpokes(links, sites[i], sites, transport);
    }
  }

  method ExpandSpokes(base: seq<Link>, hub: Site, sites: seq<Site>, transport: Transport) returns (links: seq<Link>)
    ensures links == Expand(base, SpokePairs(hub, sites), transport)
  {
    links := base;
    for j := 0 to |sites|
      invariant Expand(links, SpokePairs(hub, sites[j..]), transport) == Expand(base, SpokePairs(hub, sites), transport)
    {
      var rest := SpokePairs(hub, sites[j + 1..]);
      assert sites[j..][1..] == sites[j + 1..] && [] + rest == rest;
      if sites[j].name == hub.name || IsRelaySite(sites[j]) {
        continue;
      }
      ExpandConcat(links, [(hub.name, sites[j].name)], rest, transport);
      links := EnsureAutoLink(links, (hub.name, sites[j].name), transport);
    }
  }
}
