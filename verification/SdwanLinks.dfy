/** What normalising an SD-WAN network does to each link, field by field, and what planning
    the result asks for (sdwan.go). */
module SdwanLinks {
  import opened Options
  import opened Text
  import opened Sdwan
  import opened SdwanNormalise
  import opened SdwanReconcile
  import opened SdwanTopology

  // ----- the words of the configuration

  /** A site relays when it says so in one of three ways; "hub" in any case. */
  predicate Relays(s: Site) {
    s.transit || s.relay || s.role in {"hub", "huB", "hUb", "hUB", "Hub", "HuB", "HUb", "HUB"}
  }

  lemma RelaysExact(s: Site)
    ensures IsRelaySite(s) <==> Relays(s)
  {
    if IsHubRole(s.role) {
      assert s.role == [s.role[0], s.role[1], s.role[2]];
    }
  }

  ghost predicate RelayEnd(n: Network, l: Link) {
    exists s :: s in n.sites && Relays(s) && (s.name == l.from || s.name == l.to)
  }

  lemma RelayEndExact(n: Network, l: Link)
    ensures RelayEnd(n, l) <==> l.from in RelayNames(n.sites) || l.to in RelayNames(n.sites)
  {
    forall s ensures IsRelaySite(s) <==> Relays(s) {
      RelaysExact(s);
    }
  }

  /** A link without a path mode takes the network's when one of its ends relays, and is
      direct otherwise; so it is for a network without one. */
  ghost predicate ModeTaken(n: Network, l: Link, mode: PathMode) {
    if RelayEnd(n, l) && n.mode != ModeUnset then mode == n.mode else mode == Direct
  }

  /** The transport of the network, WireGuard by default. */
  predicate TransportTaken(n: Network, transport: Transport) {
    if n.transport == TransportUnset then transport == WireGuard else transport == n.transport
  }

  ghost predicate SameStrings(s: seq<string>, t: seq<string>) {
    && (forall c :: c in t <==> c in s && c != "")
    && (forall i, j :: 0 <= i < j < |t| ==> t[i] != t[j])
  }

  // ----- what is accepted

  predicate HasText(s: string) {
    exists i :: 0 <= i < |s| && !IsSpace(s[i])
  }

  lemma {:induction false} HasTextExact(s: string)
    ensures HasText(s) <==> !Blank(s)
  {
    var before, after := TrimExact(s);
    var t := Trim(s);
    if t != "" {
      assert s[|before|] == t[0];
    }
  }

  ghost predicate KnownSite(n: Network, name: string) {
    exists s :: s in n.sites && s.name == name
  }

  ghost predicate GoodSite(n: Network, s: Site, validCidr: string -> bool) {
    && HasText(s.name) && HasText(s.router) && (n.layer != L2 ==> s.cidrs != [])
    && (forall c :: c in s.cidrs ==> validCidr(c)) && (forall k :: k in s.attributes ==> HasText(k))
  }

  /** Both ends are different known sites, and a relayed link ends at a relaying site. */
  ghost predicate GoodLink(n: Network, l: Link) {
    && l.transport != TransportUnknown && l.mode != ModeUnknown
    && KnownSite(n, l.from) && KnownSite(n, l.to) && l.from != l.to
    && (l.name != "" ==> HasText(l.name))
    && (l.mode in {Relay, Transit, Auto} ==> RelayEnd(n, l))
  }

  ghost predicate GoodPolicy(n: Network, p: Policy, validCidr: string -> bool) {
    && HasText(p.name)
    && (p.sourceSite == "" || KnownSite(n, p.sourceSite)) && (p.destSite == "" || KnownSite(n, p.destSite))
    && (forall c :: c in p.sourceCIDRs || c in p.destCIDRs ==> validCidr(c))
  }

  ghost predicate GoodHeader(n: Network) {
    && HasText(n.name) && |n.sites| >= 2
    && n.layer != LayerUnknown && n.topology != TopologyUnknown && n.transport != TransportUnknown && n.mode != ModeUnknown
    && (forall k :: k in n.labels ==> HasText(k))
    && (n.owner.kind == n.owner.name == n.owner.id == ""
        || (HasText(n.owner.kind) && (HasText(n.owner.name) || HasText(n.owner.id))))
  }

  lemma LinkAccepted(n: Network, l: Link)
    requires n.transport != TransportUnknown
    ensures ValidLink(l, Names(n.sites), RelayNames(n.sites), TransportOf(n)) <==> GoodLink(n, l)
  {
    RelayEndExact(n, l);
    HasTextExact(l.name);
    PairNameNotBlank(l.from, l.to);
    assert KnownSite(n, l.from) <==> l.from in Names(n.sites);
    assert KnownSite(n, l.to) <==> l.to in Names(n.sites);
  }

  lemma HeaderAccepted(n: Network)
    ensures ValidHeader(n) <==> GoodHeader(n)
  {
    forall s ensures HasText(s) <==> !Blank(s) {
      HasTextExact(s);
    }
  }

  lemma SiteAccepted(n: Network, s: Site, validCidr: string -> bool)
    requires n.layer != LayerUnknown
    ensures ValidSite(s, LayerOf(n), validCidr) <==> GoodSite(n, s, validCidr)
  {
    forall t ensures HasText(t) <==> !Blank(t) {
      HasTextExact(t);
    }
  }

  lemma PolicyAccepted(n: Network, p: Policy, validCidr: string -> bool)
    ensures ValidPolicy(p, Names(n.sites), validCidr) <==> GoodPolicy(n, p, validCidr)
  {
    HasTextExact(p.name);
  }

  /** Which networks are accepted. */
  lemma AcceptedExactly(n: Network, validCidr: string -> bool)
    ensures ValidNetwork(n, validCidr) <==>
      && GoodHeader(n)
      && (forall i, j :: 0 <= i < j < |n.sites| ==> n.sites[i].name != n.sites[j].name)
      && (forall s :: s in n.sites ==> GoodSite(n, s, validCidr))
      && (forall l :: l in n.links ==> GoodLink(n, l))
      && (forall p :: p in n.policies ==> GoodPolicy(n, p, validCidr))
  {
    HeaderAccepted(n);
    if GoodHeader(n) {
      forall s ensures ValidSite(s, LayerOf(n), validCidr) <==> GoodSite(n, s, validCidr) {
        SiteAccepted(n, s, validCidr);
      }
      forall l ensures ValidLink(l, Names(n.sites), RelayNames(n.sites), TransportOf(n)) <==> GoodLink(n, l) {
        LinkAccepted(n, l);
      }
      forall p ensures ValidPolicy(p, Names(n.sites), validCidr) <==> GoodPolicy(n, p, validCidr) {
        PolicyAccepted(n, p, validCidr);
      }
      assert DistinctBy(n.sites, SiteName) <==>
        forall i, j :: 0 <= i < j < |n.sites| ==> n.sites[i].name != n.sites[j].name;
    }
  }

  // ----- the links

  /** What a given link becomes. */
  ghost predicate Kept(n: Network, e: Link, l: Link) {
    && l.from == e.from && l.to == e.to
    && (if e.name != "" then l.name == e.name else l.name == PairName(e.from, e.to))
    && (if e.transport == TransportUnset then TransportTaken(n, l.transport) else l.transport == e.transport)
    && (if e.mode == ModeUnset then ModeTaken(n, e, l.mode) else l.mode == e.mode)
    && l.enabled == !e.disabled && l.disabled == e.disabled
    && SameStrings(e.allowedIPs, l.allowedIPs)
    && l.endpointA == e.endpointA && l.endpointB == e.endpointB && l.cost == e.cost && l.attributes == e.attributes
  }

  /** A link that the topology adds: up, and with the defaults of the network. */
  ghost predicate Automatic(n: Network, l: Link, a: string, b: string) {
    && Joins(l, a, b) && l.name == PairName(a, b)
    && l.enabled && !l.disabled
    && TransportTaken(n, l.transport) && ModeTaken(n, l, l.mode)
    && l.allowedIPs == [] && l.endpointA == "" && l.endpointB == "" && l.cost == 0 && l.attributes == map[]
  }

  function Form(n: Network): Link -> Link {
    NormLink(WithDefaults(n).transport, WithDefaults(n).mode, RelayNames(WithDefaults(n).sites))
  }

  lemma FormKeeps(n: Network, e: Link)
    ensures Kept(n, e, Form(n)(e))
  {
    NormSitesFixed(n.sites);
    RelayEndExact(n, e);
    UniqueFromProps(e.allowedIPs, {});
  }

  lemma AutoForm(n: Network, p: Pair)
    ensures Automatic(n, Form(n)(AutoLink(p, WithDefaults(n).transport)), p.0, p.1)
  {
    var e := AutoLink(p, WithDefaults(n).transport);
    NormSitesFixed(n.sites);
    RelayEndExact(n, e);
    RelayEndExact(n, Form(n)(e));
    PairNameNotBlank(p.0, p.1);
  }

  /** Every link of the normalised network is a given one or an automatic one. */
  lemma LinkIsKeptOrAutomatic(n: Network, l: Link)
    requires l in Normalise(n).links
    ensures (exists e :: e in n.links && Kept(n, e, l)) || Automatic(n, l, l.from, l.to)
  {
    var m := WithDefaults(n);
    NormLinksMembers(m);
    var e :| e in ExpandedLinks(m) && l == Form(n)(e);
    ExpandExact(n.links, TriedPairs(n), m.transport, e);
    if e in n.links {
      FormKeeps(n, e);
    } else {
      var k :| Added(n.links, TriedPairs(n), k) && e == AutoLink(TriedPairs(n)[k], m.transport);
      AutoForm(n, TriedPairs(n)[k]);
    }
  }

  /** Every given link is there, with what it was given. */
  lemma GivenLinkKept(n: Network, e: Link)
    requires e in n.links
    ensures exists l :: l in Normalise(n).links && Kept(n, e, l)
  {
    var m := WithDefaults(n);
    ExpandExact(n.links, TriedPairs(n), m.transport, e);
    NormLinksMembers(m);
    FormKeeps(n, e);
    assert Form(n)(e) in NormLinks(m);
  }

  /** When names do not clash, a wanted pair that no given link joins gets a link that is up
      and has the defaults of the network. */
  lemma WantedPairLinked(n: Network, a: string, b: string)
    requires DistinctBy(n.sites, SiteName) && NamesDoNotClash(n)
    requires WantedIn(n, a, b) && !Covered(n.links, a, b)
    ensures exists l :: l in Normalise(n).links && Automatic(n, l, a, b)
  {
    TopologyCoverage(n, a, b);
    CoverageExact(n, a, b);
    var m := WithDefaults(n);
    var k :| Added(n.links, TriedPairs(n), k) && SamePair(TriedPairs(n)[k], a, b);
    var p := TriedPairs(n)[k];
    var e := AutoLink(p, m.transport);
    ExpandExact(n.links, TriedPairs(n), m.transport, e);
    NormLinksMembers(m);
    AutoForm(n, p);
    PairNameSymmetric(a, b);
    assert Form(n)(e) in NormLinks(m) && Automatic(n, Form(n)(e), a, b);
  }

  // ----- everything else

  /** What a given site becomes: empty and repeated prefixes and segments go. */
  ghost predicate SiteKept(s: Site, t: Site) {
    && t == s.(cidrs := t.cidrs, segments := t.segments)
    && SameStrings(s.cidrs, t.cidrs) && SameStrings(s.segments, t.segments)
  }

  lemma SiteForm(s: Site)
    ensures SiteKept(s, NormSite(s))
  {
    UniqueFromProps(s.cidrs, {});
    UniqueFromProps(s.segments, {});
  }

  /** Defaults are filled in, everything is sorted by name, and no site or policy is lost,
      repeated or made up. */
  lemma NormalForm(n: Network)
    ensures var m := Normalise(n);
      && m.name == n.name && m.owner == n.owner && m.labels == n.labels
      && m.layer == (if n.layer == LayerUnset then L3 else n.layer)
      && m.topology == (if n.topology == TopologyUnset then PartialMesh else n.topology)
      && TransportTaken(n, m.transport)
      && m.mode == (if n.mode == ModeUnset then Direct else n.mode)
      && SortedBy(m.sites, SiteName) && SortedBy(m.links, StableName) && SortedBy(m.policies, PolicyName)
      && |m.sites| == |n.sites| && multiset(m.policies) == multiset(n.policies)
    ensures forall t :: t in Normalise(n).sites ==> exists s :: s in n.sites && SiteKept(s, t)
    ensures forall s :: s in n.sites ==> exists t :: t in Normalise(n).sites && SiteKept(s, t)
  {
    var m := WithDefaults(n);
    var mapped := MapSeq(n.sites, NormSite);
    SortBySorts(mapped, SiteName);
    assert |multiset(mapped)| == |mapped|;
    SortBySorts(MapSeq(ExpandedLinks(m), Form(n)), StableName);
    SortBySorts(n.policies, PolicyName);
    SitesKept(n);
  }

  lemma SitesKept(n: Network)
    ensures forall t :: t in NormSites(n.sites) ==> exists s :: s in n.sites && SiteKept(s, t)
    ensures forall s :: s in n.sites ==> exists t :: t in NormSites(n.sites) && SiteKept(s, t)
  {
    NormSitesFixed(n.sites);
    forall t | t in NormSites(n.sites) ensures exists s :: s in n.sites && SiteKept(s, t) {
      var s :| s in n.sites && t == NormSite(s);
      SiteForm(s);
    }
    forall s | s in n.sites ensures exists t :: t in NormSites(n.sites) && SiteKept(s, t) {
      SiteForm(s);
      assert NormSite(s) in NormSites(n.sites);
    }
  }

  // ----- the plan

  /** WireGuard has its own tunnels, Geneve and VXLAN are tunnels of the switch. */
  predicate TunnelOf(r: Resource, t: Transport) {
    match t
    case WireGuard => r == WireGuardTunnel
    case Geneve => r == OVSTunnel
    case Vxlan => r == OVSTunnel
    case _ => r == OtherTunnel
  }

  /** What a link that is up asks for: its tunnel, a route or a flow by the layer, and a path
      when it goes through a relay. */
  predicate LinkAsks(layer: Layer, l: Link, op: Operation) {
    && l.enabled && !l.disabled && op.name == StableName(l)
    && (|| TunnelOf(op.resource, l.transport)
        || op.resource == (if layer == L3 then RoutePolicy else OpenFlowRule)
        || (op.resource == PathState && l.mode in {Relay, Transit, Auto}))
  }

  ghost predicate Asks(m: Network, op: Operation) {
    || op == Operation(NetworkState, m.name)
    || (exists s :: s in m.sites && op == Operation(SiteState, s.name))
    || (exists p :: p in m.policies && op == Operation(PolicyState, p.name))
    || (exists l :: l in m.links && LinkAsks(m.layer, l, op))
  }

  lemma {:induction false} LinksAsk(links: seq<Link>, layer: Layer, op: Operation)
    ensures op in AllLinkOps(links, layer) <==> exists l :: l in links && LinkAsks(layer, l, op)
  {
    if links != [] {
      LinksAsk(links[1..], layer, op);
      LinkAsksExact(links[0], layer, op);
      assert links == [links[0]] + links[1..];
    }
  }

  lemma LinkAsksExact(l: Link, layer: Layer, op: Operation)
    ensures op in LinkOps(l, layer) <==> LinkAsks(layer, l, op)
  {
    assert op == Operation(op.resource, op.name);
  }

  lemma {:induction false} SitesAsk(sites: seq<Site>, op: Operation)
    ensures op in SiteOps(sites) <==> exists s :: s in sites && op == Operation(SiteState, s.name)
  {
    if sites != [] {
      SitesAsk(sites[1..], op);
      assert sites == [sites[0]] + sites[1..];
    }
  }

  lemma {:induction false} PoliciesAsk(policies: seq<Policy>, op: Operation)
    ensures op in PolicyOps(policies) <==> exists p :: p in policies && op == Operation(PolicyState, p.name)
  {
    if policies != [] {
      PoliciesAsk(policies[1..], op);
      assert policies == [policies[0]] + policies[1..];
    }
  }

  /** The plan of a normalised network is what the network, its sites, policies and links ask
      for, and nothing else. */
  lemma PlanExact(n: Network, op: Operation)
    ensures op in PlanOver(Normalise(n), NormLinks(Normalise(n))) <==> Asks(Normalise(n), op)
  {
    var m := Normalise(n);
    NormaliseFixed(n);
    LinksAsk(m.links, m.layer, op);
    SitesAsk(m.sites, op);
    PoliciesAsk(m.policies, op);
  }

  lemma LinkPlanned(n: Network, l: Link, op: Operation)
    requires l in Normalise(n).links && LinkAsks(LayerOf(n), l, op)
    ensures op in PlanOver(Normalise(n), NormLinks(Normalise(n)))
  {
    PlanExact(n, op);
  }

  /** Routes at layer 3, which is the default, and flows at layer 2. */
  function WayOf(layer: Layer): Resource {
    if layer in {LayerUnset, L3} then RoutePolicy else OpenFlowRule
  }

  lemma AutomaticAsks(n: Network, l: Link, a: string, b: string, op: Operation)
    requires Automatic(n, l, a, b) && op.name == PairName(a, b)
    requires TunnelOf(op.resource, TransportOf(n)) || op.resource == WayOf(n.layer)
    ensures LinkAsks(LayerOf(n), l, op)
  {
    PairNameNotBlank(a, b);
  }

  /** So a wanted pair that no given link joins gets its tunnel and its route or flow. */
  lemma WantedPairPlanned(n: Network, a: string, b: string, op: Operation)
    requires DistinctBy(n.sites, SiteName) && NamesDoNotClash(n)
    requires WantedIn(n, a, b) && !Covered(n.links, a, b)
    requires op.name == PairName(a, b)
    requires TunnelOf(op.resource, if n.transport == TransportUnset then WireGuard else n.transport)
          || op.resource == WayOf(n.layer)
    ensures op in PlanOver(Normalise(n), NormLinks(Normalise(n)))
  {
    WantedPairLinked(n, a, b);
    var l :| l in Normalise(n).links && Automatic(n, l, a, b);
    AutomaticAsks(n, l, a, b, op);
    LinkPlanned(n, l, op);
  }
}
