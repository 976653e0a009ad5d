/** Which tunnel a destination prefix is routed over (sdwanlinux/backend.go). */
module SdwanPaths {
  import opened Text
  import opened Sdwan
  import opened SdwanNormalise
  import opened SdwanTopology

  // ----- sites and links seen from the local site

  function NoSite(): Site { Site("", "", [], "", "", "", map[], [], false, false) }

  /** findSite: the first site of that name, if any. */
  predicate HasSite(sites: seq<Site>, name: string) {
    exists i :: 0 <= i < |sites| && sites[i].name == name
  }

  function FindSite(sites: seq<Site>, name: string): Site {
    if sites == [] then NoSite() else if sites[0].name == name then sites[0] else FindSite(sites[1..], name)
  }

  lemma {:induction false} FindSiteExact(sites: seq<Site>, s: Site)
    requires DistinctBy(sites, SiteName) && s in sites
    ensures FindSite(sites, s.name) == s
  {
    if s != sites[0] {
      assert s in sites[1..];
      var i :| 0 < i < |sites| && sites[i] == s;
      assert SiteName(sites[0]) != SiteName(sites[i]);
      FindSiteExact(sites[1..], s);
    }
  }

  predicate Touches(l: Link, site: string) { l.from == site || l.to == site }

  function RemoteName(l: Link, local: string): string { if l.from == local then l.to else l.from }

  function RemoteSite(n: Network, l: Link, local: string): Site { FindSite(n.sites, RemoteName(l, local)) }

  predicate IsEnabled(l: Link) { l.enabled && !l.disabled }

  /** linkActsAsRelayPath. */
  predicate ActsAsRelayPath(n: Network, l: Link, local: string) {
    NeedsRelay(if l.mode == ModeUnset then n.mode else l.mode) && IsRelaySite(RemoteSite(n, l, local))
  }

  /** pathModeForLink. */
  function PathModeFor(n: Network, l: Link): PathMode {
    if l.mode != ModeUnset then l.mode else if n.mode != ModeUnset then n.mode else Direct
  }

  /** hasEnabledDirectLink. */
  predicate HasDirectLink(n: Network, a: string, b: string) {
    exists l :: l in n.links && IsEnabled(l) && PathModeFor(n, l) == Direct && Touches(l, a) && Touches(l, b)
  }

  /** A relay link also carries this site's prefixes. */
  predicate Relayed(n: Network, s: Site, remote: Site, l: Link, local: string) {
    && s.name != local && s.name != remote.name && !IsRelaySite(s)
    && !(PathModeFor(n, l) == Auto && HasDirectLink(n, local, s.name))
  }

  function RelayedCidrs(n: Network, sites: seq<Site>, remote: Site, l: Link, local: string): seq<string> {
    if sites == [] then []
    else (if Relayed(n, sites[0], remote, l, local) then sites[0].cidrs else [])
         + RelayedCidrs(n, sites[1..], remote, l, local)
  }

  /** uniqueSorted. */
  function UniqueSorted(s: seq<string>): seq<string> { SortStrings(Unique(s)) }

  function AllowedIPs(n: Network, remote: Site, l: Link, local: string): seq<string> {
    if l.allowedIPs != [] then UniqueSorted(l.allowedIPs)
    else UniqueSorted(remote.cidrs + (if ActsAsRelayPath(n, l, local) then RelayedCidrs(n, n.sites, remote, l, local) else []))
  }

  method FindDirectLink(n: Network, a: string, b: string) returns (found: bool)
    ensures found == HasDirectLink(n, a, b)
  {
    for i := 0 to |n.links|
      invariant forall k :: 0 <= k < i ==>
        var l := n.links[k];
        !(IsEnabled(l) && PathModeFor(n, l) == Direct && Touches(l, a) && Touches(l, b))
    {
      var l := n.links[i];
      if IsEnabled(l) && PathModeFor(n, l) == Direct && Touches(l, a) && Touches(l, b) {
        return true;
      }
    }
    return false;
  }

  /** allowedIPsForRemote. */
  method AllowedIPsForRemote(n: Network, remote: Site, l: Link, local: string) returns (out: seq<string>)
    ensures out == AllowedIPs(n, remote, l, local)
  {
    if l.allowedIPs != [] {
      return UniqueSorted(l.allowedIPs);
    }
    var cidrs := remote.cidrs;
    if ActsAsRelayPath(n, l, local) {
      for i := 0 to |n.sites|
        invariant cidrs + RelayedCidrs(n, n.sites[i..], remote, l, local) ==
                  remote.cidrs + RelayedCidrs(n, n.sites, remote, l, local)
      {
        var s := n.sites[i];
        assert n.sites[i..][1..] == n.sites[i + 1..];
        if s.name == local || s.name == remote.name || IsRelaySite(s) {
          continue;
        }
        if PathModeFor(n, l) == Auto {
          var direct := FindDirectLink(n, local, s.name);
          if direct {
            continue;
          }
        }
        cidrs := cidrs + s.cidrs;
      }
    }
    assert cidrs + [] == cidrs;
    return UniqueSorted(cidrs);
  }

  lemma UniqueSortedMembers(s: seq<string>, c: string)
    ensures c in UniqueSorted(s) <==> c in s && c != ""
  {
    UniqueFromProps(s, {});
    SortBySorts(Unique(s), Identity);
    SameMembers(Unique(s), UniqueSorted(s));
  }

  lemma {:induction false} RelayedCidrsMembers(n: Network, sites: seq<Site>, remote: Site, l: Link, local: string, c: string)
    ensures c in RelayedCidrs(n, sites, remote, l, local) <==>
      exists s :: s in sites && Relayed(n, s, remote, l, local) && c in s.cidrs
  {
    if sites != [] {
      RelayedCidrsMembers(n, sites[1..], remote, l, local, c);
      assert sites == [sites[0]] + sites[1..];
    }
  }

  // ----- the routing table

  datatype Device = Device(network: string, wireGuard: bool, link: string)

  type Routes = map<string, Device>

  /** tunnelInterface. */
  function DeviceOf(n: Network, l: Link): Device { Device(n.name, l.transport == WireGuard, StableName(l)) }

  /** ip route replace, for each prefix. */
  function Put(routes: Routes, cidrs: seq<string>, d: Device): Routes {
    routes + (map c | c in cidrs :: d)
  }

  /** ip link delete: every route through the device goes with it. */
  function Drop(routes: Routes, d: Device): Routes {
    map c | c in routes && routes[c] != d :: routes[c]
  }

  /** deleteLink deletes the device of a WireGuard link, in either layer; the routes it
      deletes one by one before that are among those. */
  predicate Clears(local: string, l: Link) {
    Touches(l, local) && !IsEnabled(l) && l.transport == WireGuard
  }

  function Cleared(routes: Routes, n: Network, local: string, links: seq<Link>): Routes
    decreases |links|
  {
    if links == [] then routes
    else Cleared(if Clears(local, links[0]) then Drop(routes, DeviceOf(n, links[0])) else routes, n, local, links[1..])
  }

  predicate Installs(n: Network, local: string, l: Link) {
    Touches(l, local) && IsEnabled(l) && n.layer == L3
  }

  function Installed(routes: Routes, n: Network, local: string, links: seq<Link>): Routes
    decreases |links|
  {
    if links == [] then routes
    else
      var l := links[0];
      Installed(if Installs(n, local, l) then Put(routes, AllowedIPs(n, RemoteSite(n, l, local), l, local), DeviceOf(n, l)) else routes,
                n, local, links[1..])
  }

  /** The table after applying a normalised network. */
  function AppliedRoutes(routes: Routes, n: Network, local: string): Routes {
    Installed(Cleared(routes, n, local, n.links), n, local, n.links)
  }

  predicate RemotesKnown(n: Network, local: string) {
    forall l :: l in n.links && Touches(l, local) ==> HasSite(n.sites, RemoteName(l, local))
  }

  datatype ApplyResult = Applied | InvalidNetwork | NoLocalSite | NoRemoteSite

  /** The routing state of the Linux backend of one site. */
  class Backend {
    const localSite: string
    var routes: Routes

    constructor (localSite: string)
      ensures this.localSite == localSite && routes == map[]
    {
      this.localSite := localSite;
      routes := map[];
    }

    /** ApplySDWAN, as far as it sets routes. */
    method ApplySDWAN(raw: Network, validCidr: string -> bool) returns (r: ApplyResult)
      modifies this
      ensures r == InvalidNetwork <==> !ValidNetwork(raw, validCidr)
      ensures r == NoLocalSite <==> ValidNetwork(raw, validCidr) && !HasSite(Normalise(raw).sites, localSite)
      ensures r == Applied ==> routes == AppliedRoutes(old(routes), Normalise(raw), localSite)
      ensures r == Applied ==> RemotesKnown(Normalise(raw), localSite)
      ensures r == NoRemoteSite ==> !RemotesKnown(Normalise(raw), localSite)
      ensures r == InvalidNetwork || r == NoLocalSite ==> routes == old(routes)
    {
      var ok := Validate(raw, validCidr);
      if !ok {
        return InvalidNetwork;
      }
      var n := Normalise(raw);
      if !HasSite(n.sites, localSite) {
        return NoLocalSite;
      }
      DeleteDisabled(n);
      var known := InstallEnabled(n);
      return if known then Applied else NoRemoteSite;
    }

    method DeleteDisabled(n: Network)
      modifies this
      ensures routes == Cleared(old(routes), n, localSite, n.links)
    {
      for i := 0 to |n.links|
        invariant Cleared(routes, n, localSite, n.links[i..]) == Cleared(old(routes), n, localSite, n.links)
      {
        var l := n.links[i];
        assert n.links[i..][1..] == n.links[i + 1..];
        if Clears(localSite, l) {
          routes := Drop(routes, DeviceOf(n, l));
        }
      }
    }

    method InstallEnabled(n: Network) returns (known: bool)
      modifies this
      ensures known == RemotesKnown(n, localSite)
      ensures known ==> routes == Installed(old(routes), n, localSite, n.links)
    {
      for i := 0 to |n.links|
        invariant Installed(routes, n, localSite, n.links[i..]) == Installed(old(routes), n, localSite, n.links)
        invariant forall k :: 0 <= k < i && Touches(n.links[k], localSite) ==>
          HasSite(n.sites, RemoteName(n.links[k], localSite))
      {
        var l := n.links[i];
        assert n.links[i..][1..] == n.links[i + 1..];
        if !Touches(l, localSite) {
          continue;
        }
        if !HasSite(n.sites, RemoteName(l, localSite)) {
          assert l in n.links;
          return false;
        }
        if Installs(n, localSite, l) {
          var cidrs := AllowedIPsForRemote(n, RemoteSite(n, l, localSite), l, localSite);
          routes := Put(routes, cidrs, DeviceOf(n, l));
        }
      }
      return true;
    }
  }

  /** The link routes the prefix. */
  predicate Carries(n: Network, local: string, l: Link, c: string) {
    Installs(n, local, l) && c in AllowedIPs(n, RemoteSite(n, l, local), l, local)
  }

  lemma {:induction false} InstalledNone(routes: Routes, n: Network, local: string, links: seq<Link>, c: string)
    requires forall l :: l in links ==> !Carries(n, local, l, c)
    ensures c in Installed(routes, n, local, links) <==> c in routes
    ensures c in routes ==> Installed(routes, n, local, links)[c] == routes[c]
    decreases |links|
  {
    if links != [] {
      var l := links[0];
      assert l in links;
      var next := if Installs(n, local, l) then Put(routes, AllowedIPs(n, RemoteSite(n, l, local), l, local), DeviceOf(n, l)) else routes;
      InstalledNone(next, n, local, links[1..], c);
    }
  }

  /** When one link carries the prefix, the table ends up naming its device, whatever the
      table held before. */
  lemma {:induction false} InstalledOne(routes: Routes, n: Network, local: string, links: seq<Link>, e: Link, c: string)
    requires e in links && forall l :: l in links ==> (Carries(n, local, l, c) <==> l == e)
    ensures c in Installed(routes, n, local, links) && Installed(routes, n, local, links)[c] == DeviceOf(n, e)
    decreases |links|
  {
    var l := links[0];
    var next := if Installs(n, local, l) then Put(routes, AllowedIPs(n, RemoteSite(n, l, local), l, local), DeviceOf(n, l)) else routes;
    if e in links[1..] {
      InstalledOne(next, n, local, links[1..], e, c);
    } else {
      assert l == e;
      InstalledNone(next, n, local, links[1..], c);
    }
  }

  // ----- which links carry a prefix

  /** The prefix belongs to the site and to no other. */
  ghost predicate OwnedBy(n: Network, c: string, x: Site) {
    x in n.sites && c in x.cidrs && forall s :: s in n.sites && c in s.cidrs ==> s == x
  }

  ghost predicate ReadyLink(l: Link, names: set<string>, relays: set<string>) {
    && l.mode != ModeUnset && l.from in names && l.to in names && l.from != l.to
    && (NeedsRelay(l.mode) ==> l.from in relays || l.to in relays)
    && (l.mode == Direct || NeedsRelay(l.mode))
  }

  /** What path selection relies on; every valid network is so once normalised. */
  ghost predicate Ready(n: Network) {
    && DistinctBy(n.sites, SiteName)
    && (forall s :: s in n.sites ==> "" !in s.cidrs)
    && (forall l :: l in n.links ==> ReadyLink(l, Names(n.sites), RelayNames(n.sites)))
  }

  lemma NormLinkHasMode(m: Network, l: Link)
    requires m.mode != ModeUnset && l in NormLinks(m)
    ensures l.mode != ModeUnset
  {
    var f := NormLink(m.transport, m.mode, RelayNames(m.sites));
    NormLinksMembers(m);
    var e :| e in ExpandedLinks(m) && l == f(e);
    assert f(e).mode == if e.mode == ModeUnset then DefaultMode(m.mode, e, RelayNames(m.sites)) else e.mode;
  }

  lemma ValidIsReady(n: Network, validCidr: string -> bool)
    requires ValidNetwork(n, validCidr) && !validCidr("")
    requires forall l :: l in n.links ==> l.mode != ModeUnset
    ensures Ready(n)
  {
    forall l | l in n.links ensures ReadyLink(l, Names(n.sites), RelayNames(n.sites)) {
      assert ValidLink(l, Names(n.sites), RelayNames(n.sites), TransportOf(n));
    }
    forall s | s in n.sites ensures "" !in s.cidrs {
      assert ValidSite(s, LayerOf(n), validCidr);
    }
  }

  lemma NormalisedIsReady(raw: Network, validCidr: string -> bool)
    requires ValidNetwork(raw, validCidr) && !validCidr("")
    ensures Ready(Normalise(raw))
  {
    NormaliseValid(raw, validCidr);
    var m := WithDefaults(raw);
    assert Normalise(raw).links == NormLinks(m);
    forall l | l in NormLinks(m) ensures l.mode != ModeUnset {
      NormLinkHasMode(m, l);
    }
    ValidIsReady(Normalise(raw), validCidr);
  }

  lemma RemoteExact(n: Network, l: Link, local: string)
    requires Ready(n) && l in n.links && Touches(l, local)
    ensures var r := RemoteSite(n, l, local);
      && r in n.sites && r.name == RemoteName(l, local) && r.name != local
      && (IsRelaySite(r) <==> r.name in RelayNames(n.sites))
      && Joins(l, local, r.name)
  {
    var r :| r in n.sites && r.name == RemoteName(l, local);
    FindSiteExact(n.sites, r);
    RelayByName(n.sites, r);
  }

  /** The link of this site is up in a layer-3 network. */
  predicate Up(n: Network, local: string, l: Link) {
    (l.from == local || l.to == local) && l.enabled && !l.disabled && n.layer == L3
  }

  /** An enabled direct link joins the two sites. */
  ghost predicate DirectUp(n: Network, a: string, b: string) {
    exists k :: k in n.links && k.enabled && !k.disabled && k.mode == Direct && Joins(k, a, b)
  }

  lemma DirectUpExact(n: Network, a: string, b: string)
    requires Ready(n) && a != b
    ensures HasDirectLink(n, a, b) <==> DirectUp(n, a, b)
  {
    if HasDirectLink(n, a, b) {
      var k :| k in n.links && IsEnabled(k) && PathModeFor(n, k) == Direct && Touches(k, a) && Touches(k, b);
      assert ReadyLink(k, Names(n.sites), RelayNames(n.sites)) && Joins(k, a, b);
    }
    if DirectUp(n, a, b) {
      var k :| k in n.links && k.enabled && !k.disabled && k.mode == Direct && Joins(k, a, b);
      assert IsEnabled(k) && PathModeFor(n, k) == Direct && Touches(k, a) && Touches(k, b);
    }
  }

  /** A link that is given its prefixes carries those and no others. */
  lemma OverrideCarries(n: Network, local: string, l: Link, c: string)
    requires l.allowedIPs != []
    ensures Carries(n, local, l, c) <==> Up(n, local, l) && c in l.allowedIPs && c != ""
  {
    UniqueSortedMembers(l.allowedIPs, c);
  }

  /** Exactly which of the local site's links without given prefixes carry a prefix owned by
      one remote site, with any number of relaying sites: the link to that site, and every
      relay, transit or automatic link to a relaying site, except an automatic one when a
      direct link is up. */
  lemma CarriesExactly(n: Network, local: string, l: Link, x: Site, c: string)
    requires Ready(n) && l in n.links && OwnedBy(n, c, x) && x.name != local && l.allowedIPs == []
    ensures Carries(n, local, l, c) <==>
      && Up(n, local, l)
      && (|| Joins(l, local, x.name)
          || (RemoteName(l, local) in RelayNames(n.sites) && x.name !in RelayNames(n.sites)
              && l.mode in {Relay, Transit, Auto} && !(l.mode == Auto && DirectUp(n, local, x.name))))
  {
    DirectUpExact(n, local, x.name);
    if Installs(n, local, l) {
      CarriesWhenUp(n, local, l, x, c);
    }
  }

  lemma CarriesWhenUp(n: Network, local: string, l: Link, x: Site, c: string)
    requires Ready(n) && l in n.links && OwnedBy(n, c, x) && x.name != local
    requires Installs(n, local, l) && l.allowedIPs == []
    ensures Carries(n, local, l, c) <==>
      || Joins(l, local, x.name)
      || (RemoteName(l, local) in RelayNames(n.sites) && x.name !in RelayNames(n.sites) && NeedsRelay(l.mode)
          && !(l.mode == Auto && HasDirectLink(n, local, x.name)))
  {
    var r := RemoteSite(n, l, local);
    RemoteExact(n, l, local);
    FindSiteExact(n.sites, x);
    RelayByName(n.sites, x);
    UniqueSortedMembers(r.cidrs + (if ActsAsRelayPath(n, l, local) then RelayedCidrs(n, n.sites, r, l, local) else []), c);
    RelayedCidrsMembers(n, n.sites, r, l, local, c);
    assert Joins(l, local, x.name) <==> r.name == x.name;
    assert r.name == x.name ==> r == x by {
      FindSiteExact(n.sites, r);
    }
  }

  // ----- one relaying site

  /** The setting of automatic path selection: one relaying site, an enabled automatic link to
      it, no allowed-address overrides and at most one enabled link per pair around the local
      site. */
  ghost predicate AutoSetting(n: Network, local: string, relay: string, up: Link) {
    && n.layer == L3 && n.mode == Auto
    && RelayNames(n.sites) == {relay} && local in Names(n.sites) && local != relay
    && up in n.links && IsEnabled(up) && up.mode == Auto && Joins(up, local, relay)
    && (forall l :: l in n.links && Touches(l, local) ==> l.allowedIPs == [])
    && OnePerPair(n, local)
  }

  /** Whichever two enabled links join the local site with the same site are the same link. */
  ghost predicate OnePerPair(n: Network, local: string) {
    forall k, l, r :: k in n.links && l in n.links && IsEnabled(k) && IsEnabled(l) && Joins(k, local, r) && Joins(l, local, r)
      ==> k == l
  }

  ghost predicate Linked(n: Network, a: string, b: string) {
    exists l :: l in n.links && IsEnabled(l) && Joins(l, a, b)
  }

  /** Between non-relaying sites an enabled link is direct. */
  lemma LinkedIsDirect(n: Network, a: string, b: string)
    requires Ready(n) && a != b && a !in RelayNames(n.sites) && b !in RelayNames(n.sites)
    ensures HasDirectLink(n, a, b) <==> Linked(n, a, b)
  {
    if l :| l in n.links && IsEnabled(l) && Joins(l, a, b) {
        assert PathModeFor(n, l) == Direct && Touches(l, a) && Touches(l, b);
    }
  }

  lemma OnlyRelayLink(n: Network, local: string, relay: string, up: Link, l: Link)
    requires Ready(n) && AutoSetting(n, local, relay, up) && l in n.links && Installs(n, local, l)
    ensures RemoteName(l, local) == relay <==> l == up
    ensures l.allowedIPs == [] && (Joins(l, local, relay) <==> l == up)
  {
    RemoteExact(n, l, local);
    if RemoteName(l, local) == relay {
      assert Joins(l, local, relay) && Joins(up, local, relay);
    }
  }

  /** What CarriesWhenUp comes to when there is one relaying site. */
  lemma OneRelayCases(n: Network, local: string, relay: string, up: Link, x: Site, l: Link, carries: bool)
    requires AutoSetting(n, local, relay, up) && x.name != local && l in n.links && Installs(n, local, l)
    requires RemoteName(l, local) == relay <==> l == up
    requires carries <==>
      || Joins(l, local, x.name)
      || (RemoteName(l, local) in RelayNames(n.sites) && x.name !in RelayNames(n.sites) && NeedsRelay(l.mode)
          && !(l.mode == Auto && HasDirectLink(n, local, x.name)))
    requires x.name != relay ==> (HasDirectLink(n, local, x.name) <==> Linked(n, local, x.name))
    ensures carries <==> IsEnabled(l) && (Joins(l, local, x.name) || (l == up && !Linked(n, local, x.name)))
  {
    if x.name == relay {
      assert Joins(up, local, x.name) && Linked(n, local, x.name);
    }
  }

  /** Automatic path selection is a partition: of the local site's links exactly one carries a
      remote site's prefix, the link to that site if one is enabled, else the relay link. */
  lemma AutoPathIsPartition(
      n: Network, local: string, relay: string, up: Link, x: Site, c: string, l: Link)
    requires Ready(n) && AutoSetting(n, local, relay, up)
    requires OwnedBy(n, c, x) && x.name != local && l in n.links
    ensures Carries(n, local, l, c) <==>
      IsEnabled(l) && (Joins(l, local, x.name) || (l == up && !Linked(n, local, x.name)))
  {
    if Installs(n, local, l) {
      OnlyRelayLink(n, local, relay, up, l);
      CarriesWhenUp(n, local, l, x, c);
      if x.name != relay {
        LinkedIsDirect(n, local, x.name);
      }
      OneRelayCases(n, local, relay, up, x, l, Carries(n, local, l, c));
    }
  }

  /** Exactly one: some link carries the prefix, and no other does. */
  lemma ExactlyOneCarrier(
      n: Network, local: string, relay: string, up: Link, x: Site, c: string)
    returns (e: Link)
    requires Ready(n) && AutoSetting(n, local, relay, up) && OwnedBy(n, c, x) && x.name != local
    ensures e in n.links && forall l :: l in n.links ==> (Carries(n, local, l, c) <==> l == e)
    ensures if Linked(n, local, x.name) then Joins(e, local, x.name) else e == up
  {
    if Linked(n, local, x.name) {
      e :| e in n.links && IsEnabled(e) && Joins(e, local, x.name);
    } else {
      e := up;
    }
    forall l | l in n.links ensures Carries(n, local, l, c) <==> l == e {
      AutoPathIsPartition(n, local, relay, up, x, c, l);
    }
  }

  /** After an apply the routing table sends the prefix through that link's device, whatever
      the table held before. */
  lemma AutoRoutes(
      routes: Routes, n: Network, local: string, relay: string, up: Link, x: Site, c: string)
    returns (e: Link)
    requires Ready(n) && AutoSetting(n, local, relay, up) && OwnedBy(n, c, x) && x.name != local
    ensures e in n.links && IsEnabled(e)
    ensures if Linked(n, local, x.name) then Joins(e, local, x.name) else e == up
    ensures c in AppliedRoutes(routes, n, local) && AppliedRoutes(routes, n, local)[c] == DeviceOf(n, e)
  {
    e := ExactlyOneCarrier(n, local, relay, up, x, c);
    InstalledOne(Cleared(routes, n, local, n.links), n, local, n.links, e, c);
  }

  /** The same for any valid network, as ApplySDWAN normalises it. */
  lemma AutoRoutesAfterApply(
      routes: Routes, raw: Network, validCidr: string -> bool, local: string, relay: string, up: Link, x: Site, c: string)
    returns (e: Link)
    requires ValidNetwork(raw, validCidr) && !validCidr("")
    requires AutoSetting(Normalise(raw), local, relay, up) && OwnedBy(Normalise(raw), c, x) && x.name != local
    ensures e in Normalise(raw).links && IsEnabled(e)
    ensures if Linked(Normalise(raw), local, x.name) then Joins(e, local, x.name) else e == up
    ensures var table := AppliedRoutes(routes, Normalise(raw), local);
      c in table && table[c] == DeviceOf(Normalise(raw), e)
  {
    NormalisedIsReady(raw, validCidr);
    e := AutoRoutes(routes, Normalise(raw), local, relay, up, x, c);
  }

  /** For a valid network the missing-remote error does not arise. */
  lemma RemotesAreKnown(raw: Network, validCidr: string -> bool, local: string)
    requires ValidNetwork(raw, validCidr) && !validCidr("")
    ensures RemotesKnown(Normalise(raw), local)
  {
    var n := Normalise(raw);
    NormalisedIsReady(raw, validCidr);
    forall l | l in n.links && Touches(l, local) ensures HasSite(n.sites, RemoteName(l, local)) {
      RemoteExact(n, l, local);
    }
  }

  // ----- prefixes of others

  /** The route goes through the device of a disabled link, which an apply deletes. */
  ghost predicate DropsRoute(routes: Routes, n: Network, local: string, l: Link, c: string) {
    && (l.from == local || l.to == local) && (l.disabled || !l.enabled) && l.transport == WireGuard
    && c in routes && routes[c] == Device(n.name, true, StableName(l))
  }

  lemma {:induction false} ClearedExact(routes: Routes, n: Network, local: string, links: seq<Link>, c: string)
    ensures var out := Cleared(routes, n, local, links);
      && (c in out <==> c in routes && !exists l :: l in links && DropsRoute(routes, n, local, l, c))
      && (c in out ==> out[c] == routes[c])
    decreases |links|
  {
    if links != [] {
      var l := links[0];
      var next := if Clears(local, l) then Drop(routes, DeviceOf(n, l)) else routes;
      ClearedExact(next, n, local, links[1..], c);
      assert links == [l] + links[1..];
      assert c in next <==> c in routes && !DropsRoute(routes, n, local, l, c);
      assert forall k :: c in next ==> (DropsRoute(next, n, local, k, c) <==> DropsRoute(routes, n, local, k, c));
    }
  }

  /** A prefix that no enabled link carries keeps its route, unless that goes through the
      device of a disabled link. */
  lemma OtherRoutesKept(routes: Routes, n: Network, local: string, c: string)
    requires forall l :: l in n.links ==> !Carries(n, local, l, c)
    ensures var out := AppliedRoutes(routes, n, local);
      && (c in out <==> c in routes && !exists l :: l in n.links && DropsRoute(routes, n, local, l, c))
      && (c in out ==> out[c] == routes[c])
  {
    ClearedExact(routes, n, local, n.links, c);
    InstalledNone(Cleared(routes, n, local, n.links), n, local, n.links, c);
  }

  /** So after an apply no route of this site is left through the tunnel of a WireGuard link
      that is not up, unless a link that is up has its name. */
  lemma NoRouteThroughDisabled(routes: Routes, n: Network, local: string, l: Link, c: string)
    requires l in n.links && (l.from == local || l.to == local) && (l.disabled || !l.enabled) && l.transport == WireGuard
    requires forall k :: k in n.links && Up(n, local, k) && k.transport == WireGuard ==> StableName(k) != StableName(l)
    ensures var table := AppliedRoutes(routes, n, local);
      c in table ==> table[c] != Device(n.name, true, StableName(l))
  {
    var cleared := Cleared(routes, n, local, n.links);
    ClearedExact(routes, n, local, n.links, c);
    if c in cleared {
      assert !DropsRoute(routes, n, local, l, c);
    }
    if c in AppliedRoutes(routes, n, local) {
      InstalledDevices(cleared, n, local, n.links, c);
    }
  }

  /** When several links carry a prefix, the last of them gets it. */
  lemma {:induction false} InstalledLast(routes: Routes, n: Network, local: string, links: seq<Link>, i: nat, c: string)
    requires i < |links| && Carries(n, local, links[i], c)
    requires forall j :: i < j < |links| ==> !Carries(n, local, links[j], c)
    ensures c in Installed(routes, n, local, links) && Installed(routes, n, local, links)[c] == DeviceOf(n, links[i])
    decreases |links|
  {
    var l := links[0];
    var next := if Installs(n, local, l) then Put(routes, AllowedIPs(n, RemoteSite(n, l, local), l, local), DeviceOf(n, l)) else routes;
    if i > 0 {
      InstalledLast(next, n, local, links[1..], i - 1, c);
    } else {
      InstalledNone(next, n, local, links[1..], c);
    }
  }

  /** The table after an apply: a prefix goes to the last link that carries it. */
  lemma LastCarrierWins(routes: Routes, n: Network, local: string, i: nat, c: string)
    requires i < |n.links| && Carries(n, local, n.links[i], c)
    requires forall j :: i < j < |n.links| ==> !Carries(n, local, n.links[j], c)
    ensures var table := AppliedRoutes(routes, n, local);
      c in table && table[c] == Device(n.name, n.links[i].transport == WireGuard, StableName(n.links[i]))
  {
    InstalledLast(Cleared(routes, n, local, n.links), n, local, n.links, i, c);
  }

  lemma {:induction false} InstalledDevices(routes: Routes, n: Network, local: string, links: seq<Link>, c: string)
    requires c in Installed(routes, n, local, links)
    ensures var d := Installed(routes, n, local, links)[c];
      (c in routes && routes[c] == d) || exists k :: k in links && Installs(n, local, k) && DeviceOf(n, k) == d
    decreases |links|
  {
    if links != [] {
      var l := links[0];
      var next := if Installs(n, local, l) then Put(routes, AllowedIPs(n, RemoteSite(n, l, local), l, local), DeviceOf(n, l)) else routes;
      InstalledDevices(next, n, local, links[1..], c);
      assert l in links && forall k :: k in links[1..] ==> k in links;
    }
  }

  // ----- several relaying sites

  /** With automatic links to two relaying sites and no direct link, both carry the prefix:
      one relaying site is what makes the choice unique. */
  lemma TwoRelaysBothCarry(n: Network, local: string, k: Link, l: Link, x: Site, c: string)
    requires Ready(n) && OwnedBy(n, c, x) && x.name != local && x.name !in RelayNames(n.sites)
    requires k in n.links && l in n.links && Installs(n, local, k) && Installs(n, local, l)
    requires k.mode == Auto && l.mode == Auto && k.allowedIPs == [] && l.allowedIPs == []
    requires RemoteName(k, local) in RelayNames(n.sites) && RemoteName(l, local) in RelayNames(n.sites)
    ensures Carries(n, local, k, c) && Carries(n, local, l, c) <==> !DirectUp(n, local, x.name)
    ensures Carries(n, local, k, c) || Carries(n, local, l, c) <==> !DirectUp(n, local, x.name)
  {
    CarriesExactly(n, local, k, x, c);
    CarriesExactly(n, local, l, x, c);
    RemoteExact(n, k, local);
    RemoteExact(n, l, local);
  }
}
