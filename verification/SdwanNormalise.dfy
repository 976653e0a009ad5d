/** Normalising an SD-WAN network is a fixed point that keeps validity (sdwan.go). */
module SdwanNormalise {
  import opened Text
  import opened Sdwan

  // ----- mapping and sorting a list whose keys the map keeps

  ghost predicate Settles<T>(x: T, f: T -> T, key: T -> string) {
    key(f(x)) == key(x) && f(f(x)) == f(x)
  }

  ghost predicate KeepsKey<T>(s: seq<T>, f: T -> T, key: T -> string) {
    forall x :: x in s ==> Settles(x, f, key)
  }

  /** t holds exactly the images of s. */
  ghost predicate Images<T(!new)>(s: seq<T>, t: seq<T>, f: T -> T) {
    forall y :: y in t <==> exists x :: x in s && y == f(x)
  }

  /** Mapping and then sorting: the members are the images, the keys stay distinct, and a
      second round changes nothing. */
  lemma MapSortFixed<T(!new)>(s: seq<T>, f: T -> T, key: T -> string)
    requires KeepsKey(s, f, key)
    ensures var t := SortBy(MapSeq(s, f), key);
      && (DistinctBy(s, key) ==> DistinctBy(t, key)) && SortedBy(t, key)
      && Images(s, t, f)
      && MapSeq(t, f) == t && SortBy(t, key) == t
  {
    var m := MapSeq(s, f);
    var t := SortBy(m, key);
    SortBySorts(m, key);
    SameMembers(m, t);
    if DistinctBy(s, key) {
      MapDistinct(s, f, key);
      DistinctMultiset(m, t, key);
    }
    MapMembers(s, t, f);
    MapFixed(s, t, f, key);
    SortBySorted(t, key);
  }

  lemma MapDistinct<T(!new)>(s: seq<T>, f: T -> T, key: T -> string)
    requires DistinctBy(s, key) && KeepsKey(s, f, key)
    ensures DistinctBy(MapSeq(s, f), key)
  {
    var m := MapSeq(s, f);
    forall i, j | 0 <= i < j < |m| ensures key(m[i]) != key(m[j]) {
      assert s[i] in s && s[j] in s;
      assert Settles(s[i], f, key) && Settles(s[j], f, key);
    }
  }

  lemma MapMembers<T(!new)>(s: seq<T>, t: seq<T>, f: T -> T)
    requires multiset(MapSeq(s, f)) == multiset(t)
    ensures Images(s, t, f)
  {
    var m := MapSeq(s, f);
    SameMembers(m, t);
    forall y ensures y in m <==> exists x :: x in s && y == f(x) {
      if y in m {
        var i :| 0 <= i < |m| && m[i] == y;
        assert s[i] in s && y == f(s[i]);
      }
      if x :| x in s && y == f(x) {
        var i :| 0 <= i < |s| && s[i] == x;
        assert m[i] in m;
      }
    }
  }

  lemma MapFixed<T(!new)>(s: seq<T>, t: seq<T>, f: T -> T, key: T -> string)
    requires KeepsKey(s, f, key)
    requires Images(s, t, f)
    ensures MapSeq(t, f) == t
  {
    forall i | 0 <= i < |t| ensures f(t[i]) == t[i] {
      assert t[i] in t;
      var x :| x in s && t[i] == f(x);
      assert Settles(x, f, key);
    }
  }

  // ----- sites

  lemma NormSiteProps(s: Site)
    ensures NormSite(s).name == s.name && IsRelaySite(NormSite(s)) == IsRelaySite(s)
    ensures NormSite(NormSite(s)) == NormSite(s)
    ensures forall c :: c in NormSite(s).cidrs <==> c in s.cidrs && c != ""
  {
    UniqueIdempotent(s.cidrs);
    UniqueIdempotent(s.segments);
    UniqueFromProps(s.cidrs, {});
  }

  /** normalizeSDWANSites is idempotent and keeps which sites there are and which relay. */
  lemma NormSitesFixed(sites: seq<Site>)
    ensures NormSites(NormSites(sites)) == NormSites(sites)
    ensures DistinctBy(sites, SiteName) ==> DistinctBy(NormSites(sites), SiteName)
    ensures Images(sites, NormSites(sites), NormSite)
    ensures Names(NormSites(sites)) == Names(sites) && RelayNames(NormSites(sites)) == RelayNames(sites)
  {
    forall s ensures Settles(s, NormSite, SiteName) {
      NormSiteProps(s);
    }
    MapSortFixed(sites, NormSite, SiteName);
    SiteNamesKept(sites, NormSites(sites));
  }

  lemma SiteNamesKept(sites: seq<Site>, out: seq<Site>)
    requires Images(sites, out, NormSite)
    ensures Names(out) == Names(sites) && RelayNames(out) == RelayNames(sites)
  {
    forall s | s in sites
      ensures NormSite(s) in out && NormSite(s).name == s.name && IsRelaySite(NormSite(s)) == IsRelaySite(s)
    {
      NormSiteProps(s);
    }
  }

  // ----- links

  /** Every pair ends up with its name taken; earlier links stay, and distinct names stay
      distinct. */
  lemma {:induction false} ExpandProps(base: seq<Link>, pairs: seq<Pair>, transport: Transport)
    ensures var out := Expand(base, pairs, transport);
      && (DistinctBy(base, StableName) ==> DistinctBy(out, StableName)) && base <= out
      && (forall l :: l in out ==> l in base || exists p :: p in pairs && l == AutoLink(p, transport))
      && (forall p :: p in pairs ==> NameTaken(out, PairName(p.0, p.1)))
    decreases |pairs|
  {
    if pairs != [] {
      var next := EnsureAuto(base, pairs[0], transport);
      EnsureAutoProps(base, pairs[0], transport);
      ExpandProps(next, pairs[1..], transport);
      var out := Expand(next, pairs[1..], transport);
      NameStaysTaken(next, out, PairName(pairs[0].0, pairs[0].1));
      assert pairs == [pairs[0]] + pairs[1..];
      assert forall l :: l in next ==> l in base || l == AutoLink(pairs[0], transport);
    }
  }

  lemma EnsureAutoProps(base: seq<Link>, p: Pair, transport: Transport)
    ensures var out := EnsureAuto(base, p, transport);
      && (DistinctBy(base, StableName) ==> DistinctBy(out, StableName))
      && base <= out && NameTaken(out, PairName(p.0, p.1))
  {
    var name := PairName(p.0, p.1);
    if !NameTaken(base, name) {
      var out := base + [AutoLink(p, transport)];
      assert StableName(out[|base|]) == name;
    }
  }

  lemma NameStaysTaken(base: seq<Link>, out: seq<Link>, name: string)
    requires base <= out && NameTaken(base, name)
    ensures NameTaken(out, name)
  {
    var i :| 0 <= i < |base| && StableName(base[i]) == name;
    assert StableName(out[i]) == name;
  }

  lemma {:induction false} ExpandNothing(base: seq<Link>, pairs: seq<Pair>, transport: Transport)
    requires forall p :: p in pairs ==> NameTaken(base, PairName(p.0, p.1))
    ensures Expand(base, pairs, transport) == base
  {
    if pairs != [] {
      assert pairs[0] in pairs;
      ExpandNothing(base, pairs[1..], transport);
    }
  }

  lemma NormLinkProps(l: Link, transport: Transport, mode: PathMode, relays: set<string>)
    requires transport != TransportUnset
    ensures var f := NormLink(transport, mode, relays);
      StableName(f(l)) == StableName(l) && f(f(l)) == f(l)
  {
    UniqueIdempotent(l.allowedIPs);
  }

  /** normalizeSDWANLinks re-run on its own result adds nothing and changes nothing. */
  lemma NormLinksFixed(m: Network, again: Network)
    requires m.transport != TransportUnset
    requires again == m.(links := NormLinks(m), policies := again.policies)
    ensures NormLinks(again) == NormLinks(m)
    ensures DistinctBy(m.links, StableName) ==> DistinctBy(NormLinks(m), StableName)
    ensures Images(ExpandedLinks(m), NormLinks(m), NormLink(m.transport, m.mode, RelayNames(m.sites)))
  {
    var f := NormLink(m.transport, m.mode, RelayNames(m.sites));
    var pairs := AutoPairs(m.topology, m.sites);
    ExpandProps(m.links, pairs, m.transport);
    forall l ensures Settles(l, f, StableName) {
      NormLinkProps(l, m.transport, m.mode, RelayNames(m.sites));
    }
    MapSortFixed(ExpandedLinks(m), f, StableName);
    forall p | p in pairs ensures NameTaken(NormLinks(m), PairName(p.0, p.1)) {
      NameKept(ExpandedLinks(m), NormLinks(m), f, PairName(p.0, p.1));
    }
    ExpandNothing(NormLinks(m), pairs, m.transport);
  }

  lemma NameKept(s: seq<Link>, t: seq<Link>, f: Link -> Link, name: string)
    requires Images(s, t, f)
    requires KeepsKey(s, f, StableName) && NameTaken(s, name)
    ensures NameTaken(t, name)
  {
    var i :| 0 <= i < |s| && StableName(s[i]) == name;
    assert Settles(s[i], f, StableName) && f(s[i]) in t;
    var j :| 0 <= j < |t| && t[j] == f(s[i]);
    assert StableName(t[j]) == name;
  }

  // ----- the fixed point

  ghost predicate DistinctNames(n: Network) {
    DistinctBy(n.links, StableName) && DistinctBy(n.policies, PolicyName)
  }

  /** normalizeSDWANNetwork is idempotent, keeps distinct names distinct, and planning the
      result derives the links it already has. */
  lemma NormaliseFixed(n: Network)
    ensures Normalise(Normalise(n)) == Normalise(n)
    ensures NormLinks(Normalise(n)) == Normalise(n).links
    ensures DistinctBy(n.sites, SiteName) ==> DistinctBy(Normalise(n).sites, SiteName)
    ensures DistinctNames(n) ==> DistinctNames(Normalise(n))
  {
    var m := WithDefaults(n);
    var again := Normalise(n);
    NormSitesFixed(n.sites);
    NormLinksFixed(m, again);
    SortBySorts(n.policies, PolicyName);
    if DistinctNames(n) {
      DistinctMultiset(n.policies, again.policies, PolicyName);
    }
    SortBySorted(again.policies, PolicyName);
    assert WithDefaults(again) == again;
  }

  // ----- validity

  lemma {:induction false} TrimLeftKeeps(s: string, c: char)
    requires c in s && !IsSpace(c)
    ensures c in TrimLeft(s)
  {
    if IsSpace(s[0]) {
      TrimLeftKeeps(s[1..], c);
    }
  }

  lemma {:induction false} TrimRightKeeps(s: string, c: char)
    requires c in s && !IsSpace(c)
    ensures c in TrimRight(s)
  {
    if IsSpace(s[|s| - 1]) {
      TrimRightKeeps(s[..|s| - 1], c);
    }
  }

  lemma PairNameNotBlank(a: string, b: string)
    ensures !Blank(PairName(a, b))
  {
    var s := PairName(a, b);
    assert '-' in s by {
      if Less(b, a) { assert s[|b|] == '-'; } else { assert s[|a|] == '-'; }
    }
    TrimLeftKeeps(s, '-');
    TrimRightKeeps(TrimLeft(s), '-');
  }

  ghost predicate GoodPair(p: Pair, names: set<string>) {
    p.0 in names && p.1 in names && p.0 != p.1
  }

  lemma {:induction false} PairsWithProps(a: string, sites: seq<Site>)
    ensures forall p :: p in PairsWith(a, sites) <==> p.0 == a && p.1 in Names(sites)
  {
    if sites != [] {
      PairsWithProps(a, sites[1..]);
      assert sites == [sites[0]] + sites[1..];
    }
  }

  lemma {:induction false} MeshPairsGood(sites: seq<Site>)
    requires DistinctBy(sites, SiteName)
    ensures forall p :: p in MeshPairs(sites) ==> GoodPair(p, Names(sites))
  {
    if sites != [] {
      MeshPairsGood(sites[1..]);
      PairsWithProps(sites[0].name, sites[1..]);
      assert sites == [sites[0]] + sites[1..];
      assert forall i :: 0 < i < |sites| ==> SiteName(sites[0]) != SiteName(sites[i]);
    }
  }

  lemma {:induction false} SpokePairsProps(hub: Site, sites: seq<Site>)
    ensures forall p :: p in SpokePairs(hub, sites) <==>
      p.0 == hub.name && exists s :: s in sites && p.1 == s.name && s.name != hub.name && !IsRelaySite(s)
  {
    if sites != [] {
      SpokePairsProps(hub, sites[1..]);
      assert sites == [sites[0]] + sites[1..];
    }
  }

  lemma {:induction false} HubPairsProps(hubs: seq<Site>, sites: seq<Site>)
    ensures forall p :: p in HubPairs(hubs, sites) <==>
      exists h :: h in hubs && IsRelaySite(h) && p in SpokePairs(h, sites)
  {
    if hubs != [] {
      HubPairsProps(hubs[1..], sites);
      assert hubs == [hubs[0]] + hubs[1..];
    }
  }

  lemma AutoPairsGood(topology: Topology, sites: seq<Site>)
    requires DistinctBy(sites, SiteName)
    ensures forall p :: p in AutoPairs(topology, sites) ==> GoodPair(p, Names(sites))
  {
    NormSitesFixed(sites);
    var out := NormSites(sites);
    MeshPairsGood(out);
    HubPairsProps(out, out);
    forall h { SpokePairsProps(h, out); }
  }

  /** A normalised link is valid wherever the link itself was. */
  lemma NormLinkValid(l: Link, transport: Transport, mode: PathMode, names: set<string>, relays: set<string>)
    requires ValidLink(l, names, relays, transport) && ValidTransport(transport) && ValidMode(mode)
    ensures ValidLink(NormLink(transport, mode, relays)(l), names, relays, transport)
  {
    NormLinkProps(l, transport, mode, relays);
  }

  lemma AutoLinkValid(p: Pair, transport: Transport, names: set<string>, relays: set<string>)
    requires GoodPair(p, names) && ValidTransport(transport)
    ensures ValidLink(AutoLink(p, transport), names, relays, transport)
  {
    PairNameNotBlank(p.0, p.1);
  }

  lemma NormLinksValid(m: Network)
    requires DistinctBy(m.sites, SiteName)
    requires ValidTransport(m.transport) && ValidMode(m.mode)
    requires forall l :: l in m.links ==> ValidLink(l, Names(m.sites), RelayNames(m.sites), m.transport)
    ensures forall l :: l in NormLinks(m) ==> ValidLink(l, Names(m.sites), RelayNames(m.sites), m.transport)
  {
    var names, relays := Names(m.sites), RelayNames(m.sites);
    NormLinksFixed(m, m.(links := NormLinks(m)));
    ExpandProps(m.links, AutoPairs(m.topology, m.sites), m.transport);
    AutoPairsGood(m.topology, m.sites);
    forall k | k in NormLinks(m) ensures ValidLink(k, names, relays, m.transport) {
      var l :| l in ExpandedLinks(m) && k == NormLink(m.transport, m.mode, relays)(l);
      if l !in m.links {
        var p :| p in AutoPairs(m.topology, m.sites) && l == AutoLink(p, m.transport);
        AutoLinkValid(p, m.transport, names, relays);
      }
      NormLinkValid(l, m.transport, m.mode, names, relays);
    }
  }

  lemma NormSiteValid(s: Site, layer: Layer, validCidr: string -> bool)
    requires ValidSite(s, layer, validCidr) && !validCidr("")
    ensures ValidSite(NormSite(s), layer, validCidr)
  {
    NormSiteProps(s);
    if s.cidrs != [] {
      assert s.cidrs[0] in NormSite(s).cidrs;
    }
  }

  /** Normalising keeps a network valid: in particular the relay, transit and automatic
      links still touch a relaying site. */
  lemma NormaliseValid(n: Network, validCidr: string -> bool)
    requires ValidNetwork(n, validCidr) && !validCidr("")
    ensures ValidNetwork(Normalise(n), validCidr)
  {
    var m := WithDefaults(n);
    NormSitesFixed(n.sites);
    NormLinksValid(m);
    SortBySorts(n.policies, PolicyName);
    SameMembers(n.policies, Normalise(n).policies);
    SortBySorts(MapSeq(n.sites, NormSite), SiteName);
    SameMembers(MapSeq(n.sites, NormSite), m.sites);
    forall t | t in m.sites ensures ValidSite(t, LayerOf(n), validCidr) {
      var s :| s in n.sites && t == NormSite(s);
      NormSiteValid(s, LayerOf(n), validCidr);
    }
  }
}
