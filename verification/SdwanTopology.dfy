/** Which pairs of sites the topology expansion of sdwan.go links. */
module SdwanTopology {
  import opened Text
  import opened Sdwan
  import opened SdwanNormalise

  ghost predicate Covered(links: seq<Link>, a: string, b: string) {
    exists l :: l in links && Joins(l, a, b)
  }

  function NameOf(p: Pair): string { PairName(p.0, p.1) }

  predicate SamePair(p: Pair, a: string, b: string) { p == (a, b) || p == (b, a) }

  // ----- what an expansion adds

  /** The k-th pair gets a link: no explicit link and no earlier pair has its name. */
  ghost predicate Added(base: seq<Link>, pairs: seq<Pair>, k: int) {
    && 0 <= k < |pairs|
    && !NameTaken(base, NameOf(pairs[k]))
    && forall j :: 0 <= j < k ==> NameOf(pairs[j]) != NameOf(pairs[k])
  }

  lemma EnsureAutoNames(base: seq<Link>, p: Pair, transport: Transport, name: string)
    ensures NameTaken(EnsureAuto(base, p, transport), name) <==> NameTaken(base, name) || name == NameOf(p)
  {
    var out := EnsureAuto(base, p, transport);
    if NameTaken(base, name) {
      NameStaysTaken(base, out, name);
    } else if name == NameOf(p) {
      assert StableName(out[|base|]) == name;
    }
  }

  lemma AddedShifts(base: seq<Link>, pairs: seq<Pair>, transport: Transport, k: nat)
    requires k + 1 < |pairs|
    ensures Added(EnsureAuto(base, pairs[0], transport), pairs[1..], k) <==> Added(base, pairs, k + 1)
  {
    EnsureAutoNames(base, pairs[0], transport, NameOf(pairs[k + 1]));
    assert pairs[1..][k] == pairs[k + 1];
    assert forall j :: 0 <= j < k ==> pairs[1..][j] == pairs[j + 1];
    assert forall j :: 0 < j <= k ==> pairs[j] == pairs[1..][j - 1];
  }

  /** The expansion holds the given links and one link for each added pair, nothing else. */
  lemma {:induction false} ExpandExact(base: seq<Link>, pairs: seq<Pair>, transport: Transport, l: Link)
    ensures l in Expand(base, pairs, transport) <==>
      l in base || exists k :: Added(base, pairs, k) && l == AutoLink(pairs[k], transport)
    decreases |pairs|
  {
    if pairs != [] {
      var next, rest := EnsureAuto(base, pairs[0], transport), pairs[1..];
      ExpandExact(next, rest, transport, l);
      assert l in next <==> l in base || (Added(base, pairs, 0) && l == AutoLink(pairs[0], transport));
      if k :| Added(next, rest, k) && l == AutoLink(rest[k], transport) {
        AddedShifts(base, pairs, transport, k);
        assert Added(base, pairs, k + 1) && pairs[k + 1] == rest[k];
      }
      if k :| Added(base, pairs, k) && l == AutoLink(pairs[k], transport) {
        if k > 0 {
          AddedShifts(base, pairs, transport, k - 1);
          assert Added(next, rest, k - 1) && rest[k - 1] == pairs[k];
        }
      }
    }
  }

  lemma NormLinksMembers(m: Network)
    ensures Images(ExpandedLinks(m), NormLinks(m), NormLink(m.transport, m.mode, RelayNames(m.sites)))
  {
    var mapped := MapSeq(ExpandedLinks(m), NormLink(m.transport, m.mode, RelayNames(m.sites)));
    SortBySorts(mapped, StableName);
    MapMembers(ExpandedLinks(m), NormLinks(m), NormLink(m.transport, m.mode, RelayNames(m.sites)));
  }

  lemma CoveredKept(s: seq<Link>, t: seq<Link>, f: Link -> Link, a: string, b: string)
    requires Images(s, t, f) && forall l :: Joins(f(l), a, b) == Joins(l, a, b)
    ensures Covered(t, a, b) <==> Covered(s, a, b)
  {
    if l :| l in s && Joins(l, a, b) {
      assert f(l) in t;
    }
  }

  /** The pairs tried when the network is normalised. */
  function TriedPairs(n: Network): seq<Pair> {
    AutoPairs(WithDefaults(n).topology, WithDefaults(n).sites)
  }

  /** Exactly which pairs of sites are linked after normalisation. */
  lemma CoverageExact(n: Network, a: string, b: string)
    ensures Covered(Normalise(n).links, a, b) <==>
      Covered(n.links, a, b) || exists k :: Added(n.links, TriedPairs(n), k) && SamePair(TriedPairs(n)[k], a, b)
  {
    var m := WithDefaults(n);
    var pairs := TriedPairs(n);
    NormLinksMembers(m);
    CoveredKept(ExpandedLinks(m), NormLinks(m), NormLink(m.transport, m.mode, RelayNames(m.sites)), a, b);
    if l :| l in ExpandedLinks(m) && Joins(l, a, b) {
      ExpandExact(n.links, pairs, m.transport, l);
    }
    if l :| l in n.links && Joins(l, a, b) {
      ExpandExact(n.links, pairs, m.transport, l);
    }
    if k :| Added(n.links, pairs, k) && SamePair(pairs[k], a, b) {
      ExpandExact(n.links, pairs, m.transport, AutoLink(pairs[k], m.transport));
      assert Joins(AutoLink(pairs[k], m.transport), a, b);
    }
  }

  // ----- which pairs a topology asks for

  /** Full mesh: any two sites.  Hub and spoke: a relaying and a non-relaying site. */
  predicate Wanted(topology: Topology, names: set<string>, relays: set<string>, a: string, b: string) {
    && a in names && b in names && a != b
    && (topology == FullMesh || (topology == HubSpoke && (a in relays) != (b in relays)))
  }

  lemma {:induction false} MeshPairsExact(sites: seq<Site>, a: string, b: string)
    requires DistinctBy(sites, SiteName)
    ensures (a, b) in MeshPairs(sites) || (b, a) in MeshPairs(sites) <==> a in Names(sites) && b in Names(sites) && a != b
  {
    if sites != [] {
      MeshPairsExact(sites[1..], a, b);
      MeshPairsGood(sites[1..]);
      PairsWithProps(sites[0].name, sites[1..]);
      assert sites == [sites[0]] + sites[1..];
      assert forall i :: 0 < i < |sites| ==> SiteName(sites[0]) != SiteName(sites[i]);
    }
  }

  lemma RelayByName(sites: seq<Site>, s: Site)
    requires DistinctBy(sites, SiteName) && s in sites
    ensures s.name in RelayNames(sites) <==> IsRelaySite(s)
  {
    if s.name in RelayNames(sites) {
      var r :| r in sites && IsRelaySite(r) && r.name == s.name;
      var i :| 0 <= i < |sites| && sites[i] == s;
      var j :| 0 <= j < |sites| && sites[j] == r;
      assert SiteName(sites[i]) == SiteName(sites[j]);
    }
  }

  lemma HubPairsExact(sites: seq<Site>, a: string, b: string)
    requires DistinctBy(sites, SiteName)
    ensures (a, b) in HubPairs(sites, sites) <==>
      a in Names(sites) && b in Names(sites) && a in RelayNames(sites) && b !in RelayNames(sites)
  {
    HubPairsProps(sites, sites);
    if h :| h in sites && IsRelaySite(h) && (a, b) in SpokePairs(h, sites) {
      SpokePairsProps(h, sites);
      var s :| s in sites && b == s.name && s.name != h.name && !IsRelaySite(s);
      RelayByName(sites, s);
    }
    if a in Names(sites) && b in Names(sites) && a in RelayNames(sites) && b !in RelayNames(sites) {
      var h :| h in sites && IsRelaySite(h) && h.name == a;
      var s :| s in sites && s.name == b;
      SpokePairsProps(h, sites);
      assert s in sites && b == s.name && s.name != h.name && !IsRelaySite(s);
    }
  }

  lemma AutoPairsExact(topology: Topology, sites: seq<Site>, a: string, b: string)
    requires DistinctBy(sites, SiteName)
    ensures (a, b) in AutoPairs(topology, sites) || (b, a) in AutoPairs(topology, sites) <==>
      Wanted(topology, Names(sites), RelayNames(sites), a, b)
  {
    NormSitesFixed(sites);
    MeshPairsExact(NormSites(sites), a, b);
    HubPairsExact(NormSites(sites), a, b);
    HubPairsExact(NormSites(sites), b, a);
  }

  ghost predicate WantedIn(n: Network, a: string, b: string) {
    Wanted(n.topology, Names(n.sites), RelayNames(n.sites), a, b)
  }

  lemma TriedPairsExact(n: Network, a: string, b: string)
    requires DistinctBy(n.sites, SiteName)
    ensures (a, b) in TriedPairs(n) || (b, a) in TriedPairs(n) <==> WantedIn(n, a, b)
  {
    NormSitesFixed(n.sites);
    AutoPairsExact(WithDefaults(n).topology, WithDefaults(n).sites, a, b);
  }

  // ----- the main results

  /** Canonical names tell the wanted pairs apart, and no explicit link has the canonical
      name of a wanted pair that it does not join. */
  ghost predicate NamesDoNotClash(n: Network) {
    && (forall a, b, c, d :: WantedIn(n, a, b) && WantedIn(n, c, d) && PairName(a, b) == PairName(c, d)
          ==> SamePair((a, b), c, d))
    && (forall l, a, b :: l in n.links && WantedIn(n, a, b) && StableName(l) == PairName(a, b) ==> Joins(l, a, b))
  }

  lemma {:induction false} FirstNamed(pairs: seq<Pair>, p: Pair) returns (k: nat)
    requires p in pairs
    ensures k < |pairs| && NameOf(pairs[k]) == NameOf(p) && forall j :: 0 <= j < k ==> NameOf(pairs[j]) != NameOf(p)
  {
    if NameOf(pairs[0]) == NameOf(p) {
      return 0;
    }
    k := FirstNamed(pairs[1..], p);
    k := k + 1;
    assert forall j :: 0 < j < k ==> pairs[j] == pairs[1..][j - 1];
  }

  /** Full mesh links every pair of sites; hub and spoke links every relaying site with every
      non-relaying one. */
  lemma TopologyCoverage(n: Network, a: string, b: string)
    requires DistinctBy(n.sites, SiteName) && NamesDoNotClash(n)
    requires WantedIn(n, a, b)
    ensures Covered(Normalise(n).links, a, b)
  {
    var pairs := TriedPairs(n);
    TriedPairsExact(n, a, b);
    CoverageExact(n, a, b);
    PairNameSymmetric(a, b);
    var k := FirstNamed(pairs, if (a, b) in pairs then (a, b) else (b, a));
    var q := pairs[k];
    assert q in pairs;
    TriedPairsExact(n, q.0, q.1);
    if NameTaken(n.links, NameOf(q)) {
      var i :| 0 <= i < |n.links| && StableName(n.links[i]) == NameOf(q);
      assert n.links[i] in n.links && StableName(n.links[i]) == PairName(a, b);
    } else {
      assert Added(n.links, pairs, k);
      assert PairName(q.0, q.1) == PairName(a, b);
    }
  }

  /** Every explicit link survives, with its endpoints and under its name. */
  lemma ExplicitSurvives(n: Network, e: Link)
    requires e in n.links
    ensures exists l :: l in Normalise(n).links && l.from == e.from && l.to == e.to && l.name == StableName(e)
  {
    var m := WithDefaults(n);
    ExpandExact(n.links, TriedPairs(n), m.transport, e);
    NormLinksMembers(m);
    var f := NormLink(m.transport, m.mode, RelayNames(m.sites));
    assert f(e) in NormLinks(m);
  }

  /** Nothing but explicit links and wanted pairs: in particular hub and spoke adds no link
      between two non-relaying sites. */
  lemma NothingElseAdded(n: Network, l: Link)
    requires DistinctBy(n.sites, SiteName) && l in Normalise(n).links
    ensures (exists e :: e in n.links && l.from == e.from && l.to == e.to && l.name == StableName(e))
         || WantedIn(n, l.from, l.to)
  {
    var m := WithDefaults(n);
    NormLinksMembers(m);
    var e :| e in ExpandedLinks(m) && l == NormLink(m.transport, m.mode, RelayNames(m.sites))(e);
    ExpandExact(n.links, TriedPairs(n), m.transport, e);
    if e !in n.links {
      var k :| Added(n.links, TriedPairs(n), k) && e == AutoLink(TriedPairs(n)[k], m.transport);
      assert (e.from, e.to) in TriedPairs(n);
      TriedPairsExact(n, e.from, e.to);
    }
  }

  // ----- without the condition a pair can stay unlinked

  function PlainSite(name: string): Site {
    Site(name, "r", ["10.0.0.0/24"], "", "", "", map[], [], false, false)
  }

  /** Site names that contain the separator: two pairs share the canonical name a--b--c. */
  function ClashingSites(): seq<Site> {
    [PlainSite("a"), PlainSite("a--b"), PlainSite("b--c"), PlainSite("c")]
  }

  lemma PlainSiteNormal(name: string)
    ensures NormSite(PlainSite(name)) == PlainSite(name)
  {
    UniqueFromFixed(["10.0.0.0/24"], {});
  }

  lemma FourSorted(s: seq<Site>)
    requires |s| == 4 && s[0].name == "a" && s[1].name == "a--b" && s[2].name == "b--c" && s[3].name == "c"
    ensures SortedBy(s, SiteName) && DistinctBy(s, SiteName)
  {
    assert !Less("a--b", "a") && !Less("b--c", "a") && !Less("c", "a");
    assert !Less("b--c", "a--b") && !Less("c", "a--b") && !Less("c", "b--c");
    assert |"a"| == |"c"| == 1 && |"a--b"| == |"b--c"| == 4;
    assert "a"[0] != "c"[0] && "a--b"[0] != "b--c"[0];
  }

  lemma ClashingSitesSorted()
    ensures NormSites(ClashingSites()) == ClashingSites()
    ensures DistinctBy(ClashingSites(), SiteName)
  {
    var sites := ClashingSites();
    forall i | 0 <= i < 4 ensures NormSite(sites[i]) == sites[i] {
      PlainSiteNormal(sites[i].name);
    }
    assert MapSeq(sites, NormSite) == sites;
    FourSorted(sites);
    SortBySorted(sites, SiteName);
  }

  lemma ClashingPairs(n: Network)
    requires n.topology == FullMesh && n.sites == ClashingSites()
    ensures TriedPairs(n) == [("a", "a--b"), ("a", "b--c"), ("a", "c"), ("a--b", "b--c"), ("a--b", "c"), ("b--c", "c")]
  {
    ClashingSitesSorted();
    MeshOfFour(ClashingSites());
  }

  /** Only the fifth pair tried joins these two sites, and the second has taken its name. */
  lemma OnlyFifthPair(n: Network, k: nat)
    requires n.topology == FullMesh && n.sites == ClashingSites()
    requires k < |TriedPairs(n)| && SamePair(TriedPairs(n)[k], "a--b", "c")
    ensures k == 4
  {
    ClashingPairs(n);
    assert |"a--b"| == |"b--c"| == 4 && |"a"| == |"c"| == 1;
    assert "a"[0] != "c"[0] && "a--b"[0] != "b--c"[0];
  }

  lemma NameTakenEarlier(base: seq<Link>, pairs: seq<Pair>, j: nat, k: nat)
    requires j < k < |pairs| && NameOf(pairs[j]) == NameOf(pairs[k])
    ensures !Added(base, pairs, k)
  {}

  /** Full mesh without explicit links, and yet the sites "a--b" and "c" are not joined. */
  lemma ClashLeavesPairUnlinked(n: Network)
    requires n.topology == FullMesh && n.sites == ClashingSites() && n.links == []
    ensures WantedIn(n, "a--b", "c") && !Covered(Normalise(n).links, "a--b", "c")
  {
    var pairs := TriedPairs(n);
    ClashingPairs(n);
    NameTakenEarlier(n.links, pairs, 1, 4);
    forall k | Added(n.links, pairs, k) ensures !SamePair(pairs[k], "a--b", "c") {
      if SamePair(pairs[k], "a--b", "c") {
        OnlyFifthPair(n, k);
      }
    }
    CoverageExact(n, "a--b", "c");
    ClashingSitesSorted();
    TriedPairsExact(n, "a--b", "c");
    assert pairs[4] in pairs;
  }

  lemma MeshOfFour(s: seq<Site>)
    requires |s| == 4
    ensures MeshPairs(s) == [
      (s[0].name, s[1].name), (s[0].name, s[2].name), (s[0].name, s[3].name),
      (s[1].name, s[2].name), (s[1].name, s[3].name), (s[2].name, s[3].name)]
  {
    var t := s[1..];
    var u := t[1..];
    var v := u[1..];
    assert v[1..] == [] && t[0] == s[1] && u[0] == s[2] && v[0] == s[3];
    assert PairsWith(s[2].name, v) == [(s[2].name, s[3].name)];
    assert PairsWith(s[1].name, v) == [(s[1].name, s[3].name)];
    assert PairsWith(s[0].name, v) == [(s[0].name, s[3].name)];
    assert MeshPairs(v) == [];
    assert PairsWith(s[1].name, u) == [(s[1].name, s[2].name), (s[1].name, s[3].name)];
    assert PairsWith(s[0].name, u) == [(s[0].name, s[2].name), (s[0].name, s[3].name)];
    assert MeshPairs(u) == [(s[2].name, s[3].name)];
    assert MeshPairs(t) == PairsWith(t[0].name, u) + MeshPairs(u);
  }
}
