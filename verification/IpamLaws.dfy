/** The allocator of ipam.go in the terms of what its caller configured: the addresses and
    prefixes of the pool itself. */
module IpamLaws {
  import opened Options
  import opened IpamRanges
  import opened IpamPool
  import opened IpamAllocator

  /** The leading bits of both addresses agree. */
  predicate SameBlock(ip: int, addr: Word, bits: Bits) {
    ip / Pow2(32 - bits) == addr / Pow2(32 - bits)
  }

  /** Neither the first nor the last address of its block. */
  predicate Inner(ip: int, bits: Bits) {
    0 < ip % Pow2(32 - bits) < Pow2(32 - bits) - 1
  }

  predicate UsableIn(p: Pool, ip: int)
    requires p.cidr.Cidr4?
  {
    SameBlock(ip, p.cidr.addr, p.cidr.bits) && Inner(ip, p.cidr.bits)
  }

  ghost predicate Names(ts: seq<AddrText>, ip: int) {
    exists t :: t in ts && t.Addr4? && t.value == ip
  }

  ghost predicate Excludes(cs: seq<CidrText>, ip: int) {
    exists c :: c in cs && c.Cidr4? && SameBlock(ip, c.addr, c.bits)
  }

  /** The gateway given, or the second address of the block. */
  function GatewayOf(p: Pool): int
    requires p.cidr.Cidr4?
  {
    if p.gateway.Some? && p.gateway.value.Addr4? then p.gateway.value.value
    else p.cidr.addr / Pow2(32 - p.cidr.bits) * Pow2(32 - p.cidr.bits) + 1
  }

  /** Never given to anyone. */
  ghost predicate Withheld(p: Pool, ip: int)
    requires p.cidr.Cidr4?
  {
    ip == GatewayOf(p) || Names(p.reserved, ip) || Excludes(p.excluded, ip)
  }

  ghost predicate Open(p: Pool, ip: int)
    requires p.cidr.Cidr4?
  {
    UsableIn(p, ip) && !Withheld(p, ip) && !Names(p.leases, ip)
  }

  lemma InsideBlock(a: int, x: int, s: int)
    requires s > 0
    ensures a / s * s < x < a / s * s + s - 1 <==> x / s == a / s && 0 < x % s < s - 1
  {
    QuotientBounds(a, s);
    QuotientBounds(x, s);
    assert x == x / s * s + x % s;
    if a / s * s < x < a / s * s + s - 1 {
      QuotientUnique(x, s, a / s);
    }
  }

  lemma MaskedAddr(addr: Word, bits: Bits)
    ensures Mask(addr, bits).addr == addr / Pow2(32 - bits) * Pow2(32 - bits)
  {
    MaskExact(addr, bits);
    QuotientBounds(Mask(addr, bits).addr, Pow2(32 - bits));
    SizeFits(Mask(addr, bits));
  }

  lemma BlockRange(addr: Word, bits: Bits, ip: int)
    requires 1 <= bits <= 30
    ensures Usable(Mask(addr, bits), ip) <==> SameBlock(ip, addr, bits) && Inner(ip, bits)
    ensures UsableRange(Mask(addr, bits)).0 == addr / Pow2(32 - bits) * Pow2(32 - bits) + 1
  {
    MaskIsMasked(addr, bits);
    MaskedAddr(addr, bits);
    UsableRangeExact(Mask(addr, bits));
    UsableIsInterval(Mask(addr, bits), ip);
    InsideBlock(addr, ip, Pow2(32 - bits));
  }

  lemma ExcludesExact(cs: seq<CidrText>, ip: int)
    requires forall c :: c in cs ==> c.Cidr4?
    ensures (exists i :: 0 <= i < |Prefixes(cs)| && Prefixes(cs)[i].Contains(ip)) <==> Excludes(cs, ip)
  {
    PrefixesAre(cs);
    forall i | 0 <= i < |cs| ensures Prefixes(cs)[i].Contains(ip) <==> SameBlock(ip, cs[i].addr, cs[i].bits) {
      MaskExact(cs[i].addr, cs[i].bits);
    }
    if Excludes(cs, ip) {
      var c :| c in cs && SameBlock(ip, c.addr, c.bits);
      var i :| 0 <= i < |cs| && cs[i] == c;
      assert Prefixes(cs)[i].Contains(ip);
    }
    if i :| 0 <= i < |Prefixes(cs)| && Prefixes(cs)[i].Contains(ip) {
      assert cs[i] in cs;
    }
  }

  lemma ValuesExact(ts: seq<AddrText>, ip: int)
    ensures ip in Values(ts) <==> Names(ts, ip)
  {}

  lemma GatewayExact(p: Pool)
    requires p.cidr.Cidr4? && 1 <= p.cidr.bits <= 30
    ensures Effective(p).gateway == GatewayOf(p)
  {
    BlockRange(p.cidr.addr, p.cidr.bits, 0);
  }

  /** What is withheld and what is held, as the computed state sees it. */
  lemma StateExact(p: Pool, ip: int)
    requires p.cidr.Cidr4? && 1 <= p.cidr.bits <= 30
    ensures Effective(p).gateway == GatewayOf(p)
    ensures Usable(Effective(p).prefix, ip) <==> UsableIn(p, ip)
    ensures Effective(p).IsReserved(ip) <==> ip == GatewayOf(p) || Names(p.reserved, ip)
    ensures ip in Effective(p).leases <==> Names(p.leases, ip)
  {
    GatewayExact(p);
    BlockRange(p.cidr.addr, p.cidr.bits, ip);
    ValuesExact(p.reserved, ip);
    ValuesExact(p.leases, ip);
  }

  lemma FreeIsAvailable(s: State, ip: int)
    requires s.prefix.IsMasked()
    ensures ip in s.Free() <==> s.IsAvailable(ip)
  {
    UsableIsInterval(s.prefix, ip);
  }

  lemma AvailableIsOpen(p: Pool, ip: int)
    requires p.cidr.Cidr4? && 1 <= p.cidr.bits <= 30
    requires forall c :: c in p.excluded ==> c.Cidr4?
    ensures Effective(p).IsAvailable(ip) <==> Open(p, ip)
  {
    StateExact(p, ip);
    ExcludesExact(p.excluded, ip);
  }

  /** Free is exactly what is usable in the pool's own block, not withheld and not held. */
  lemma FreeExact(p: Pool, ip: int)
    requires ValidPool(p)
    ensures ip in Effective(p).Free() <==> Open(p, ip)
  {
    MaskIsMasked(p.cidr.addr, p.cidr.bits);
    FreeIsAvailable(Effective(p), ip);
    AvailableIsOpen(p, ip);
  }

  // ----- which pools are accepted

  /** Every entry is an IPv4 address that a host of the block may have. */
  predicate AllHosts(p: Pool, ts: seq<AddrText>)
    requires p.cidr.Cidr4?
  {
    forall t :: t in ts ==> t.Addr4? && UsableIn(p, t.value)
  }

  /** No lease is the gateway or a reserved address. */
  ghost predicate LeasesApart(p: Pool)
    requires p.cidr.Cidr4?
  {
    forall t :: t in p.leases && t.Addr4? ==> t.value != GatewayOf(p) && !Names(p.reserved, t.value)
  }

  /** The excluded block and the pool's share an address. */
  ghost predicate Meets(p: Pool, c: CidrText)
    requires p.cidr.Cidr4? && c.Cidr4?
  {
    exists ip: int :: SameBlock(ip, p.cidr.addr, p.cidr.bits) && SameBlock(ip, c.addr, c.bits)
  }

  ghost predicate AllMeet(p: Pool)
    requires p.cidr.Cidr4?
  {
    forall c :: c in p.excluded ==> c.Cidr4? && Meets(p, c)
  }

  ghost predicate ExclusionsApart(p: Pool)
    requires p.cidr.Cidr4?
  {
    && !Excludes(p.excluded, GatewayOf(p))
    && forall t :: t in p.reserved + p.leases && t.Addr4? ==> !Excludes(p.excluded, t.value)
  }

  lemma AllHostsExact(p: Pool, ts: seq<AddrText>)
    requires p.cidr.Cidr4? && 1 <= p.cidr.bits <= 30
    ensures AllHosts(p, ts) <==> AllUsable(Effective(p).prefix, ts)
  {
    forall t | t in ts && t.Addr4? ensures UsableIn(p, t.value) <==> Usable(Effective(p).prefix, t.value) {
      BlockRange(p.cidr.addr, p.cidr.bits, t.value);
    }
  }

  lemma LeasesApartExact(p: Pool)
    requires p.cidr.Cidr4? && 1 <= p.cidr.bits <= 30
    requires forall t :: t in p.leases ==> t.Addr4?
    ensures LeasesApart(p) <==> forall t :: t in p.leases ==> !Effective(p).IsReserved(t.value)
  {
    forall t | t in p.leases
      ensures Effective(p).IsReserved(t.value) <==> t.value == GatewayOf(p) || Names(p.reserved, t.value)
    {
      StateExact(p, t.value);
    }
  }

  lemma MeetsExact(p: Pool, c: CidrText)
    requires p.cidr.Cidr4? && c.Cidr4?
    ensures PrefixesOverlap(Mask(p.cidr.addr, p.cidr.bits), Mask(c.addr, c.bits)) <==> Meets(p, c)
  {
    var a, b := Mask(p.cidr.addr, p.cidr.bits), Mask(c.addr, c.bits);
    MaskExact(p.cidr.addr, p.cidr.bits);
    MaskExact(c.addr, c.bits);
    PrefixesOverlapExact(a, b);
    if ip: int :| a.Contains(ip) && b.Contains(ip) {
      assert SameBlock(ip, p.cidr.addr, p.cidr.bits) && SameBlock(ip, c.addr, c.bits);
    }
    if Meets(p, c) {
      var ip: int :| SameBlock(ip, p.cidr.addr, p.cidr.bits) && SameBlock(ip, c.addr, c.bits);
      assert a.Contains(ip) && b.Contains(ip);
    }
  }

  lemma AllMeetExact(p: Pool)
    requires p.cidr.Cidr4?
    ensures AllMeet(p) <==>
      forall c :: c in p.excluded ==> c.Cidr4? && PrefixesOverlap(Effective(p).prefix, Mask(c.addr, c.bits))
  {
    forall c | c in p.excluded && c.Cidr4?
      ensures Meets(p, c) <==> PrefixesOverlap(Effective(p).prefix, Mask(c.addr, c.bits))
    {
      MeetsExact(p, c);
    }
  }

  lemma ExclusionsApartExact(p: Pool)
    requires p.cidr.Cidr4? && 1 <= p.cidr.bits <= 30
    requires forall c :: c in p.excluded ==> c.Cidr4?
    requires forall t :: t in p.reserved + p.leases ==> t.Addr4?
    ensures var s := Effective(p);
      ExclusionsApart(p) <==>
      !s.InExcluded(s.gateway) && forall ip :: ip in s.reserved || ip in s.leases ==> !s.InExcluded(ip)
  {
    var s := Effective(p);
    GatewayExact(p);
    ExcludesExact(p.excluded, s.gateway);
    forall ip | ip in s.reserved || ip in s.leases
      ensures s.InExcluded(ip) <==> Excludes(p.excluded, ip)
      ensures exists t :: t in p.reserved + p.leases && t.value == ip
    {
      ExcludesExact(p.excluded, ip);
    }
    forall t | t in p.reserved + p.leases ensures t.value in s.reserved || t.value in s.leases {
      assert t in p.reserved || t in p.leases;
    }
  }

  /** A pool is accepted exactly when its prefix is an IPv4 /1 to /30, every address is a
      host of its block, no lease is listed twice or is withheld, and every exclusion meets
      the block without covering the gateway, a reserved address or a lease. */
  lemma AcceptedExactly(p: Pool)
    ensures StateOf(p).Ok? <==>
      && p.cidr.Cidr4? && 1 <= p.cidr.bits <= 30
      && (p.gateway.Some? ==> AllHosts(p, [p.gateway.value]))
      && AllHosts(p, p.reserved) && AllHosts(p, p.leases) && Distinct(p.leases) && LeasesApart(p)
      && AllMeet(p) && ExclusionsApart(p)
  {
    StateOfExact(p);
    if p.cidr.Cidr4? && 1 <= p.cidr.bits <= 30 {
      if p.gateway.Some? && p.gateway.value.Addr4? {
        BlockRange(p.cidr.addr, p.cidr.bits, p.gateway.value.value);
      }
      assert p.gateway.Some? ==> p.gateway.value in [p.gateway.value];
      AllHostsExact(p, p.reserved);
      AllHostsExact(p, p.leases);
      AllMeetExact(p);
      if AllHosts(p, p.reserved) && AllHosts(p, p.leases) {
        LeasesApartExact(p);
        if AllMeet(p) {
          ExclusionsApartExact(p);
        }
      }
    }
  }

  // ----- what the operations do

  /** Over any run every address handed out is a host of the pool's own block and not
      withheld. */
  lemma HandedOutIsOurs(p: Pool, ops: seq<Op>, ip: int)
    requires ValidPool(p) && ip in HandedOut(p, ops)
    ensures UsableIn(p, ip) && !Withheld(p, ip)
  {
    RunKeepsPool(p, ops);
    StateExact(p, ip);
    ExcludesExact(p.excluded, ip);
  }

  /** An automatic allocation takes the least open address, and fails for want of one only. */
  lemma AllocateLeast(p: Pool)
    requires ValidPool(p)
    ensures Choice(p, []).Ok? ==>
      && Open(p, Choice(p, []).value)
      && forall ip :: Open(p, ip) ==> Choice(p, []).value <= ip
    ensures Choice(p, []).Err? ==> Choice(p, []) == Err(NotFound) && forall ip :: !Open(p, ip)
  {
    AllocateExact(p, []);
    forall ip ensures ip in Effective(p).Free() <==> Open(p, ip) {
      FreeExact(p, ip);
    }
  }

  /** A requested address is granted exactly when it is open; it is refused as invalid when
      no host of the block may have it, and as a conflict when it is withheld or held. */
  lemma RequestAnswered(p: Pool, ip: Word)
    requires ValidPool(p)
    ensures Choice(p, [Exact(Addr4(ip))]) ==
      if Open(p, ip) then Ok(ip) else if !UsableIn(p, ip) then Err(Validation) else Err(Conflict)
  {
    StateOfExact(p);
    StateExact(p, ip);
    AvailableIsOpen(p, ip);
  }

  /** Whatever the pool, nothing is granted for two requests or for a text that is no IPv4
      address, and nothing from a pool that is not accepted; an empty text asks for any
      address. */
  lemma OtherRequests(p: Pool, requested: seq<Request>)
    ensures |requested| > 1 ==> Choice(p, requested).Err?
    ensures requested == [Any] ==> Choice(p, requested) == Choice(p, [])
    ensures |requested| == 1 && requested[0].Exact? && !requested[0].text.Addr4? ==> Choice(p, requested).Err?
    ensures Choice(p, requested).Ok? ==> StateOf(p).Ok?
  {}

  /** A release succeeds exactly for a held address, which is then held no more. */
  lemma ReleaseExact(p: Pool, ip: Word, other: int)
    requires ValidPool(p)
    ensures Grant(p, Release(Addr4(ip))).Ok? <==> Names(p.leases, ip)
    ensures Names(After(p, Release(Addr4(ip))).leases, other) <==> other != ip && Names(p.leases, other)
  {
    ReleaseIndexFinds(p.leases, ip, 0);
    assert p.leases[0..] == p.leases;
    assert Names(p.leases, ip) <==> Addr4(ip) in p.leases;
    if ReleaseIndex(p.leases, ip, 0).Ok? {
      ReleasedPool(p, ip);
      ValuesExact(p.leases, other);
      ValuesExact(After(p, Release(Addr4(ip))).leases, other);
    }
  }
}
