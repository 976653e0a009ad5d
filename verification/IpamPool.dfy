/** The allocator of ipam.go.  Address and CIDR strings are represented by what
    net/netip makes of them. */
module IpamPool {
  import opened Options
  import opened IpamRanges

  datatype Kind = Validation | Unsupported | Conflict | NotFound
  datatype Result<+T> = Ok(value: T) | Err(kind: Kind)

  datatype AddrText = BadAddr | Addr6 | Addr4(value: Word)
  datatype CidrText = BadCidr | Cidr6 | Cidr4(addr: Word, bits: Bits)

  datatype Pool = Pool(
    cidr: CidrText, gateway: Option<AddrText>,
    reserved: seq<AddrText>, leases: seq<AddrText>, excluded: seq<CidrText>)

  /** ipamState: the parsed form that every operation works on. */
  datatype State = State(
    prefix: Prefix, gateway: Word, reserved: set<Word>, leases: set<Word>, excluded: seq<Prefix>)
  {
    predicate IsReserved(ip: int) { ip == gateway || ip in reserved }

    predicate InExcluded(ip: int) { exists i :: 0 <= i < |excluded| && excluded[i].Contains(ip) }

    predicate IsAvailable(ip: int) {
      Usable(prefix, ip) && !IsReserved(ip) && !InExcluded(ip) && ip !in leases
    }

    ghost function FreeWithin(start: int, end: int): set<int> {
      set ip | ip in Interval(start, end) && IsAvailable(ip)
    }

    /** The addresses the per-address predicate accepts. */
    ghost function Free(): set<int> {
      FreeWithin(UsableRange(prefix).0, UsableRange(prefix).1)
    }

    /** What `state` guarantees about the states it returns. */
    ghost predicate Coherent() {
      && prefix.IsMasked() && 1 <= prefix.bits <= 30
      && Usable(prefix, gateway)
      && (forall ip :: ip in reserved ==> Usable(prefix, ip))
      && (forall ip :: ip in leases ==> Usable(prefix, ip))
      && (forall i :: 0 <= i < |excluded| ==> excluded[i].IsMasked())
    }
  }

  /** validateUsable. */
  predicate Usable(prefix: Prefix, ip: int) {
    prefix.Contains(ip) && UsableRange(prefix).0 <= ip <= UsableRange(prefix).1
  }

  lemma UsableIsInterval(prefix: Prefix, ip: int)
    requires prefix.IsMasked()
    ensures Usable(prefix, ip) <==> UsableRange(prefix).0 <= ip <= UsableRange(prefix).1
    ensures Usable(prefix, ip) ==> 0 < ip < WORD_LIMIT - 1
  {
    PrefixRangeExact(prefix);
    UsableRangeExact(prefix);
    SizeFits(prefix);
  }

  // ----- IPAMPool.state

  function AddrFault(prefix: Prefix, t: AddrText): Option<Kind> {
    match t
    case BadAddr => Some(Validation)
    case Addr6 => Some(Unsupported)
    case Addr4(ip) => if Usable(prefix, ip) then None else Some(Validation)
  }

  function ReservedFault(prefix: Prefix, ts: seq<AddrText>): Option<Kind> {
    if ts == [] then None
    else if AddrFault(prefix, ts[0]).Some? then AddrFault(prefix, ts[0])
    else ReservedFault(prefix, ts[1..])
  }

  function AllocatedFault(s: State, ts: seq<AddrText>, seen: set<Word>): Option<Kind> {
    if ts == [] then None
    else if AddrFault(s.prefix, ts[0]).Some? then AddrFault(s.prefix, ts[0])
    else if ts[0].value in seen || s.IsReserved(ts[0].value) then Some(Conflict)
    else AllocatedFault(s, ts[1..], seen + {ts[0].value})
  }

  function ExcludedFault(prefix: Prefix, cs: seq<CidrText>): Option<Kind> {
    if cs == [] then None
    else match cs[0]
      case BadCidr => Some(Validation)
      case Cidr6 => Some(Unsupported)
      case Cidr4(addr, bits) =>
        if PrefixesOverlap(prefix, Mask(addr, bits)) then ExcludedFault(prefix, cs[1..]) else Some(Conflict)
  }

  function Values(ts: seq<AddrText>): set<Word> {
    set t | t in ts && t.Addr4? :: t.value
  }

  function Prefixes(cs: seq<CidrText>): seq<Prefix> {
    if cs == [] then []
    else (if cs[0].Cidr4? then [Mask(cs[0].addr, cs[0].bits)] else []) + Prefixes(cs[1..])
  }

  /** Result of IPAMPool.state, faults in the order in which the source looks for them. */
  function StateOf(p: Pool): Result<State> {
    match p.cidr
    case BadCidr => Err(Validation)
    case Cidr6 => Err(Unsupported)
    case Cidr4(addr, bits) =>
      var prefix := Mask(addr, bits);
      var (start, end) := UsableRange(prefix);
      if start > end then Err(Conflict)
      else if p.gateway.Some? && AddrFault(prefix, p.gateway.value).Some? then
        Err(AddrFault(prefix, p.gateway.value).value)
      else
        var gateway := if p.gateway.Some? then p.gateway.value.value else start;
        var s := State(prefix, gateway, Values(p.reserved), Values(p.leases), Prefixes(p.excluded));
        if ReservedFault(prefix, p.reserved).Some? then Err(ReservedFault(prefix, p.reserved).value)
        else if AllocatedFault(s, p.leases, {}).Some? then Err(AllocatedFault(s, p.leases, {}).value)
        else if ExcludedFault(prefix, p.excluded).Some? then Err(ExcludedFault(prefix, p.excluded).value)
        else if s.InExcluded(gateway) then Err(Conflict)
        else if exists ip | ip in s.reserved :: s.InExcluded(ip) then Err(Conflict)
        else if exists ip | ip in s.leases :: s.InExcluded(ip) then Err(Conflict)
        else Ok(s)
  }

  ghost predicate Distinct<T>(ts: seq<T>) {
    forall i, j :: 0 <= i < j < |ts| ==> ts[i] != ts[j]
  }

  ghost predicate AllUsable(prefix: Prefix, ts: seq<AddrText>) {
    forall t :: t in ts ==> t.Addr4? && Usable(prefix, t.value)
  }

  lemma MembersSplit<T>(ts: seq<T>)
    requires ts != []
    ensures ts[0] in ts
    ensures forall t :: t in ts <==> t == ts[0] || t in ts[1..]
  {
    assert ts == [ts[0]] + ts[1..];
  }

  lemma {:induction false} ReservedFaultExact(prefix: Prefix, ts: seq<AddrText>)
    ensures ReservedFault(prefix, ts).None? <==> AllUsable(prefix, ts)
  {
    if ts != [] {
      ReservedFaultExact(prefix, ts[1..]);
      MembersSplit(ts);
    }
  }

  lemma {:induction false} AllocatedFaultExact(s: State, ts: seq<AddrText>, seen: set<Word>)
    ensures AllocatedFault(s, ts, seen).None? <==>
            && AllUsable(s.prefix, ts) && Distinct(ts)
            && (forall t :: t in ts ==> t.value !in seen && !s.IsReserved(t.value))
  {
    if ts != [] && ts[0].Addr4? {
      AllocatedFaultExact(s, ts[1..], seen + {ts[0].value});
      assert ts == [ts[0]] + ts[1..];
      if AllocatedFault(s, ts, seen).None? {
        forall j | 0 < j < |ts| ensures ts[j] != ts[0] {
          assert ts[j] in ts[1..];
        }
      } else if AllUsable(s.prefix, ts) && Distinct(ts) {
        forall t | t in ts[1..] ensures t != ts[0] {}
      }
    } else if ts != [] {
      assert ts[0] in ts;
    }
  }

  lemma {:induction false} PrefixesAre(cs: seq<CidrText>)
    requires forall c :: c in cs ==> c.Cidr4?
    ensures |Prefixes(cs)| == |cs|
    ensures forall i :: 0 <= i < |cs| ==>
      Prefixes(cs)[i] == Mask(cs[i].addr, cs[i].bits) && Prefixes(cs)[i].IsMasked()
  {
    if cs != [] {
      assert cs[0] in cs;
      PrefixesAre(cs[1..]);
      MaskIsMasked(cs[0].addr, cs[0].bits);
    }
  }

  lemma {:induction false} ExcludedFaultExact(prefix: Prefix, cs: seq<CidrText>)
    ensures ExcludedFault(prefix, cs).None? <==>
            forall c :: c in cs ==> c.Cidr4? && PrefixesOverlap(prefix, Mask(c.addr, c.bits))
  {
    if cs != [] {
      ExcludedFaultExact(prefix, cs[1..]);
      MembersSplit(cs);
    }
  }

  /** A pool is accepted when and only when all of this holds. */
  ghost predicate ValidPool(p: Pool) {
    && p.cidr.Cidr4? && 1 <= p.cidr.bits <= 30
    && var s := Effective(p);
    && (p.gateway.Some? ==> p.gateway.value.Addr4? && Usable(s.prefix, p.gateway.value.value))
    && AllUsable(s.prefix, p.reserved) && AllUsable(s.prefix, p.leases) && Distinct(p.leases)
    && (forall t :: t in p.leases ==> !s.IsReserved(t.value))
    && (forall c :: c in p.excluded ==> c.Cidr4? && PrefixesOverlap(s.prefix, Mask(c.addr, c.bits)))
    && !s.InExcluded(s.gateway)
    && (forall ip :: ip in s.reserved || ip in s.leases ==> !s.InExcluded(ip))
  }

  /** The state of a pool whose CIDR is an IPv4 one. */
  function Effective(p: Pool): State
    requires p.cidr.Cidr4?
  {
    var prefix := Mask(p.cidr.addr, p.cidr.bits);
    var gateway := if p.gateway.Some? && p.gateway.value.Addr4? then p.gateway.value.value else UsableRange(prefix).0;
    State(prefix, gateway, Values(p.reserved), Values(p.leases), Prefixes(p.excluded))
  }

  lemma StateOfExact(p: Pool)
    ensures StateOf(p).Ok? <==> ValidPool(p)
    ensures StateOf(p).Ok? ==> StateOf(p).value == Effective(p)
  {
    if p.cidr.Cidr4? {
      var s := Effective(p);
      MaskIsMasked(p.cidr.addr, p.cidr.bits);
      UsableRangeExact(s.prefix);
      ReservedFaultExact(s.prefix, p.reserved);
      AllocatedFaultExact(s, p.leases, {});
      ExcludedFaultExact(s.prefix, p.excluded);
    }
  }

  lemma ValidPoolIsCoherent(p: Pool)
    requires ValidPool(p)
    ensures Effective(p).Coherent()
  {
    var s := Effective(p);
    MaskIsMasked(p.cidr.addr, p.cidr.bits);
    PrefixesAre(p.excluded);
    UsableRangeExact(s.prefix);
    UsableIsInterval(s.prefix, s.gateway);
  }

  // ----- nextAvailable and available

  /** The least available address at or above `current`. */
  function NextFrom(s: State, current: int, end: int): Option<int>
    decreases end - current
  {
    if current > end then None
    else if s.IsAvailable(current) then Some(current)
    else NextFrom(s, current + 1, end)
  }

  function Next(s: State): Option<int> {
    var (start, end) := UsableRange(s.prefix);
    NextFrom(s, start, end)
  }

  lemma {:induction false} NextFromIsLeast(s: State, current: int, end: int)
    ensures var next, free := NextFrom(s, current, end), s.FreeWithin(current, end);
      if next.None? then free == {} else next.value in free && forall ip :: ip in free ==> next.value <= ip
    decreases end - current
  {
    if current <= end && !s.IsAvailable(current) {
      NextFromIsLeast(s, current + 1, end);
      assert s.FreeWithin(current, end) == s.FreeWithin(current + 1, end);
    }
  }

  lemma NextIsLeast(s: State)
    ensures Next(s).None? <==> s.Free() == {}
    ensures Next(s).Some? ==> Next(s).value in s.Free() && forall ip :: ip in s.Free() ==> Next(s).value <= ip
  {
    NextFromIsLeast(s, UsableRange(s.prefix).0, UsableRange(s.prefix).1);
  }

  method NextAvailable(s: State) returns (r: Option<Word>)
    requires s.Coherent()
    ensures r == Next(s)
  {
    UsableRangeExact(s.prefix);
    var (start, end) := UsableRange(s.prefix);
    r := ScanFrom(s, start, end);
  }

  method ScanFrom(s: State, start: Word, end: Word) returns (r: Option<Word>)
    requires start <= end + 1
    ensures r == NextFrom(s, start, end)
  {
    var current := start;
    while current <= end
      invariant start <= current <= end + 1
      invariant NextFrom(s, start, end) == NextFrom(s, current, end)
    {
      if s.IsAvailable(current) {
        return Some(current);
      }
      if current == WORD_LIMIT - 1 {
        break;
      }
      current := (current + 1) % WORD_LIMIT;
    }
    return None;
  }

  ghost predicate Blocked(s: State, ip: int) {
    s.IsReserved(ip) || s.InExcluded(ip) || ip in s.leases
  }

  /** `blocked` covers exactly the listed addresses. */
  ghost predicate Singletons(blocked: seq<Range>, ips: set<Word>) {
    forall x :: Covered(x, blocked) <==> x in ips
  }

  method AppendSingletons(blocked: seq<Range>, ips: set<Word>, ghost lo: int, ghost hi: int, ghost had: set<Word>)
    returns (out: seq<Range>)
    requires Within(blocked, lo, hi) && Singletons(blocked, had)
    requires forall ip :: ip in ips ==> lo <= ip <= hi
    ensures Within(out, lo, hi) && Singletons(out, had + ips)
  {
    out := blocked;
    var rest := ips;
    ghost var done: set<Word> := {};
    while rest != {}
      invariant Within(out, lo, hi) && rest <= ips && done == ips - rest
      invariant Singletons(out, had + done)
      decreases rest
    {
      var ip :| ip in rest;
      forall x ensures Covered(x, out + [Range(ip, ip)]) <==> x in had + (done + {ip}) {
        CoveredAppend(x, out, Range(ip, ip));
      }
      out := out + [Range(ip, ip)];
      done := done + {ip};
      rest := rest - {ip};
    }
  }

  ghost predicate InSome(excluded: seq<Prefix>, x: int) {
    exists i :: 0 <= i < |excluded| && excluded[i].Contains(x)
  }

  lemma InSomeAppend(excluded: seq<Prefix>, p: Prefix, x: int)
    ensures InSome(excluded + [p], x) <==> InSome(excluded, x) || p.Contains(x)
  {
    var t := excluded + [p];
    assert t[|excluded|] == p;
    assert forall i :: 0 <= i < |excluded| ==> t[i] == excluded[i];
  }

  /** Clips every excluded prefix to the usable range [start, end]. */
  method AppendExcluded(blocked: seq<Range>, excluded: seq<Prefix>, start: Word, end: Word, ghost had: set<Word>)
    returns (out: seq<Range>)
    requires start <= end && Within(blocked, start, end) && Singletons(blocked, had)
    requires forall i :: 0 <= i < |excluded| ==> excluded[i].IsMasked()
    ensures Within(out, start, end)
    ensures forall x :: start <= x <= end ==> (Covered(x, out) <==> x in had || InSome(excluded, x))
  {
    out := blocked;
    for k := 0 to |excluded|
      invariant Within(out, start, end)
      invariant forall x :: start <= x <= end ==> (Covered(x, out) <==> x in had || InSome(excluded[..k], x))
    {
      PrefixRangeExact(excluded[k]);
      SizeFits(excluded[k]);
      var (exStart, exEnd) := PrefixRange(excluded[k]);
      ghost var before := out;
      ghost var clipped := Range(if start > exStart then start else exStart, if end < exEnd then end else exEnd);
      if !(exEnd < start || exStart > end) {
        out := out + [Range(if start > exStart then start else exStart, if end < exEnd then end else exEnd)];
      }
      assert excluded[..k + 1] == excluded[..k] + [excluded[k]];
      forall x | start <= x <= end
        ensures Covered(x, out) <==> x in had || InSome(excluded[..k + 1], x)
      {
        CoveredAppend(x, before, clipped);
        InSomeAppend(excluded[..k], excluded[k], x);
      }
    }
    assert excluded[..|excluded|] == excluded;
  }

  /** [start, end] is the usable range of the state's prefix. */
  ghost predicate UsableBounds(s: State, start: int, end: int) {
    && start <= end < WORD_LIMIT - 1
    && (forall ip :: Usable(s.prefix, ip) <==> start <= ip <= end)
    && s.Free() == s.FreeWithin(start, end)
  }

  method FindBounds(s: State) returns (start: Word, end: Word)
    requires s.Coherent()
    ensures UsableBounds(s, start, end) && end - start + 1 <= 0x7fff_fffe
  {
    UsableRangeExact(s.prefix);
    forall ip ensures Usable(s.prefix, ip) <==> UsableRange(s.prefix).0 <= ip <= UsableRange(s.prefix).1 {
      UsableIsInterval(s.prefix, ip);
    }
    UsableIsInterval(s.prefix, UsableRange(s.prefix).1);
    var range := UsableRange(s.prefix);
    return range.0, range.1;
  }

  /** `available`: clip, sort, merge and subtract count exactly the addresses that
      `isAvailable` accepts; the 64-bit subtraction never wraps and the guard on the
      range of int never fires, even for 32-bit ints. */
  method CountAvailable(s: State) returns (n: nat)
    requires s.Coherent()
    ensures n == |s.Free()|
    ensures n <= 0x7fff_ffff
  {
    var start, end := FindBounds(s);
    var merged := MergedBlocked(s, start, end);
    n := SubtractAll(end - start + 1, merged, start, end);
  }

  method SubtractAll(size: nat, merged: seq<Range>, ghost lo: int, ghost hi: int) returns (total: nat)
    requires lo <= hi && size == hi - lo + 1 < LONG_LIMIT && Within(merged, lo, hi) && Separated(merged)
    ensures total == size - TotalSize(merged) <= size
  {
    total := size;
    for k := 0 to |merged|
      invariant total == size - TotalSize(merged[..k])
    {
      assert merged[..k + 1][..k] == merged[..k];
      PrefixOfSeparated(merged, k + 1, lo, hi);
      total := (total - (merged[k].end - merged[k].start + 1)) % LONG_LIMIT;
    }
    PrefixOfSeparated(merged, |merged|, lo, hi);
    assert merged[..|merged|] == merged;
  }

  method MergedBlocked(s: State, start: Word, end: Word) returns (merged: seq<Range>)
    requires s.Coherent() && UsableBounds(s, start, end)
    ensures Within(merged, start, end) && Separated(merged)
    ensures |s.Free()| == end - start + 1 - TotalSize(merged)
  {
    var blocked := CollectBlocked(s, start, end);
    merged := MergeRanges(blocked, start, end);
    FreeIsRest(s, merged, start, end);
  }

  method CollectBlocked(s: State, start: Word, end: Word) returns (blocked: seq<Range>)
    requires s.Coherent() && UsableBounds(s, start, end)
    ensures Within(blocked, start, end)
    ensures forall x :: start <= x <= end ==> (Covered(x, blocked) <==> Blocked(s, x))
  {
    blocked := [Range(s.gateway, s.gateway)];
    assert Singletons(blocked, {s.gateway}) by {
      assert blocked[0] == Range(s.gateway, s.gateway);
    }
    blocked := AppendSingletons(blocked, s.reserved, start, end, {s.gateway});
    blocked := AppendSingletons(blocked, s.leases, start, end, {s.gateway} + s.reserved);
    blocked := AppendExcluded(blocked, s.excluded, start, end, {s.gateway} + s.reserved + s.leases);
    assert forall x :: InSome(s.excluded, x) <==> s.InExcluded(x);
  }

  lemma PrefixOfSeparated(merged: seq<Range>, k: nat, lo: int, hi: int)
    requires k <= |merged| && Within(merged, lo, hi) && Separated(merged) && lo <= hi
    ensures 0 <= TotalSize(merged[..k]) <= hi - lo + 1
  {
    CoveredSetSize(merged[..k], lo, hi);
  }

  lemma FreeIsRest(s: State, merged: seq<Range>, start: int, end: int)
    requires UsableBounds(s, start, end) && Within(merged, start, end) && Separated(merged)
    requires forall x :: start <= x <= end ==> (Covered(x, merged) <==> Blocked(s, x))
    ensures |s.Free()| == |Interval(start, end)| - TotalSize(merged)
  {
    CoveredSetSize(merged, start, end);
    SubsetSize(CoveredSet(merged, start, end), Interval(start, end));
    assert s.Free() == Interval(start, end) - CoveredSet(merged, start, end);
  }

  // ----- a fresh pool

  /** A pool of just a prefix is valid from /1 to /30 and then offers every usable address
      but the first, which becomes the gateway. */
  lemma FreshPoolExact(addr: Word, bits: Bits)
    ensures var p := Pool(Cidr4(addr, bits), None, [], [], []);
      && (ValidPool(p) <==> 1 <= bits <= 30)
      && (ValidPool(p) ==> |Effective(p).Free()| == Pow2(32 - bits) - 3)
  {
    var s := Effective(Pool(Cidr4(addr, bits), None, [], [], []));
    MaskIsMasked(addr, bits);
    UsableRangeExact(s.prefix);
    if 1 <= bits <= 30 {
      var (start, end) := UsableRange(s.prefix);
      UsableIsInterval(s.prefix, start);
      forall ip ensures s.IsAvailable(ip) <==> start < ip <= end {
        UsableIsInterval(s.prefix, ip);
      }
      assert s.Free() == Interval(start, end) - {start};
    }
  }
}
