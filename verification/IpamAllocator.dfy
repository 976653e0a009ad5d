/** Allocate and Release of ipam.go, and what whole runs of them keep. */
module IpamAllocator {
  import opened Options
  import opened IpamRanges
  import opened IpamPool

  /** A requested address: the empty string asks for the next free one. */
  datatype Request = Any | Exact(text: AddrText)

  function ParseAddr(t: AddrText): Result<Word> {
    match t
    case BadAddr => Err(Validation)
    case Addr6 => Err(Unsupported)
    case Addr4(ip) => Ok(ip)
  }

  /** ensureAvailable. */
  function EnsureFault(s: State, ip: Word): Option<Kind> {
    if !Usable(s.prefix, ip) then Some(Validation)
    else if s.IsReserved(ip) || ip in s.leases || s.InExcluded(ip) then Some(Conflict)
    else None
  }

  /** The address that Allocate hands out, or its error. */
  function Choice(p: Pool, requested: seq<Request>): Result<int> {
    if |requested| > 1 then Err(Validation)
    else match StateOf(p)
      case Err(kind) => Err(kind)
      case Ok(s) =>
        if requested == [] || requested[0].Any? then
          (if Next(s).None? then Err(NotFound) else Ok(Next(s).value))
        else match ParseAddr(requested[0].text)
          case Err(kind) => Err(kind)
          case Ok(ip) => if EnsureFault(s, ip).Some? then Err(EnsureFault(s, ip).value) else Ok(ip)
  }

  /** Result of Release: the position freed, or its error. */
  function ReleaseIndex(leases: seq<AddrText>, ip: Word, i: nat): Result<nat>
    requires i <= |leases|
    ensures ReleaseIndex(leases, ip, i).Ok? ==>
      i <= ReleaseIndex(leases, ip, i).value < |leases| && leases[ReleaseIndex(leases, ip, i).value] == Addr4(ip)
    decreases |leases| - i
  {
    if i == |leases| then Err(NotFound)
    else match ParseAddr(leases[i])
      case Err(kind) => Err(kind)
      case Ok(current) => if current == ip then Ok(i) else ReleaseIndex(leases, ip, i + 1)
  }

  // ----- the three loops of IPAMPool.state

  method ParseReserved(prefix: Prefix, ts: seq<AddrText>) returns (r: Result<set<Word>>)
    ensures r == match ReservedFault(prefix, ts) case Some(kind) => Err(kind) case None => Ok(Values(ts))
  {
    var out: set<Word> := {};
    for i := 0 to |ts|
      invariant out == Values(ts[..i])
      invariant ReservedFault(prefix, ts) == ReservedFault(prefix, ts[i..])
    {
      var fault := AddrFault(prefix, ts[i]);
      if fault.Some? { return Err(fault.value); }
      ValuesAppend(ts, i);
      out := out + {ts[i].value};
    }
    assert ts[..|ts|] == ts;
    return Ok(out);
  }

  method ParseLeases(s: State, ts: seq<AddrText>, ghost full: State) returns (r: Result<set<Word>>)
    requires s.prefix == full.prefix && s.gateway == full.gateway && s.reserved == full.reserved
    ensures r == match AllocatedFault(full, ts, {}) case Some(kind) => Err(kind) case None => Ok(Values(ts))
  {
    var out: set<Word> := {};
    for i := 0 to |ts|
      invariant out == Values(ts[..i])
      invariant AllocatedFault(full, ts, {}) == AllocatedFault(full, ts[i..], out)
    {
      var fault := AddrFault(s.prefix, ts[i]);
      if fault.Some? { return Err(fault.value); }
      if ts[i].value in out || s.IsReserved(ts[i].value) { return Err(Conflict); }
      ValuesAppend(ts, i);
      out := out + {ts[i].value};
    }
    assert ts[..|ts|] == ts;
    return Ok(out);
  }

  method ParseExcluded(prefix: Prefix, cs: seq<CidrText>) returns (r: Result<seq<Prefix>>)
    ensures r == match ExcludedFault(prefix, cs) case Some(kind) => Err(kind) case None => Ok(Prefixes(cs))
  {
    var out: seq<Prefix> := [];
    for i := 0 to |cs|
      invariant out + Prefixes(cs[i..]) == Prefixes(cs)
      invariant ExcludedFault(prefix, cs) == ExcludedFault(prefix, cs[i..])
    {
      ExcludedStep(prefix, cs, i);
      if cs[i].BadCidr? { return Err(Validation); }
      if cs[i].Cidr6? { return Err(Unsupported); }
      var other := Mask(cs[i].addr, cs[i].bits);
      if !PrefixesOverlap(prefix, other) { return Err(Conflict); }
      out := out + [other];
    }
    assert cs[|cs|..] == [] && out + [] == out;
    return Ok(out);
  }

  lemma ExcludedStep(prefix: Prefix, cs: seq<CidrText>, i: nat)
    requires i < |cs|
    ensures cs[i].Cidr4? ==> Prefixes(cs[i..]) == [Mask(cs[i].addr, cs[i].bits)] + Prefixes(cs[i + 1..])
    ensures ExcludedFault(prefix, cs[i..]) ==
      match cs[i]
      case BadCidr => Some(Validation)
      case Cidr6 => Some(Unsupported)
      case Cidr4(addr, bits) =>
        if PrefixesOverlap(prefix, Mask(addr, bits)) then ExcludedFault(prefix, cs[i + 1..]) else Some(Conflict)
  {
    assert cs[i..][1..] == cs[i + 1..];
  }

  class IPAMPool {
    var cidr: CidrText
    var gateway: Option<AddrText>
    var reserved: seq<AddrText>
    var leases: seq<AddrText>
    var excluded: seq<CidrText>

    constructor (cidr: CidrText)
      ensures Value() == Pool(cidr, None, [], [], [])
    {
      this.cidr, gateway := cidr, None;
      reserved, leases, excluded := [], [], [];
    }

    function Value(): Pool
      reads this
    {
      Pool(cidr, gateway, reserved, leases, excluded)
    }

    /** IPAMPool.state. */
    method ComputeState() returns (r: Result<State>)
      ensures r == StateOf(Value())
    {
      if cidr.BadCidr? { return Err(Validation); }
      if cidr.Cidr6? { return Err(Unsupported); }
      var prefix := Mask(cidr.addr, cidr.bits);
      var (start, end) := UsableRange(prefix);
      if start > end { return Err(Conflict); }
      var gatewayIP := start;
      if gateway.Some? {
        var fault := AddrFault(prefix, gateway.value);
        if fault.Some? { return Err(fault.value); }
        gatewayIP := gateway.value.value;
      }
      var reservedIPs := ParseReserved(prefix, reserved);
      if reservedIPs.Err? { return Err(reservedIPs.kind); }
      ghost var full := State(prefix, gatewayIP, Values(reserved), Values(leases), Prefixes(excluded));
      var leasedIPs := ParseLeases(State(prefix, gatewayIP, reservedIPs.value, {}, []), leases, full);
      if leasedIPs.Err? { return Err(leasedIPs.kind); }
      var prefixes := ParseExcluded(prefix, excluded);
      if prefixes.Err? { return Err(prefixes.kind); }
      var s := State(prefix, gatewayIP, reservedIPs.value, leasedIPs.value, prefixes.value);
      if s.InExcluded(s.gateway) { return Err(Conflict); }
      if exists ip | ip in s.reserved :: s.InExcluded(ip) { return Err(Conflict); }
      if exists ip | ip in s.leases :: s.InExcluded(ip) { return Err(Conflict); }
      return Ok(s);
    }

    method Allocate(requested: seq<Request>) returns (r: Result<Word>)
      modifies this`leases
      ensures r == Choice(old(Value()), requested)
      ensures leases == if r.Ok? then old(leases) + [Addr4(r.value)] else old(leases)
    {
      if |requested| > 1 { return Err(Validation); }
      var state := ComputeState();
      if state.Err? { return Err(state.kind); }
      var s := state.value;
      var ip: Word;
      if requested == [] || requested[0].Any? {
        StateOfExact(Value());
        ValidPoolIsCoherent(Value());
        var next := NextAvailable(s);
        if next.None? { return Err(NotFound); }
        ip := next.value;
      } else {
        var parsed := ParseAddr(requested[0].text);
        if parsed.Err? { return Err(parsed.kind); }
        ip := parsed.value;
        var fault := EnsureFault(s, ip);
        if fault.Some? { return Err(fault.value); }
      }
      leases := leases + [Addr4(ip)];
      return Ok(ip);
    }

    method Release(ip: AddrText) returns (r: Result<nat>)
      modifies this`leases
      ensures r == if ip.Addr4? then ReleaseIndex(old(leases), ip.value, 0) else Err(ParseAddr(ip).kind)
      ensures leases == if r.Ok? then old(leases)[..r.value] + old(leases)[r.value + 1..] else old(leases)
    {
      var parsed := ParseAddr(ip);
      if parsed.Err? { return Err(parsed.kind); }
      for i := 0 to |leases|
        invariant leases == old(leases)
        invariant ReleaseIndex(leases, parsed.value, 0) == ReleaseIndex(leases, parsed.value, i)
      {
        var current := ParseAddr(leases[i]);
        if current.Err? { return Err(current.kind); }
        if current.value == parsed.value {
          leases := leases[..i] + leases[i + 1..];
          return Ok(i);
        }
      }
      return Err(NotFound);
    }

    method Available() returns (r: Result<nat>)
      ensures r.Ok? <==> ValidPool(Value())
      ensures r.Ok? ==> r.value == |Effective(Value()).Free()|
    {
      StateOfExact(Value());
      var state := ComputeState();
      if state.Err? { return Err(state.kind); }
      ValidPoolIsCoherent(Value());
      var n := CountAvailable(state.value);
      return Ok(n);
    }
  }

  lemma ValuesAppend(ts: seq<AddrText>, i: nat)
    requires i < |ts| && ts[i].Addr4?
    ensures Values(ts[..i + 1]) == Values(ts[..i]) + {ts[i].value}
  {
    assert ts[..i + 1] == ts[..i] + [ts[i]];
  }

  // ----- one operation

  datatype Op = Allocate(requested: seq<Request>) | Release(ip: AddrText)

  function Grant(p: Pool, op: Op): Result<int> {
    match op
    case Allocate(requested) => Choice(p, requested)
    case Release(ip) =>
      if !ip.Addr4? then Err(ParseAddr(ip).kind)
      else match ReleaseIndex(p.leases, ip.value, 0)
        case Err(kind) => Err(kind)
        case Ok(_) => Ok(ip.value)
  }

  lemma ChoiceIsWord(p: Pool, requested: seq<Request>)
    requires Choice(p, requested).Ok?
    ensures ValidPool(p) && Choice(p, requested).value in Effective(p).Free()
    ensures 0 <= Choice(p, requested).value < WORD_LIMIT
  {
    StateOfExact(p);
    var s := Effective(p);
    var ip := Choice(p, requested).value;
    MaskIsMasked(p.cidr.addr, p.cidr.bits);
    NextIsLeast(s);
    UsableIsInterval(s.prefix, ip);
  }

  function After(p: Pool, op: Op): Pool {
    if Grant(p, op).Err? then p
    else match op
      case Allocate(requested) =>
        ChoiceIsWord(p, requested);
        p.(leases := p.leases + [Addr4(Choice(p, requested).value)])
      case Release(ip) =>
        var i := ReleaseIndex(p.leases, ip.value, 0).value;
        p.(leases := p.leases[..i] + p.leases[i + 1..])
  }

  lemma {:induction false} ReleaseIndexFinds(leases: seq<AddrText>, ip: Word, i: nat)
    requires i <= |leases| && forall t :: t in leases ==> t.Addr4?
    ensures ReleaseIndex(leases, ip, i).Ok? <==> Addr4(ip) in leases[i..]
    ensures ReleaseIndex(leases, ip, i).Err? ==> ReleaseIndex(leases, ip, i).kind == NotFound
    decreases |leases| - i
  {
    if i < |leases| {
      assert leases[i] in leases;
      ReleaseIndexFinds(leases, ip, i + 1);
      assert leases[i..] == [leases[i]] + leases[i + 1..];
    }
  }

  lemma RemoveAt(ts: seq<AddrText>, i: nat)
    requires i < |ts| && Distinct(ts)
    ensures var out := ts[..i] + ts[i + 1..];
      Distinct(out) && forall t :: t in out <==> t in ts && t != ts[i]
  {
    var out := ts[..i] + ts[i + 1..];
    forall t | t in ts && t != ts[i] ensures t in out {
      var j :| 0 <= j < |ts| && ts[j] == t;
      assert t == if j < i then out[j] else out[j - 1];
    }
  }

  /** What one operation does to a valid pool: it stays valid, and exactly the granted
      address moves between the free and the held ones. */
  ghost predicate StepOutcome(p: Pool, op: Op, q: Pool)
    requires ValidPool(p)
  {
    && ValidPool(q) && q == p.(leases := q.leases)
    && var free, free' := Effective(p).Free(), Effective(q).Free();
    match Grant(p, op)
    case Err(_) => q == p
    case Ok(ip) =>
      if op.Allocate? then ip in free && free' == free - {ip} && |q.leases| == |p.leases| + 1
      else ip !in free && free' == free + {ip} && |q.leases| + 1 == |p.leases|
  }

  lemma AllocatedPool(p: Pool, ip: Word)
    requires ValidPool(p) && ip in Effective(p).Free()
    ensures var q := p.(leases := p.leases + [Addr4(ip)]);
      && ValidPool(q) && Effective(q).leases == Effective(p).leases + {ip}
  {
    var q := p.(leases := p.leases + [Addr4(ip)]);
    var s, t := Effective(p), Effective(q);
    assert q.leases[..|p.leases|] == p.leases && q.leases[..|p.leases| + 1] == q.leases;
    ValuesAppend(q.leases, |p.leases|);
    assert forall x :: s.InExcluded(x) <==> t.InExcluded(x);
    forall x | x in q.leases ensures x.Addr4? && Usable(t.prefix, x.value) && !t.IsReserved(x.value) {
      assert x in p.leases || x == Addr4(ip);
    }
    assert Distinct(q.leases) by {
      assert forall x :: x in p.leases ==> x.value in s.leases;
    }
  }

  lemma AllocateKeepsPool(p: Pool, requested: seq<Request>)
    requires ValidPool(p) && Choice(p, requested).Ok?
    ensures StepOutcome(p, Allocate(requested), After(p, Allocate(requested)))
  {
    var q := After(p, Allocate(requested));
    var s, t := Effective(p), Effective(q);
    var ip := Choice(p, requested).value;
    StateOfExact(p);
    ChoiceIsWord(p, requested);
    MaskIsMasked(p.cidr.addr, p.cidr.bits);
    IsFree(s, ip);
    AllocatedPool(p, ip);
    FreeAfter(s, t, ip);
  }

  lemma IsFree(s: State, ip: int)
    requires s.IsAvailable(ip)
    ensures ip in s.Free()
  {}

  lemma ReleasedPool(p: Pool, ip: Word)
    requires ValidPool(p) && ReleaseIndex(p.leases, ip, 0).Ok?
    ensures var q := After(p, Release(Addr4(ip)));
      && ValidPool(q) && q == p.(leases := q.leases) && |q.leases| + 1 == |p.leases|
      && ip !in Effective(q).leases && Effective(p).leases == Effective(q).leases + {ip}
      && !Effective(p).IsReserved(ip) && !Effective(p).InExcluded(ip) && Usable(Effective(p).prefix, ip)
  {
    var q := After(p, Release(Addr4(ip)));
    var s, t := Effective(p), Effective(q);
    RemoveAt(p.leases, ReleaseIndex(p.leases, ip, 0).value);
    assert Addr4(ip) in p.leases;
    assert t.leases == s.leases - {ip};
    assert forall x :: s.InExcluded(x) <==> t.InExcluded(x);
  }

  lemma ReleaseKeepsPool(p: Pool, ip: Word)
    requires ValidPool(p) && ReleaseIndex(p.leases, ip, 0).Ok?
    ensures StepOutcome(p, Release(Addr4(ip)), After(p, Release(Addr4(ip))))
  {
    var q := After(p, Release(Addr4(ip)));
    var s, t := Effective(p), Effective(q);
    MaskIsMasked(p.cidr.addr, p.cidr.bits);
    ReleasedPool(p, ip);
    FreeAfter(t, s, ip);
    assert s.Free() + {ip} == t.Free();
  }

  lemma StepKeepsPool(p: Pool, op: Op)
    requires ValidPool(p)
    ensures StepOutcome(p, op, After(p, op))
  {
    match op
    case Allocate(requested) =>
      if Choice(p, requested).Ok? { AllocateKeepsPool(p, requested); }
    case Release(ip) =>
      if ip.Addr4? && ReleaseIndex(p.leases, ip.value, 0).Ok? { ReleaseKeepsPool(p, ip.value); }
  }

  /** Two states that differ by one lease. */
  lemma FreeAfter(s: State, t: State, ip: Word)
    requires t == s.(leases := t.leases) && t.leases == s.leases + {ip} && s.prefix.IsMasked()
    requires Usable(s.prefix, ip) && !s.IsReserved(ip) && !s.InExcluded(ip) && ip !in s.leases
    ensures ip in s.Free() && t.Free() == s.Free() - {ip}
  {
    assert forall x :: t.IsAvailable(x) <==> s.IsAvailable(x) && x != ip;
  }

  /** Automatic allocation takes the least free address and reports exhaustion
      exactly when nothing is free; a request is granted exactly when it is free. */
  lemma AllocateExact(p: Pool, requested: seq<Request>)
    requires ValidPool(p) && |requested| <= 1
    ensures var free := Effective(p).Free(); var r := Choice(p, requested);
      if requested == [] || requested[0].Any? then
        (r == Err(NotFound) <==> |free| == 0) &&
        (r.Ok? <==> |free| > 0) &&
        (r.Ok? ==> r.value in free && forall ip :: ip in free ==> r.value <= ip)
      else requested[0].text.Addr4? ==> (r.Ok? <==> requested[0].text.value in free)
  {
    StateOfExact(p);
    var s := Effective(p);
    NextIsLeast(s);
    MaskIsMasked(p.cidr.addr, p.cidr.bits);
    if |requested| == 1 && requested[0].Exact? && requested[0].text.Addr4? {
      UsableIsInterval(s.prefix, requested[0].text.value);
    }
  }

  // ----- whole runs

  function Run(p: Pool, ops: seq<Op>): Pool
    decreases |ops|
  {
    if ops == [] then p else Run(After(p, ops[0]), ops[1..])
  }

  /** The addresses handed out during a run, in order. */
  function HandedOut(p: Pool, ops: seq<Op>): seq<int>
    decreases |ops|
  {
    if ops == [] then []
    else (if ops[0].Allocate? && Grant(p, ops[0]).Ok? then [Grant(p, ops[0]).value] else [])
         + HandedOut(After(p, ops[0]), ops[1..])
  }

  /** Any run from a valid pool ends in a valid pool with the same configuration, no
      address is held twice, free and held addresses add up to the same number, and no
      gateway, reserved, excluded or unusable address is ever handed out. */
  lemma {:induction false} RunKeepsPool(p: Pool, ops: seq<Op>)
    requires ValidPool(p)
    decreases |ops|
    ensures var q := Run(p, ops);
      && ValidPool(q) && q == p.(leases := q.leases) && Distinct(q.leases)
      && |Effective(q).Free()| + |q.leases| == |Effective(p).Free()| + |p.leases|
    ensures forall ip :: ip in HandedOut(p, ops) ==>
      var s := Effective(p); Usable(s.prefix, ip) && !s.IsReserved(ip) && !s.InExcluded(ip)
  {
    if ops != [] {
      StepKeepsPool(p, ops[0]);
      RunKeepsPool(After(p, ops[0]), ops[1..]);
    }
  }

  // ----- PlanIPAllocation

  datatype Plan = Plan(gateway: Word, available: nat, next: Option<Word>)

  /** PlanIPAllocation.  The error of nextAvailable is overwritten before it is looked
      at, so `next` is always rendered; None stands for the invalid zero address. */
  method PlanIPAllocation(pool: IPAMPool) returns (r: Result<Plan>)
    ensures r.Ok? <==> ValidPool(pool.Value())
    ensures r.Ok? ==> var s := Effective(pool.Value());
      && r.value.gateway == s.gateway
      && r.value.available == |s.Free()|
      && (r.value.available > 0 ==>
           (r.value.next.Some? && r.value.next.value in s.Free() &&
            forall ip :: ip in s.Free() ==> r.value.next.value <= ip))
      && (r.value.available == 0 ==> r.value.next.None?)
  {
    StateOfExact(pool.Value());
    var state := pool.ComputeState();
    if state.Err? { return Err(state.kind); }
    ValidPoolIsCoherent(pool.Value());
    var next := NextAvailable(state.value);
    var available := CountAvailable(state.value);
    NextIsLeast(state.value);
    return Ok(Plan(state.value.gateway, available, next));
  }
}
