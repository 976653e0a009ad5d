/** The OXM match printer and parser of openflow_protocol.go (section 7.2.3 of the
    OpenFlow Switch Specification 1.3).  MAC and IPv4 strings are represented by what
    net.ParseMAC and net/netip make of them. */
module OpenFlowMatch {
  import opened Options
  import opened Bytes
  import opened OpenFlowMasks
  import opened OpenFlowOxm
  import IpamRanges

  /** net.ParseMAC accepts 6, 8 and 20 octets. */
  type Octets = s: seq<Byte> | |s| in {6, 8, 20} witness [0, 0, 0, 0, 0, 0]
  datatype MacText = BadMac | Mac(octets: Octets)

  datatype IPv4Text = BadIP | IPv6 | Bare(addr: U32) | Cidr(addr: U32, bits: Bits)

  datatype Metadata = Metadata(value: U64, mask: U64)

  datatype Match = Match(
    inPort: Option<U32>, metadata: Option<Metadata>,
    ethDst: Option<MacText>, ethSrc: Option<MacText>,
    ethType: Option<U16>, vlanVID: Option<U16>, ipProto: Option<Byte>,
    ipv4Src: Option<IPv4Text>, ipv4Dst: Option<IPv4Text>,
    tcpSrc: Option<U16>, tcpDst: Option<U16>, udpSrc: Option<U16>, udpDst: Option<U16>)

  const EmptyMatch := Match(None, None, None, None, None, None, None, None, None, None, None, None, None)

  // ----- printing

  function Masked(addr: U32, bits: Bits): U32 {
    IpamRanges.Mask(addr, bits).addr
  }

  /** ipv4OXM on a parsed prefix; a bare address counts as a /32. */
  function IPv4Oxm(field: Byte, t: IPv4Text): Oxm
    requires t.Bare? || t.Cidr?
  {
    if t.Bare? then Oxm(field, false, Put32(t.addr), [])
    else if t.bits == 32 then Oxm(field, false, Put32(Masked(t.addr, 32)), [])
    else Oxm(field, true, Put32(Masked(t.addr, t.bits)), MaskBytes(t.bits))
  }

  function TextFault(t: Option<IPv4Text>): Option<Kind> {
    match t
    case Some(BadIP) => Some(Validation)
    case Some(IPv6) => Some(Unsupported)
    case _ => None
  }

  /** The first error that marshalOpenFlowMatch runs into. */
  function MatchFault(m: Match): Option<Kind> {
    if m.ethDst == Some(BadMac) || m.ethSrc == Some(BadMac) then Some(Validation)
    else if TextFault(m.ipv4Src).Some? then TextFault(m.ipv4Src)
    else TextFault(m.ipv4Dst)
  }

  function Word16(field: Byte, v: Option<U16>): seq<Oxm> {
    if v.None? then [] else [Oxm(field, false, Put16(v.value), [])]
  }

  /** The k-th field in the order of marshalOpenFlowMatch, if it is set. */
  function Stage(m: Match, k: nat): seq<Oxm>
    requires MatchFault(m).None? && k < 13
  {
    match k
    case 0 => if m.inPort.None? then [] else [Oxm(0, false, Put32(m.inPort.value), [])]
    case 1 => if m.metadata.None? then [] else
      [Oxm(2, true, Put64(m.metadata.value.value), Put64(m.metadata.value.mask))]
    case 2 => if m.ethDst.None? then [] else [Oxm(3, false, m.ethDst.value.octets, [])]
    case 3 => if m.ethSrc.None? then [] else [Oxm(4, false, m.ethSrc.value.octets, [])]
    case 4 => Word16(5, m.ethType)
    case 5 => Word16(6, m.vlanVID)
    case 6 => if m.ipProto.None? then [] else [Oxm(10, false, [m.ipProto.value], [])]
    case 7 => if m.ipv4Src.None? then [] else [IPv4Oxm(11, m.ipv4Src.value)]
    case 8 => if m.ipv4Dst.None? then [] else [IPv4Oxm(12, m.ipv4Dst.value)]
    case 9 => Word16(13, m.tcpSrc)
    case 10 => Word16(14, m.tcpDst)
    case 11 => Word16(15, m.udpSrc)
    case _ => Word16(16, m.udpDst)
  }

  function FieldsFrom(m: Match, k: nat): seq<Oxm>
    requires MatchFault(m).None? && k <= 13
    decreases 13 - k
  {
    if k == 13 then [] else Stage(m, k) + FieldsFrom(m, k + 1)
  }

  /** marshalOpenFlowMatch: type, 16-bit length, fields, padding to a multiple of eight. */
  function MarshalMatch(m: Match): Result<seq<Byte>> {
    if MatchFault(m).Some? then Err(MatchFault(m).value)
    else
      var fields := MarshalOxms(FieldsFrom(m, 0));
      Ok(MatchHeader(4 + |fields|) + fields + Zeros(Padding(4 + |fields|)))
  }

  // ----- parsing

  /** formatParsedIPv4. */
  function FormatIPv4(value: seq<Byte>, mask: seq<Byte>): Result<IPv4Text> {
    if |value| != 4 then Err(Validation)
    else if mask == [] then Ok(Bare(Get32(value)))
    else if |mask| != 4 then Err(Validation)
    else
      var bits := LeadingOnesFrom(mask, 0);
      Ok(Cidr(Masked(Get32(value), bits), bits))
  }

  /** applyParsedOXM. */
  function Apply(m: Match, field: Byte, value: seq<Byte>, mask: seq<Byte>): Result<Match> {
    match field
    case 0 => if |value| != 4 then Err(Validation) else Ok(m.(inPort := Some(Get32(value))))
    case 2 => if |value| != 8 then Err(Validation) else
      Ok(m.(metadata := Some(Metadata(Get64(value), if |mask| == 8 then Get64(mask) else 0))))
    case 3 => if |value| != 6 then Err(Validation) else Ok(m.(ethDst := Some(Mac(value))))
    case 4 => if |value| != 6 then Err(Validation) else Ok(m.(ethSrc := Some(Mac(value))))
    case 5 => if |value| != 2 then Err(Validation) else Ok(m.(ethType := Some(Get16(value))))
    case 6 => if |value| != 2 then Err(Validation) else Ok(m.(vlanVID := Some(Get16(value))))
    case 10 => if |value| != 1 then Err(Validation) else Ok(m.(ipProto := Some(value[0])))
    case 11 => (match FormatIPv4(value, mask) case Err(e) => Err(e) case Ok(t) => Ok(m.(ipv4Src := Some(t))))
    case 12 => (match FormatIPv4(value, mask) case Err(e) => Err(e) case Ok(t) => Ok(m.(ipv4Dst := Some(t))))
    case 13 => if |value| != 2 then Err(Validation) else Ok(m.(tcpSrc := Some(Get16(value))))
    case 14 => if |value| != 2 then Err(Validation) else Ok(m.(tcpDst := Some(Get16(value))))
    case 15 => if |value| != 2 then Err(Validation) else Ok(m.(udpSrc := Some(Get16(value))))
    case 16 => if |value| != 2 then Err(Validation) else Ok(m.(udpDst := Some(Get16(value))))
    case _ => Err(Unsupported)
  }

  function MatchOf(data: seq<Byte>): Result<Match> {
    FrameOf(data, EmptyMatch, Apply)
  }

  // ----- the round trip

  function CanonText(t: Option<IPv4Text>): Option<IPv4Text> {
    match t
    case Some(Cidr(addr, bits)) =>
      if bits == 32 then Some(Bare(addr)) else Some(Cidr(Masked(addr, bits), bits))
    case _ => t
  }

  /** Host bits cleared, and a /32 written as a bare address. */
  function Canonical(m: Match): Match {
    m.(ipv4Src := CanonText(m.ipv4Src), ipv4Dst := CanonText(m.ipv4Dst))
  }

  /** The first k fields of the canonical match. */
  function Partial(m: Match, k: nat): Match {
    var c := Canonical(m);
    Match(
      if k > 0 then c.inPort else None, if k > 1 then c.metadata else None,
      if k > 2 then c.ethDst else None, if k > 3 then c.ethSrc else None,
      if k > 4 then c.ethType else None, if k > 5 then c.vlanVID else None,
      if k > 6 then c.ipProto else None,
      if k > 7 then c.ipv4Src else None, if k > 8 then c.ipv4Dst else None,
      if k > 9 then c.tcpSrc else None, if k > 10 then c.tcpDst else None,
      if k > 11 then c.udpSrc else None, if k > 12 then c.udpDst else None)
  }

  lemma MaskedTwice(addr: U32, bits: Bits)
    ensures Masked(Masked(addr, bits), bits) == Masked(addr, bits)
  {
    IpamRanges.MaskIsMasked(addr, bits);
  }

  lemma Masked32(addr: U32)
    ensures Masked(addr, 32) == addr
  {
    assert IpamRanges.Pow2(0) == 1;
  }

  lemma FormatPrinted(field: Byte, t: IPv4Text)
    requires t.Bare? || t.Cidr?
    ensures var x := IPv4Oxm(field, t); FormatIPv4(x.value, x.mask) == Ok(CanonText(Some(t)).value)
    ensures field < 0x80 ==> IPv4Oxm(field, t).WellFormed()
  {
    GetPut32(t.addr);
    if t.Cidr? {
      GetPut32(Masked(t.addr, t.bits));
      MaskRoundTrip(t.bits);
      MaskedTwice(t.addr, t.bits);
      Masked32(t.addr);
    }
  }

  predicate FitsMac(t: Option<MacText>) {
    t.Some? && t.value.Mac? ==> |t.value.octets| == 6
  }

  lemma MacParses(m: Match, field: Byte, octets: Octets)
    requires field == 3 || field == 4
    ensures Oxm(field, false, octets, []).WellFormed()
    ensures Apply(m, field, octets, []) ==
      if |octets| != 6 then Err(Validation)
      else if field == 3 then Ok(m.(ethDst := Some(Mac(octets)))) else Ok(m.(ethSrc := Some(Mac(octets))))
  {}

  /** Each printed field is well formed and parses into its own slot; a MAC that is
      not six octets long is printed but refused when parsed. */
  lemma StageParses(m: Match, k: nat)
    requires MatchFault(m).None? && k < 13
    ensures |Stage(m, k)| <= 1
    ensures forall i :: 0 <= i < |Stage(m, k)| ==>
      Stage(m, k)[i].WellFormed() && |MarshalOxm(Stage(m, k)[i])| <= 24
    ensures ApplyAll(Partial(m, k), Stage(m, k), Apply) ==
      if (k == 2 && !FitsMac(m.ethDst)) || (k == 3 && !FitsMac(m.ethSrc)) then Err(Validation)
      else Ok(Partial(m, k + 1))
  {
    var xs := Stage(m, k);
    if xs != [] {
      assert xs[1..] == [];
      match k
      case 0 => GetPut32(m.inPort.value);
      case 1 => GetPut64(m.metadata.value.value); GetPut64(m.metadata.value.mask);
      case 2 => MacParses(Partial(m, 2), 3, m.ethDst.value.octets);
      case 3 => MacParses(Partial(m, 3), 4, m.ethSrc.value.octets);
      case 4 => GetPut16(m.ethType.value);
      case 5 => GetPut16(m.vlanVID.value);
      case 6 =>
      case 7 => FormatPrinted(11, m.ipv4Src.value);
      case 8 => FormatPrinted(12, m.ipv4Dst.value);
      case 9 => GetPut16(m.tcpSrc.value);
      case 10 => GetPut16(m.tcpDst.value);
      case 11 => GetPut16(m.udpSrc.value);
      case _ => GetPut16(m.udpDst.value);
    }
  }

  lemma {:induction false} FieldsParse(m: Match, k: nat)
    requires MatchFault(m).None? && k <= 13
    ensures ApplyAll(Partial(m, k), FieldsFrom(m, k), Apply) ==
      if (k <= 2 && !FitsMac(m.ethDst)) || (k <= 3 && !FitsMac(m.ethSrc)) then Err(Validation)
      else Ok(Canonical(m))
    decreases 13 - k
  {
    if k < 13 {
      StageParses(m, k);
      ApplyAllAppend(Partial(m, k), Stage(m, k), FieldsFrom(m, k + 1), Apply);
      FieldsParse(m, k + 1);
    }
  }

  lemma {:induction false} FieldsSmall(m: Match, k: nat)
    requires MatchFault(m).None? && k <= 13
    ensures forall i :: 0 <= i < |FieldsFrom(m, k)| ==> FieldsFrom(m, k)[i].WellFormed()
    ensures |MarshalOxms(FieldsFrom(m, k))| <= 24 * (13 - k)
    decreases 13 - k
  {
    if k < 13 {
      StageParses(m, k);
      FieldsSmall(m, k + 1);
      var xs := Stage(m, k);
      if xs == [] {
        assert xs + FieldsFrom(m, k + 1) == FieldsFrom(m, k + 1);
      } else {
        assert (xs + FieldsFrom(m, k + 1))[1..] == FieldsFrom(m, k + 1);
      }
    }
  }

  lemma MatchSmall(m: Match)
    requires MarshalMatch(m).Ok?
    ensures |MarshalMatch(m).value| <= 320
  {
    FieldsSmall(m, 0);
  }

  /** Printing and parsing hands exactly the printed fields, in order, to the match. */
  lemma MarshalledParses(m: Match, rest: seq<Byte>)
    requires MarshalMatch(m).Ok?
    ensures MatchOf(MarshalMatch(m).value + rest) == ApplyAll(EmptyMatch, FieldsFrom(m, 0), Apply)
  {
    var xs := FieldsFrom(m, 0);
    var fields := MarshalOxms(xs);
    FieldsSmall(m, 0);
    var pad := Zeros(Padding(4 + |fields|));
    Regroup(MatchHeader(4 + |fields|) + fields, pad, rest);
    FrameParses(fields, pad + rest, EmptyMatch, Apply);
    ParseMarshalled(xs, EmptyMatch, Apply);
  }

  /** Parsing a marshalled match returns its canonical form, whatever follows it, when
      and only when its MACs are six octets long; the length field is the unpadded
      length and the whole is a multiple of eight. */
  lemma MatchRoundTrip(m: Match, rest: seq<Byte>)
    requires MarshalMatch(m).Ok?
    ensures |MarshalMatch(m).value| % 8 == 0
    ensures MatchOf(MarshalMatch(m).value + rest) ==
      if FitsMac(m.ethDst) && FitsMac(m.ethSrc) then Ok(Canonical(m)) else Err(Validation)
  {
    MarshalledParses(m, rest);
    assert Partial(m, 0) == EmptyMatch;
    FieldsParse(m, 0);
  }

  /** The prefix comes back with the same leading bits and zeros after them; a /32 comes
      back as a bare address. */
  lemma PrefixComesBack(addr: U32, bits: Bits)
    ensures var size := IpamRanges.Pow2(32 - bits); var t := CanonText(Some(Cidr(addr, bits))).value;
      if bits == 32 then t == Bare(addr)
      else t.Cidr? && t.bits == bits && t.addr / size == addr / size && t.addr % size == 0
  {
    IpamRanges.MaskExact(addr, bits);
  }

  /** Host bits are zero and a full length is not spelled out. */
  predicate Canonic(t: Option<IPv4Text>) {
    t.Some? && t.value.Cidr? ==> t.value.bits < 32 && t.value.addr % IpamRanges.Pow2(32 - t.value.bits) == 0
  }

  lemma CanonicExact(t: Option<IPv4Text>)
    ensures CanonText(t) == t <==> Canonic(t)
  {
    if t.Some? && t.value.Cidr? {
      PrefixComesBack(t.value.addr, t.value.bits);
    }
  }

  /** So the match itself comes back exactly when its MACs have six octets and its prefixes
      are written canonically. */
  lemma MatchRoundTripExact(m: Match)
    requires MarshalMatch(m).Ok?
    ensures MatchOf(MarshalMatch(m).value) == Ok(m) <==>
      FitsMac(m.ethDst) && FitsMac(m.ethSrc) && Canonic(m.ipv4Src) && Canonic(m.ipv4Dst)
  {
    MatchRoundTrip(m, []);
    CanonicExact(m.ipv4Src);
    CanonicExact(m.ipv4Dst);
    assert MarshalMatch(m).value + [] == MarshalMatch(m).value;
  }
}
