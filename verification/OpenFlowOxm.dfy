/** OXM type-length-value records: the framing that the match printer and parser of
    openflow_protocol.go share, independent of what the fields mean. */
module OpenFlowOxm {
  import opened Bytes

  const OXM_CLASS_BASIC: U16 := 0x8000

  /** What the parser does with one decoded field: field number, value, mask. */
  type Applier<!M> = (M, Byte, seq<Byte>, seq<Byte>) -> Result<M>

  datatype Oxm = Oxm(field: Byte, masked: bool, value: seq<Byte>, mask: seq<Byte>)
  {
    ghost predicate WellFormed() {
      && field < 0x80
      && |mask| == (if masked then |value| else 0)
      && |value| + |mask| <= 0xff
    }
  }

  /** marshalOXM; the length and the shifted field number are single bytes. */
  function MarshalOxm(x: Oxm): seq<Byte> {
    var length := |x.value| + if x.masked then |x.mask| else 0;
    Put16(OXM_CLASS_BASIC)
    + [x.field * 2 % 0x100 + (if x.masked then 1 else 0), length % 0x100]
    + x.value + (if x.masked then x.mask else [])
  }

  function MarshalOxms(xs: seq<Oxm>): seq<Byte> {
    if xs == [] then [] else MarshalOxm(xs[0]) + MarshalOxms(xs[1..])
  }

  /** The body of the parsing loop on the bytes that are left before the match length:
      the updated match and how many bytes were consumed. */
  function ParseOne<M>(region: seq<Byte>, m: M, apply: Applier<M>): (r: Result<(M, nat)>)
    requires region != []
    ensures r.Ok? ==> 4 <= r.value.1 <= |region|
  {
    if |region| < 4 then Err(Validation)
    else
      var size := region[3] as int;
      if Get16(region[..2]) != OXM_CLASS_BASIC then Err(Unsupported)
      else if 4 + size > |region| then Err(Validation)
      else
        var raw := region[4..4 + size];
        var hasMask := region[2] % 2 == 1;
        if hasMask && size % 2 != 0 then Err(Validation)
        else
          var value := if hasMask then raw[..size / 2] else raw;
          var mask := if hasMask then raw[size / 2..] else [];
          match apply(m, region[2] / 2, value, mask)
          case Err(kind) => Err(kind)
          case Ok(next) => Ok((next, 4 + size))
  }

  function ParseOxms<M>(region: seq<Byte>, m: M, apply: Applier<M>): Result<M>
    decreases |region|
  {
    if region == [] then Ok(m)
    else match ParseOne(region, m, apply)
      case Err(kind) => Err(kind)
      case Ok((next, used)) => ParseOxms(region[used..], next, apply)
  }

  function ApplyAll<M>(m: M, xs: seq<Oxm>, apply: Applier<M>): Result<M>
    decreases |xs|
  {
    if xs == [] then Ok(m)
    else match apply(m, xs[0].field, xs[0].value, xs[0].mask)
      case Err(kind) => Err(kind)
      case Ok(next) => ApplyAll(next, xs[1..], apply)
  }

  lemma ParseOneMarshalled<M>(x: Oxm, rest: seq<Byte>, m: M, apply: Applier<M>)
    requires x.WellFormed()
    ensures ParseOne(MarshalOxm(x) + rest, m, apply) ==
      match apply(m, x.field, x.value, x.mask)
      case Err(kind) => Err(kind)
      case Ok(next) => Ok((next, |MarshalOxm(x)|))
  {
    var region := MarshalOxm(x) + rest;
    var size := |x.value| + |x.mask|;
    assert region[..2] == Put16(OXM_CLASS_BASIC);
    assert region[3] == size;
    assert region[2] / 2 == x.field && (region[2] % 2 == 1 <==> x.masked);
    assert region[4..4 + size] == x.value + x.mask;
    if x.masked {
      assert (x.value + x.mask)[..size / 2] == x.value && (x.value + x.mask)[size / 2..] == x.mask;
    } else {
      assert x.value + x.mask == x.value;
    }
  }

  /** The parser reads any list of well-formed fields back one by one. */
  lemma {:induction false} ParseMarshalled<M>(xs: seq<Oxm>, m: M, apply: Applier<M>)
    requires forall i :: 0 <= i < |xs| ==> xs[i].WellFormed()
    ensures ParseOxms(MarshalOxms(xs), m, apply) == ApplyAll(m, xs, apply)
    decreases |xs|
  {
    if xs != [] {
      var x, rest := xs[0], MarshalOxms(xs[1..]);
      ParseOneMarshalled(x, rest, m, apply);
      assert (MarshalOxm(x) + rest)[|MarshalOxm(x)|..] == rest;
      match apply(m, x.field, x.value, x.mask)
      case Err(_) =>
      case Ok(next) => ParseMarshalled(xs[1..], next, apply);
    }
  }

  lemma {:induction false} ApplyAllAppend<M>(m: M, xs: seq<Oxm>, ys: seq<Oxm>, apply: Applier<M>)
    ensures ApplyAll(m, xs + ys, apply) ==
      match ApplyAll(m, xs, apply) case Err(kind) => Err(kind) case Ok(next) => ApplyAll(next, ys, apply)
    decreases |xs|
  {
    if xs == [] {
      assert xs + ys == ys;
    } else {
      assert (xs + ys)[1..] == xs[1..] + ys;
      match apply(m, xs[0].field, xs[0].value, xs[0].mask)
      case Err(_) =>
      case Ok(next) => ApplyAllAppend(next, xs[1..], ys, apply);
    }
  }

  // ----- the match that encloses the fields

  const MATCH_OXM: U16 := 1

  /** Match type and 16-bit length. */
  function MatchHeader(length: nat): (s: seq<Byte>)
    ensures |s| == 4
  {
    Put16(MATCH_OXM) + Put16(length % 0x1_0000)
  }

  function FrameOf<M>(data: seq<Byte>, empty: M, apply: Applier<M>): Result<M> {
    if |data| < 4 then Err(Validation)
    else if Get16(data[..2]) != MATCH_OXM then Err(Unsupported)
    else
      var length := Get16(data[2..4]);
      if length < 4 || length > |data| then Err(Validation)
      else ParseOxms(data[4..length], empty, apply)
  }

  /** ParseOpenFlowMatch: the loop that advances `offset`. */
  method ParseMatch<M>(data: seq<Byte>, empty: M, apply: Applier<M>) returns (r: Result<M>)
    ensures r == FrameOf(data, empty, apply)
  {
    if |data| < 4 { return Err(Validation); }
    if Get16(data[..2]) != MATCH_OXM { return Err(Unsupported); }
    var length := Get16(data[2..4]);
    if length < 4 || length > |data| { return Err(Validation); }
    var m, offset := empty, 4;
    while offset < length
      invariant 4 <= offset <= length
      invariant FrameOf(data, empty, apply) == ParseOxms(data[offset..length], m, apply)
    {
      var step := ParseOne(data[offset..length], m, apply);
      if step.Err? { return Err(step.kind); }
      assert data[offset..length][step.value.1..] == data[offset + step.value.1..length];
      m, offset := step.value.0, offset + step.value.1;
    }
    return Ok(m);
  }

  lemma FrameSlices(fields: seq<Byte>, tail: seq<Byte>)
    requires 4 + |fields| <= 0xffff
    ensures var data := MatchHeader(4 + |fields|) + fields + tail;
      && data[..2] == Put16(MATCH_OXM) && data[2..4] == Put16(4 + |fields|)
      && data[4..4 + |fields|] == fields
  {}

  /** Whatever follows the announced length is ignored. */
  lemma FrameParses<M>(fields: seq<Byte>, tail: seq<Byte>, empty: M, apply: Applier<M>)
    requires 4 + |fields| <= 0xffff
    ensures FrameOf(MatchHeader(4 + |fields|) + fields + tail, empty, apply) == ParseOxms(fields, empty, apply)
  {
    FrameSlices(fields, tail);
    GetPut16(MATCH_OXM);
    GetPut16(4 + |fields|);
  }
}
