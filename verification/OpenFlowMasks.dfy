/** IPv4 prefix masks as openflow_protocol.go builds and reads them. */
module OpenFlowMasks {
  import opened Bytes
  import IpamRanges

  type Bits = IpamRanges.Bits

  /** A byte whose k leading bits are set. */
  function OnesByte(k: nat): Byte
    requires k <= 8
  {
    match k
    case 0 => 0x00 case 1 => 0x80 case 2 => 0xc0 case 3 => 0xe0 case 4 => 0xf0
    case 5 => 0xf8 case 6 => 0xfc case 7 => 0xfe case _ => 0xff
  }

  function Bit(k: nat): Byte
    requires k < 8
  {
    match k
    case 0 => 0x01 case 1 => 0x02 case 2 => 0x04 case 3 => 0x08
    case 4 => 0x10 case 5 => 0x20 case 6 => 0x40 case _ => 0x80
  }

  predicate TestBit(b: Byte, k: nat)
    requires k < 8
  {
    b / Bit(k) % 2 == 1
  }

  /** b | 1<<k. */
  function SetBit(b: Byte, k: nat): Byte
    requires k < 8
  {
    if TestBit(b, k) then b else (b + Bit(k)) % 0x100
  }

  lemma OnesByteBits(k: nat, i: nat)
    requires k <= 8 && i < 8
    ensures TestBit(OnesByte(k), 7 - i) <==> i < k
  {
    assert i in {0, 1, 2, 3, 4, 5, 6, 7};
    assert k in {0, 1, 2, 3, 4, 5, 6, 7, 8};
  }

  lemma NextOne(k: nat)
    requires k < 8
    ensures SetBit(OnesByte(k), 7 - k) == OnesByte(k + 1)
  {
    assert k in {0, 1, 2, 3, 4, 5, 6, 7};
  }

  function Clamp(x: int): (k: nat)
    ensures k <= 8
  {
    if x < 0 then 0 else if x > 8 then 8 else x
  }

  /** The four mask bytes of a prefix length. */
  function MaskBytes(bits: Bits): (s: seq<Byte>)
    ensures |s| == 4
  {
    seq(4, j requires 0 <= j < 4 => OnesByte(Clamp(bits - 8 * j)))
  }

  /** The mask loop of ipv4OXM. */
  method BuildMask(bits: Bits) returns (mask: seq<Byte>)
    ensures mask == MaskBytes(bits)
  {
    mask := [0, 0, 0, 0];
    for i := 0 to bits
      invariant |mask| == 4
      invariant forall j :: 0 <= j < 4 ==> mask[j] == OnesByte(Clamp(i - 8 * j))
    {
      NextOne(i % 8);
      mask := mask[i / 8 := SetBit(mask[i / 8], 7 - i % 8)];
    }
  }

  /** The i-th bit from the left. */
  predicate MaskBit(mask: seq<Byte>, i: nat)
    requires |mask| == 4 && i < 32
  {
    TestBit(mask[i / 8], 7 - i % 8)
  }

  function LeadingOnesFrom(mask: seq<Byte>, i: nat): (n: nat)
    requires |mask| == 4 && i <= 32
    ensures i <= n <= 32
    decreases 32 - i
  {
    if i == 32 || !MaskBit(mask, i) then i else LeadingOnesFrom(mask, i + 1)
  }

  /** The nested counting loops of formatParsedIPv4. */
  method CountLeadingOnes(mask: seq<Byte>) returns (bits: nat)
    requires |mask| == 4
    ensures bits == LeadingOnesFrom(mask, 0)
  {
    bits := 0;
    for j := 0 to 4
      invariant bits == 8 * j
      invariant forall k :: 0 <= k < bits ==> MaskBit(mask, k)
    {
      var i := 7;
      while i >= 0
        invariant -1 <= i <= 7 && bits == 8 * j + 7 - i
        invariant forall k :: 0 <= k < bits ==> MaskBit(mask, k)
      {
        BitIndex(mask, j, 7 - i);
        if !TestBit(mask[j], i) {
          LeadingOnesAre(mask, 0, bits);
          return;
        }
        bits := bits + 1;
        i := i - 1;
      }
    }
    LeadingOnesAre(mask, 0, bits);
  }

  lemma {:induction false} LeadingOnesAre(mask: seq<Byte>, i: nat, bits: nat)
    requires |mask| == 4 && i <= bits <= 32
    requires forall k :: i <= k < bits ==> MaskBit(mask, k)
    requires bits < 32 ==> !MaskBit(mask, bits)
    ensures LeadingOnesFrom(mask, i) == bits
    decreases bits - i
  {
    if i < bits {
      LeadingOnesAre(mask, i + 1, bits);
    }
  }

  lemma BitIndex(mask: seq<Byte>, j: nat, i: nat)
    requires |mask| == 4 && j < 4 && i < 8
    ensures MaskBit(mask, 8 * j + i) == TestBit(mask[j], 7 - i)
  {
    assert (8 * j + i) / 8 == j && (8 * j + i) % 8 == i;
  }

  lemma MaskBytesBit(bits: Bits, i: nat)
    requires i < 32
    ensures MaskBit(MaskBytes(bits), i) <==> i < bits
  {
    var j := i / 8;
    OnesByteBits(Clamp(bits - 8 * j), i % 8);
    assert MaskBytes(bits)[j] == OnesByte(Clamp(bits - 8 * j));
  }

  /** The prefix-mask builder and the leading-ones counter are inverse. */
  lemma MaskRoundTrip(bits: Bits)
    ensures LeadingOnesFrom(MaskBytes(bits), 0) == bits
  {
    forall i: nat | i < 32 ensures MaskBit(MaskBytes(bits), i) <==> i < bits {
      MaskBytesBit(bits, i);
    }
    LeadingOnesAre(MaskBytes(bits), 0, bits);
  }
}
