/** Big-endian integers and failure-carrying results shared by the OpenFlow codec. */
module Bytes {

  type Byte = x: int | 0 <= x < 0x100
  type U16 = x: int | 0 <= x < 0x1_0000
  type U32 = x: int | 0 <= x < 0x1_0000_0000
  type U64 = x: int | 0 <= x < 0x1_0000_0000_0000_0000

  datatype Kind = Validation | Unsupported | UnexpectedEOF | EOF
  datatype Result<+T> = Ok(value: T) | Err(kind: Kind)

  function Put16(x: U16): (s: seq<Byte>)
    ensures |s| == 2
  {
    [x / 0x100, x % 0x100]
  }

  function Get16(s: seq<Byte>): U16
    requires |s| == 2
  {
    s[0] as int * 0x100 + s[1] as int
  }

  function Put32(x: U32): (s: seq<Byte>)
    ensures |s| == 4
  {
    Put16(x / 0x1_0000) + Put16(x % 0x1_0000)
  }

  function Get32(s: seq<Byte>): U32
    requires |s| == 4
  {
    Get16(s[..2]) as int * 0x1_0000 + Get16(s[2..])
  }

  function Put64(x: U64): (s: seq<Byte>)
    ensures |s| == 8
  {
    Put32(x / 0x1_0000_0000) + Put32(x % 0x1_0000_0000)
  }

  function Get64(s: seq<Byte>): U64
    requires |s| == 8
  {
    Get32(s[..4]) as int * 0x1_0000_0000 + Get32(s[4..])
  }

  lemma GetPut16(x: U16)
    ensures Get16(Put16(x)) == x
  {}

  lemma GetPut32(x: U32)
    ensures Get32(Put32(x)) == x
  {
    var s := Put32(x);
    assert s[..2] == Put16(x / 0x1_0000) && s[2..] == Put16(x % 0x1_0000);
  }

  lemma GetPut64(x: U64)
    ensures Get64(Put64(x)) == x
  {
    var s := Put64(x);
    assert s[..4] == Put32(x / 0x1_0000_0000) && s[4..] == Put32(x % 0x1_0000_0000);
    GetPut32(x / 0x1_0000_0000);
    GetPut32(x % 0x1_0000_0000);
  }

  function Zeros(n: nat): (s: seq<Byte>)
    ensures |s| == n
  {
    seq(n, _ => 0)
  }

  /** Bytes that padTo appends to reach a multiple of eight. */
  function Padding(length: nat): (n: nat)
    ensures (length + n) % 8 == 0 && n < 8
  {
    (8 - length % 8) % 8
  }

  /** padTo(buf, 8): appends zero bytes while the length is not a multiple of eight. */
  method PadTo8(buf: seq<Byte>) returns (out: seq<Byte>)
    ensures out == buf + Zeros(Padding(|buf|))
  {
    out := buf;
    ghost var k := 0;
    while |out| % 8 != 0
      invariant k <= Padding(|buf|) && out == buf + Zeros(k)
      decreases Padding(|buf|) - k
    {
      out := out + [0];
      k := k + 1;
    }
  }

  lemma AlignedSum(a: nat, b: nat)
    requires a % 8 == 0 && b % 8 == 0
    ensures (a + b) % 8 == 0
  {}

  lemma Regroup<T>(a: seq<T>, b: seq<T>, c: seq<T>)
    ensures a + b + c == a + (b + c)
  {}

  /** Concatenation of a list of byte strings. */
  function Flatten(parts: seq<seq<Byte>>): seq<Byte> {
    if parts == [] then [] else parts[0] + Flatten(parts[1..])
  }

  lemma {:induction false} FlattenAppend(a: seq<seq<Byte>>, b: seq<seq<Byte>>)
    ensures Flatten(a + b) == Flatten(a) + Flatten(b)
  {
    if a == [] {
      assert a + b == b;
    } else {
      FlattenAppend(a[1..], b);
      assert (a + b)[0] == a[0] && (a + b)[1..] == a[1..] + b;
      Regroup(a[0], Flatten(a[1..]), Flatten(b));
    }
  }
}
