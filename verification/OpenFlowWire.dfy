/** What stands at which byte of an OpenFlow message (sections 7.1, 7.2 and 7.3.4.1 of the
    OpenFlow Switch Specification 1.3), read as big-endian numbers. */
module OpenFlowWire {
  import opened Options
  import opened Bytes
  import opened OpenFlowMasks
  import opened OpenFlowOxm
  import opened OpenFlowRecords
  import opened OpenFlowMatch
  import opened OpenFlowFlowMod
  import opened IpamRanges
  import Framing = OpenFlowFraming

  /** The number a byte string spells, most significant byte first. */
  function Big(s: seq<Byte>): nat {
    if s == [] then 0 else Big(s[..|s| - 1]) * 0x100 + s[|s| - 1]
  }

  /** The n bytes at an offset spell x. */
  predicate At(s: seq<Byte>, offset: nat, n: nat, x: nat) {
    offset + n <= |s| && Big(s[offset..offset + n]) == x
  }

  lemma Big1(s: seq<Byte>)
    requires |s| == 1
    ensures Big(s) == s[0]
  {
    assert s[..0] == [];
  }

  lemma Big2(s: seq<Byte>)
    requires |s| == 2
    ensures Big(s) == Get16(s)
  {
    Big1(s[..1]);
  }

  lemma {:induction false} BigAppend(a: seq<Byte>, b: seq<Byte>, shift: nat)
    requires |b| == 2 && shift == 0x1_0000
    ensures Big(a + b) == Big(a) * shift + Big(b)
  {
    var s := a + b;
    assert s[..|s| - 1] == a + [b[0]];
    assert (a + [b[0]])[..|a|] == a;
    Big2(b);
  }

  lemma Big4(s: seq<Byte>)
    requires |s| == 4
    ensures Big(s) == Get32(s)
  {
    assert s == s[..2] + s[2..];
    BigAppend(s[..2], s[2..], 0x1_0000);
    Big2(s[..2]);
    Big2(s[2..]);
  }

  lemma Big8(s: seq<Byte>)
    requires |s| == 8
    ensures Big(s) == Get64(s)
  {
    var hi, lo := s[..4], s[4..];
    assert s == (hi + lo[..2]) + lo[2..];
    BigAppend(hi + lo[..2], lo[2..], 0x1_0000);
    BigAppend(hi, lo[..2], 0x1_0000);
    Big4(hi);
    Big2(lo[..2]);
    Big2(lo[2..]);
  }

  /** A number printed big-endian is the one the bytes spell, and the only such bytes. */
  lemma Put16Exact(x: U16, s: seq<Byte>)
    requires |s| == 2
    ensures s == Put16(x) <==> Big(s) == x
  {
    Big2(s);
    GetPut16(x);
  }

  lemma Put32Exact(x: U32, s: seq<Byte>)
    requires |s| == 4
    ensures s == Put32(x) <==> Big(s) == x
  {
    Big4(s);
    GetPut32(x);
    Framing.Put32Get32(s);
  }

  lemma Put64Exact(x: U64, s: seq<Byte>)
    requires |s| == 8
    ensures s == Put64(x) <==> Big(s) == x
  {
    Big8(s);
    GetPut64(x);
    var high, low := Get32(s[..4]), Get32(s[4..]);
    assert Get64(s) / 0x1_0000_0000 == high && Get64(s) % 0x1_0000_0000 == low;
    Framing.Put32Get32(s[..4]);
    Framing.Put32Get32(s[4..]);
    assert s == s[..4] + s[4..];
  }

  // ----- header

  /** A message is printed exactly when its version is 1.3 or 1.5 and it fits 16 bits. */
  lemma HeaderAt(msg: Framing.Message)
    ensures Framing.Marshal(msg).Ok? <==> (msg.version == 4 || msg.version == 6) && 8 + |msg.body| <= 0xffff
    ensures Framing.Marshal(msg).Ok? ==> var wire := Framing.Marshal(msg).value;
      && |wire| == 8 + |msg.body| && wire[8..] == msg.body
      && wire[0] == msg.version && wire[1] == msg.kind && At(wire, 2, 2, |wire|) && At(wire, 4, 4, msg.xid)
  {
    if Framing.Marshal(msg).Ok? {
      var wire := Framing.Marshal(msg).value;
      assert wire[2..4] == Put16(8 + |msg.body|);
      assert wire[4..8] == Put32(msg.xid);
      Put16Exact(8 + |msg.body|, wire[2..4]);
      Put32Exact(msg.xid, wire[4..8]);
    }
  }

  // ----- flow modification

  ghost predicate HeadFields(h: seq<Byte>, version: Byte, command: Byte, flow: Flow) {
    && |h| == 40
    && At(h, 0, 8, flow.cookie) && At(h, 8, 8, flow.cookieMask) && h[16] == flow.tableID && h[17] == command
    && At(h, 18, 2, flow.idleTimeout) && At(h, 20, 2, flow.hardTimeout) && At(h, 22, 2, flow.priority)
    && At(h, 24, 4, 0xffff_ffff) && At(h, 28, 4, 0xffff_ffff) && At(h, 32, 4, 0xffff_ffff)
    && At(h, 36, 2, 0) && At(h, 38, 2, if version == 6 then flow.importance else 0)
  }

  lemma HeadNumbers(version: Byte, command: Byte, flow: Flow)
    ensures HeadFields(FlowModHead(version, command, flow), version, command, flow)
  {
    var h := FlowModHead(version, command, flow);
    Put64Exact(flow.cookie, h[0..8]);
    Put64Exact(flow.cookieMask, h[8..16]);
    Put16Exact(flow.idleTimeout, h[18..20]);
    Put16Exact(flow.hardTimeout, h[20..22]);
    Put16Exact(flow.priority, h[22..24]);
    Put32Exact(0xffff_ffff, h[24..28]);
    Put32Exact(0xffff_ffff, h[28..32]);
    Put32Exact(0xffff_ffff, h[32..36]);
    Put16Exact(0, h[36..38]);
    Put16Exact(if version == 6 then flow.importance else 0, h[38..40]);
  }

  lemma SliceOfSlice<T>(s: seq<T>, a: nat, b: nat, c: nat, d: nat)
    requires a <= b <= |s| && c <= d <= b - a
    ensures s[a..b][c..d] == s[a + c..a + d]
  {
    forall k | 0 <= k < d - c ensures s[a..b][c..d][k] == s[a + c..a + d][k] {
      assert s[a..b][c..d][k] == s[a..b][c + k] == s[a + (c + k)];
    }
  }

  lemma Shifted(wire: seq<Byte>, part: seq<Byte>, start: nat, offset: nat, n: nat, x: nat)
    requires start + |part| <= |wire| && wire[start..start + |part|] == part && At(part, offset, n, x)
    ensures At(wire, start + offset, n, x)
  {
    SliceOfSlice(wire, start, start + |part|, offset, offset + n);
  }

  /** Type 14, then every field of the flow at its own place. */
  ghost predicate FlowModFields(wire: seq<Byte>, version: Byte, xid: U32, command: Byte, flow: Flow) {
    && |wire| >= 48 && wire[0] == version && wire[1] == 14 && At(wire, 2, 2, |wire|) && At(wire, 4, 4, xid)
    && At(wire, 8, 8, flow.cookie) && At(wire, 16, 8, flow.cookieMask) && wire[24] == flow.tableID && wire[25] == command
    && At(wire, 26, 2, flow.idleTimeout) && At(wire, 28, 2, flow.hardTimeout) && At(wire, 30, 2, flow.priority)
    && At(wire, 32, 4, 0xffff_ffff) && At(wire, 36, 4, 0xffff_ffff) && At(wire, 40, 4, 0xffff_ffff)
    && At(wire, 44, 2, 0) && At(wire, 46, 2, if version == 6 then flow.importance else 0)
  }

  lemma HeadOnWire(wire: seq<Byte>, version: Byte, xid: U32, command: Byte, flow: Flow)
    requires |wire| >= 48 && wire[0] == version && wire[1] == 14 && At(wire, 2, 2, |wire|) && At(wire, 4, 4, xid)
    requires HeadFields(wire[8..48], version, command, flow)
    ensures FlowModFields(wire, version, xid, command, flow)
  {
    var h := wire[8..48];
    Shifted(wire, h, 8, 0, 8, flow.cookie);
    Shifted(wire, h, 8, 8, 8, flow.cookieMask);
    Shifted(wire, h, 8, 18, 2, flow.idleTimeout);
    Shifted(wire, h, 8, 20, 2, flow.hardTimeout);
    Shifted(wire, h, 8, 22, 2, flow.priority);
    Shifted(wire, h, 8, 24, 4, 0xffff_ffff);
    Shifted(wire, h, 8, 28, 4, 0xffff_ffff);
    Shifted(wire, h, 8, 32, 4, 0xffff_ffff);
    Shifted(wire, h, 8, 36, 2, 0);
    Shifted(wire, h, 8, 38, 2, if version == 6 then flow.importance else 0);
  }

  lemma FlowModBody(version: Byte, xid: U32, command: Byte, flow: Flow)
    requires FlowMod(version, xid, command, flow).Ok?
    ensures var msg := FlowMod(version, xid, command, flow).value;
      && msg.version == version && msg.kind == 14 && msg.xid == xid
      && |msg.body| >= 40 && HeadFields(msg.body[..40], version, command, flow)
  {
    FlowModLayout(version, xid, command, flow);
    HeadNumbers(version, command, flow);
    var msg := FlowMod(version, xid, command, flow).value;
    assert msg.body[..40] == FlowModHead(version, command, flow);
  }

  lemma FlowModAt(version: Byte, xid: U32, command: Byte, flow: Flow)
    requires FlowMod(version, xid, command, flow).Ok?
    requires Framing.Marshal(FlowMod(version, xid, command, flow).value).Ok?
    ensures FlowModFields(Framing.Marshal(FlowMod(version, xid, command, flow).value).value, version, xid, command, flow)
  {
    var msg := FlowMod(version, xid, command, flow).value;
    FlowModBody(version, xid, command, flow);
    MessageWithHead(msg, version, xid, command, flow);
  }

  lemma MessageWithHead(msg: Framing.Message, version: Byte, xid: U32, command: Byte, flow: Flow)
    requires Framing.Marshal(msg).Ok?
    requires msg.version == version && msg.kind == 14 && msg.xid == xid
    requires |msg.body| >= 40 && HeadFields(msg.body[..40], version, command, flow)
    ensures FlowModFields(Framing.Marshal(msg).value, version, xid, command, flow)
  {
    var wire := Framing.Marshal(msg).value;
    HeaderAt(msg);
    assert wire[8..48] == wire[8..][..40];
    HeadOnWire(wire, version, xid, command, flow);
  }

  // ----- instructions and actions

  lemma RecordAt(kind: U16, length: U16, payload: seq<Byte>)
    ensures var p := Record(kind, length, payload);
      At(p, 0, 2, kind) && At(p, 2, 2, length) && p[4..] == payload
  {
    var p := Record(kind, length, payload);
    assert p[0..2] == Put16(kind) && p[2..4] == Put16(length) && p[4..] == payload;
    Put16Exact(kind, p[0..2]);
    Put16Exact(length, p[2..4]);
  }

  predicate AllZero(s: seq<Byte>) {
    forall k :: 0 <= k < |s| ==> s[k] == 0
  }

  /** Go-to-table is type 1, write-metadata 2, apply-actions 4 and clear-actions 5. */
  ghost predicate InstructionFields(p: seq<Byte>, i: Instruction) {
    && At(p, 2, 2, |p|)
    && if i.gotoTable.Some? then |p| == 8 && At(p, 0, 2, 1) && p[4] == i.gotoTable.value && AllZero(p[5..])
       else if i.clearActions then |p| == 8 && At(p, 0, 2, 5) && AllZero(p[4..])
       else if i.writeMetadata.Some? then
         (&& |p| == 24 && At(p, 0, 2, 2) && AllZero(p[4..8])
          && At(p, 8, 8, i.writeMetadata.value.value) && At(p, 16, 8, i.writeMetadata.value.mask))
       else |p| >= 8 && At(p, 0, 2, 4) && AllZero(p[4..8])
  }

  lemma MetadataAt(value: U64, mask: U64)
    ensures var p := Record(2, 24, Zeros(4) + Put64(value) + Put64(mask));
      At(p, 8, 8, value) && At(p, 16, 8, mask) && AllZero(p[4..8])
  {
    var p := Record(2, 24, Zeros(4) + Put64(value) + Put64(mask));
    assert p[8..16] == Put64(value) && p[16..24] == Put64(mask);
    Put64Exact(value, p[8..16]);
    Put64Exact(mask, p[16..24]);
  }

  lemma InstructionAt(i: Instruction)
    requires HasContent(i) && MarshalInstruction(i).Ok? && |MarshalInstruction(i).value| <= 0xffff
    ensures InstructionFields(MarshalInstruction(i).value, i)
  {
    if i.gotoTable.Some? {
      RecordAt(1, 8, [i.gotoTable.value] + Zeros(3));
    } else if i.clearActions {
      RecordAt(5, 8, Zeros(4));
    } else if i.writeMetadata.Some? {
      RecordAt(2, 24, Zeros(4) + Put64(i.writeMetadata.value.value) + Put64(i.writeMetadata.value.mask));
      MetadataAt(i.writeMetadata.value.value, i.writeMetadata.value.mask);
    } else {
      var body := Flatten(ActionParts(i.actions).value);
      RecordAt(4, 8 + |body|, Zeros(4) + body);
    }
  }

  /** Output is type 0 with the port and no controller limit; set-field is type 25 around one
      padded field, 4 for the source MAC and 3 for the destination. */
  ghost predicate ActionFields(p: seq<Byte>, a: Action) {
    && At(p, 2, 2, |p|) && |p| % 8 == 0
    && match a
       case Output(port) =>
         |p| == 16 && At(p, 0, 2, 0) && At(p, 4, 4, port) && At(p, 8, 2, 0xffff) && AllZero(p[10..])
       case SetField(target, mac) => mac.Mac? && FieldAction(p, if target.EthSrc? then 4 else 3, mac.octets)
       case OtherAction => false
  }

  predicate FieldAction(p: seq<Byte>, field: Byte, octets: seq<Byte>) {
    var end := 8 + |octets|;
    && end <= |p| < end + 8
    && At(p, 0, 2, 25) && At(p, 4, 2, 0x8000) && p[6] == 2 * field && p[7] == |octets|
    && p[8..end] == octets && AllZero(p[end..])
  }

  lemma OutputAt(port: U32)
    ensures ActionFields(MarshalAction(Output(port)).value, Output(port))
  {
    var payload := Put32(port) + Put16(0xffff) + Zeros(6);
    RecordAt(0, 16, payload);
    var p := Record(0, 16, payload);
    assert p[4..8] == Put32(port) && p[8..10] == Put16(0xffff);
    Put32Exact(port, p[4..8]);
    Put16Exact(0xffff, p[8..10]);
  }

  /** A printed field: class, field number with the mask bit, payload length, payload. */
  lemma OxmAt(x: Oxm)
    requires x.WellFormed()
    ensures var b := MarshalOxm(x);
      && |b| == 4 + |x.value| + |x.mask| && At(b, 0, 2, 0x8000)
      && b[2] == 2 * x.field + (if x.masked then 1 else 0) && b[3] == |x.value| + |x.mask|
      && b[4..4 + |x.value|] == x.value && b[4 + |x.value|..] == x.mask
  {
    var b := MarshalOxm(x);
    assert b[0..2] == Put16(0x8000);
    Put16Exact(0x8000, b[0..2]);
  }

  lemma PaddedField(x: seq<Byte>, length: U16, field: Byte, octets: seq<Byte>)
    requires |octets| <= 20 && field < 0x80 && |x| == 4 + |octets| && 8 + |octets| <= length < 16 + |octets|
    requires At(x, 0, 2, 0x8000) && x[2] == 2 * field && x[3] == |octets| && x[4..] == octets
    ensures var p := Record(25, length, x + Zeros(length - 4 - |x|));
      FieldAction(p, field, octets) && At(p, 2, 2, length) && |p| == length
  {
    var pad := Zeros(length - 4 - |x|);
    var p := Record(25, length, x + pad);
    RecordAt(25, length, x + pad);
    assert p[4..6] == p[4..][..2] == x[0..2];
    assert p[8..8 + |octets|] == p[4..][4..4 + |octets|] == x[4..];
    assert p[8 + |octets|..] == pad;
  }

  lemma SetFieldAt(field: Byte, octets: Octets)
    requires field == 3 || field == 4
    ensures var x := MarshalOxm(Oxm(field, false, octets, []));
      var length := Align8(4 + |x|);
      var p := Record(25, length, x + Zeros(length - 4 - |x|));
      FieldAction(p, field, octets) && At(p, 2, 2, |p|) && |p| % 8 == 0
  {
    var x := MarshalOxm(Oxm(field, false, octets, []));
    OxmAt(Oxm(field, false, octets, []));
    assert x[4..] == x[4..4 + |octets|];
    PaddedField(x, Align8(4 + |x|), field, octets);
  }

  lemma ActionAt(a: Action)
    ensures MarshalAction(a).Ok? <==>
      match a case Output(_) => true case SetField(target, mac) => !target.OtherTarget? && mac.Mac? case OtherAction => false
    ensures MarshalAction(a).Ok? ==> ActionFields(MarshalAction(a).value, a)
  {
    match a
    case Output(port) => OutputAt(port);
    case SetField(target, mac) =>
      if !target.OtherTarget? && mac.Mac? {
        SetFieldAt(if target.EthSrc? then 4 else 3, mac.octets);
      }
    case OtherAction =>
  }
}
