/** Which OXM fields a printed match holds, with which bytes (section 7.2.3 of the OpenFlow
    Switch Specification 1.3), and which flow modifications are printed at all. */
module OpenFlowMatchWire {
  import opened Options
  import opened Bytes
  import opened OpenFlowMasks
  import opened OpenFlowOxm
  import opened OpenFlowRecords
  import opened OpenFlowMatch
  import opened OpenFlowFlowMod
  import opened OpenFlowWire
  import opened IpamRanges
  import Framing = OpenFlowFraming

  // ----- IPv4 prefixes

  lemma OnesByteValue(k: nat)
    requires k <= 8
    ensures OnesByte(k) == 0x100 - Pow2(8 - k)
  {
    assert k in {0, 1, 2, 3, 4, 5, 6, 7, 8};
    assert Pow2(4) == 16 && Pow2(8) == 256;
  }

  lemma Big4Bytes(s: seq<Byte>)
    requires |s| == 4
    ensures Big(s) == s[0] as int * 0x100_0000 + s[1] as int * 0x1_0000 + s[2] as int * 0x100 + s[3]
  {
    Big4(s);
  }

  lemma Pow2Bytes(r: nat, j: nat)
    requires j <= 3
    ensures Pow2(r + 8 * j) == Pow2(r) * (if j == 0 then 1 else if j == 1 then 0x100 else if j == 2 then 0x1_0000 else 0x100_0000)
  {
    Pow2Split(r, 8 * j);
    Pow2Split(8, 8);
    Pow2Split(16, 8);
    assert Pow2(8) == 0x100;
  }

  /** The mask of a prefix length, as a number: its leading ones. */
  lemma MaskValue(bits: Bits)
    ensures Big(MaskBytes(bits)) == 0x1_0000_0000 - Pow2(32 - bits)
  {
    var s := MaskBytes(bits);
    Big4Bytes(s);
    if bits == 32 {
    } else {
      var j, k := bits / 8, bits % 8;
      OnesByteValue(k);
      Pow2Bytes(8 - k, 3 - j);
      assert 32 - bits == 8 - k + 8 * (3 - j);
    }
  }

  /** The bytes carry the leading bits of an address, the rest zero, and the prefix mask;
      a full-length prefix has no mask. */
  ghost predicate PrefixBytes(x: Oxm, addr: U32, bits: Bits) {
    var size := Pow2(32 - bits);
    && |x.value| == 4 && Big(x.value) / size == addr / size && Big(x.value) % size == 0
    && (x.masked <==> bits < 32)
    && if bits < 32 then |x.mask| == 4 && Big(x.mask) == 0x1_0000_0000 - size else x.mask == []
  }

  ghost predicate TextBytes(x: Oxm, t: IPv4Text) {
    match t
    case Bare(addr) => PrefixBytes(x, addr, 32)
    case Cidr(addr, bits) => PrefixBytes(x, addr, bits)
    case _ => false
  }

  lemma IPv4Printed(field: Byte, t: IPv4Text)
    requires t.Bare? || t.Cidr?
    ensures TextBytes(IPv4Oxm(field, t), t)
  {
    var bits := if t.Bare? then 32 else t.bits;
    MaskExact(t.addr, bits);
    Masked32(t.addr);
    Put32Exact(Masked(t.addr, bits), Put32(Masked(t.addr, bits)));
    MaskValue(bits);
  }

  lemma BlockStart(a: nat, b: nat, size: nat)
    requires size > 0 && a / size == b / size && a % size == 0 && b % size == 0
    ensures a == b
  {
    QuotientBounds(a, size);
    assert a == a / size * size + a % size;
    assert b == b / size * size + b % size;
  }

  lemma SamePrefixBytes(x: Oxm, y: Oxm, addr: U32, bits: Bits)
    requires x.field == y.field && PrefixBytes(x, addr, bits) && PrefixBytes(y, addr, bits)
    ensures x == y
  {
    BlockStart(Big(x.value), Big(y.value), Pow2(32 - bits));
    SameBytes(x.value, y.value);
    if bits < 32 {
      SameBytes(x.mask, y.mask);
    }
  }

  lemma SameBytes(s: seq<Byte>, t: seq<Byte>)
    requires |s| == |t| == 4 && Big(s) == Big(t)
    ensures s == t
  {
    Big4(s);
    Big4(t);
    Framing.Put32Get32(s);
    Framing.Put32Get32(t);
  }

  // ----- the fields of a match

  /** The field numbers, in the order of printing. */
  const NUMBERS: seq<Byte> := [0, 2, 3, 4, 5, 6, 10, 11, 12, 13, 14, 15, 16]

  predicate Plain(x: Oxm, n: nat, v: nat) {
    !x.masked && x.mask == [] && |x.value| == n && Big(x.value) == v
  }

  predicate MacBytes(x: Oxm, t: MacText) {
    t.Mac? && !x.masked && x.mask == [] && x.value == t.octets
  }

  /** The match asks for this very field. */
  ghost predicate Asked(m: Match, x: Oxm) {
    match x.field
    case 0 => m.inPort.Some? && Plain(x, 4, m.inPort.value)
    case 2 =>
      (&& m.metadata.Some? && x.masked && |x.value| == 8 && |x.mask| == 8
       && Big(x.value) == m.metadata.value.value && Big(x.mask) == m.metadata.value.mask)
    case 3 => m.ethDst.Some? && MacBytes(x, m.ethDst.value)
    case 4 => m.ethSrc.Some? && MacBytes(x, m.ethSrc.value)
    case 5 => m.ethType.Some? && Plain(x, 2, m.ethType.value)
    case 6 => m.vlanVID.Some? && Plain(x, 2, m.vlanVID.value)
    case 10 => m.ipProto.Some? && Plain(x, 1, m.ipProto.value)
    case 11 => m.ipv4Src.Some? && TextBytes(x, m.ipv4Src.value)
    case 12 => m.ipv4Dst.Some? && TextBytes(x, m.ipv4Dst.value)
    case 13 => m.tcpSrc.Some? && Plain(x, 2, m.tcpSrc.value)
    case 14 => m.tcpDst.Some? && Plain(x, 2, m.tcpDst.value)
    case 15 => m.udpSrc.Some? && Plain(x, 2, m.udpSrc.value)
    case 16 => m.udpDst.Some? && Plain(x, 2, m.udpDst.value)
    case _ => false
  }

  lemma Word16Exact(field: Byte, v: Option<U16>, x: Oxm)
    requires x.field == field
    ensures x in Word16(field, v) <==> v.Some? && Plain(x, 2, v.value)
  {
    if v.Some? && |x.value| == 2 {
      Put16Exact(v.value, x.value);
    }
    if v.Some? {
      Put16Exact(v.value, Put16(v.value));
    }
  }

  lemma TextExact(field: Byte, t: IPv4Text, x: Oxm)
    requires (t.Bare? || t.Cidr?) && x.field == field
    ensures x == IPv4Oxm(field, t) <==> TextBytes(x, t)
  {
    IPv4Printed(field, t);
    if TextBytes(x, t) {
      SamePrefixBytes(x, IPv4Oxm(field, t), t.addr, if t.Bare? then 32 else t.bits);
    }
  }

  lemma NumberExact(m: Match, x: Oxm)
    requires MatchFault(m).None?
    ensures x in Stage(m, 0) <==> x.field == 0 && Asked(m, x)
    ensures x in Stage(m, 1) <==> x.field == 2 && Asked(m, x)
    ensures x in Stage(m, 6) <==> x.field == 10 && Asked(m, x)
  {
    if m.inPort.Some? {
      var v := m.inPort.value;
      Put32Exact(v, Put32(v));
      if |x.value| == 4 { Put32Exact(v, x.value); }
    }
    if m.metadata.Some? {
      var v, w := m.metadata.value.value, m.metadata.value.mask;
      Put64Exact(v, Put64(v));
      Put64Exact(w, Put64(w));
      if |x.value| == 8 { Put64Exact(v, x.value); }
      if |x.mask| == 8 { Put64Exact(w, x.mask); }
    }
    if m.ipProto.Some? {
      Big1([m.ipProto.value]);
      if |x.value| == 1 {
        Big1(x.value);
        assert x.value == [x.value[0]];
      }
    }
  }

  lemma StageExact(m: Match, k: nat, x: Oxm)
    requires MatchFault(m).None? && k < 13
    ensures x in Stage(m, k) <==> x.field == NUMBERS[k] && Asked(m, x)
  {
    match k
    case 0 => NumberExact(m, x);
    case 1 => NumberExact(m, x);
    case 2 =>
    case 3 =>
    case 4 => if x.field == 5 { Word16Exact(5, m.ethType, x); }
    case 5 => if x.field == 6 { Word16Exact(6, m.vlanVID, x); }
    case 6 => NumberExact(m, x);
    case 7 => if x.field == 11 && m.ipv4Src.Some? { TextExact(11, m.ipv4Src.value, x); }
    case 8 => if x.field == 12 && m.ipv4Dst.Some? { TextExact(12, m.ipv4Dst.value, x); }
    case 9 => if x.field == 13 { Word16Exact(13, m.tcpSrc, x); }
    case 10 => if x.field == 14 { Word16Exact(14, m.tcpDst, x); }
    case 11 => if x.field == 15 { Word16Exact(15, m.udpSrc, x); }
    case _ => if x.field == 16 { Word16Exact(16, m.udpDst, x); }
  }

  lemma FieldsStep(m: Match, k: nat, x: Oxm)
    requires MatchFault(m).None? && k < 13
    ensures x in FieldsFrom(m, k) <==> x in Stage(m, k) || x in FieldsFrom(m, k + 1)
  {}

  lemma {:induction false} StageInFields(m: Match, k: nat, j: nat, x: Oxm)
    requires MatchFault(m).None? && k <= j < 13 && x in Stage(m, j)
    ensures x in FieldsFrom(m, k)
    decreases j - k
  {
    FieldsStep(m, k, x);
    if k < j {
      StageInFields(m, k + 1, j, x);
    }
  }

  lemma {:induction false} StageOf(m: Match, k: nat, x: Oxm) returns (j: nat)
    requires MatchFault(m).None? && k <= 13 && x in FieldsFrom(m, k)
    ensures k <= j < 13 && x in Stage(m, j)
    decreases 13 - k
  {
    FieldsStep(m, k, x);
    if x in FieldsFrom(m, k + 1) {
      j := StageOf(m, k + 1, x);
    } else {
      j := k;
    }
  }

  ghost predicate Ascending(xs: seq<Oxm>) {
    forall i, j :: 0 <= i < j < |xs| ==> xs[i].field < xs[j].field
  }

  lemma AscendingJoin(xs: seq<Oxm>, ys: seq<Oxm>)
    requires |xs| <= 1 && Ascending(ys)
    requires forall x, y :: x in xs && y in ys ==> x.field < y.field
    ensures Ascending(xs + ys)
  {}

  lemma StageNumber(m: Match, k: nat, x: Oxm)
    requires MatchFault(m).None? && k < 13 && x in Stage(m, k)
    ensures x.field == NUMBERS[k]
  {
    StageExact(m, k, x);
  }

  lemma {:induction false} LaterNumber(m: Match, k: nat, y: Oxm)
    requires MatchFault(m).None? && k < 13 && y in FieldsFrom(m, k)
    ensures NUMBERS[k] <= y.field
    decreases 13 - k
  {
    FieldsStep(m, k, y);
    if y in FieldsFrom(m, k + 1) {
      LaterNumber(m, k + 1, y);
    } else {
      StageNumber(m, k, y);
    }
  }

  lemma {:induction false} FieldsAscend(m: Match, k: nat)
    requires MatchFault(m).None? && k <= 13
    ensures Ascending(FieldsFrom(m, k))
    decreases 13 - k
  {
    if k < 13 {
      FieldsAscend(m, k + 1);
      StageParses(m, k);
      forall x, y | x in Stage(m, k) && y in FieldsFrom(m, k + 1) ensures x.field < y.field {
        StageNumber(m, k, x);
        LaterNumber(m, k + 1, y);
      }
      AscendingJoin(Stage(m, k), FieldsFrom(m, k + 1));
    }
  }

  lemma AskedNumber(m: Match, x: Oxm)
    requires Asked(m, x)
    ensures exists k :: 0 <= k < 13 && x.field == NUMBERS[k]
  {
    assert NUMBERS[0] == 0 && NUMBERS[1] == 2 && NUMBERS[2] == 3 && NUMBERS[3] == 4 && NUMBERS[4] == 5;
    assert NUMBERS[5] == 6 && NUMBERS[6] == 10 && NUMBERS[7] == 11 && NUMBERS[8] == 12;
    assert NUMBERS[9] == 13 && NUMBERS[10] == 14 && NUMBERS[11] == 15 && NUMBERS[12] == 16;
  }

  /** A printed match holds exactly the fields it asks for, in ascending order of their
      numbers, each with its own bytes. */
  lemma FieldsExact(m: Match, x: Oxm)
    requires MatchFault(m).None?
    ensures Ascending(FieldsFrom(m, 0))
    ensures x in FieldsFrom(m, 0) <==> Asked(m, x)
  {
    FieldsAscend(m, 0);
    if x in FieldsFrom(m, 0) {
      var j := StageOf(m, 0, x);
      StageExact(m, j, x);
    }
    if Asked(m, x) {
      AskedNumber(m, x);
      var k :| 0 <= k < 13 && x.field == NUMBERS[k];
      StageExact(m, k, x);
      StageInFields(m, 0, k, x);
    }
  }

  predicate GoodText(t: Option<IPv4Text>) {
    t.Some? ==> t.value.Bare? || t.value.Cidr?
  }

  /** Type 1 and the length without the padding, then the fields, then fewer than eight
      zeros; a match is refused exactly for a bad MAC or a text that is no IPv4 prefix. */
  lemma MatchAt(m: Match)
    ensures MarshalMatch(m).Ok? <==>
      m.ethDst != Some(BadMac) && m.ethSrc != Some(BadMac) && GoodText(m.ipv4Src) && GoodText(m.ipv4Dst)
    ensures MarshalMatch(m).Ok? ==>
      var b, fields := MarshalMatch(m).value, MarshalOxms(FieldsFrom(m, 0));
      var end := 4 + |fields|;
      && end <= |b| < end + 8 && |b| % 8 == 0 && At(b, 0, 2, 1) && At(b, 2, 2, end)
      && b[4..end] == fields && AllZero(b[end..])
  {
    if MarshalMatch(m).Ok? {
      var b, fields := MarshalMatch(m).value, MarshalOxms(FieldsFrom(m, 0));
      FieldsSmall(m, 0);
      FrameSlices(fields, Zeros(Padding(4 + |fields|)));
      Put16Exact(1, b[0..2]);
      Put16Exact(4 + |fields|, b[2..4]);
      assert b[4 + |fields|..] == Zeros(Padding(4 + |fields|));
    }
  }

  // ----- which flow modifications are printed

  /** Only an instruction without the other three contents carries its actions. */
  predicate Applies(i: Instruction) {
    i.gotoTable.None? && !i.clearActions && i.writeMetadata.None?
  }

  predicate GoodAction(a: Action) {
    a.Output? || (a.SetField? && !a.target.OtherTarget? && a.mac.Mac?)
  }

  predicate GoodActions(actions: seq<Action>) {
    forall a :: a in actions ==> GoodAction(a)
  }

  lemma ActionsAccepted(actions: seq<Action>)
    ensures ActionParts(actions).Ok? <==> GoodActions(actions)
  {
    EncodeAllOk(actions, MarshalAction);
    forall a: Action ensures MarshalAction(a).Ok? <==> GoodAction(a) {
      ActionAt(a);
    }
  }

  lemma InstructionAccepted(i: Instruction)
    ensures MarshalInstruction(i).Ok? <==> (Applies(i) ==> GoodActions(i.actions))
  {
    ActionsAccepted(i.actions);
  }

  lemma {:induction false} EncodeAllOk<A>(list: seq<A>, encode: Encoder<A>)
    ensures EncodeAll(list, encode).Ok? <==> forall a :: a in list ==> encode(a).Ok?
  {
    if list != [] {
      EncodeAllOk(list[1..], encode);
      assert list == [list[0]] + list[1..];
    }
  }

  lemma {:induction false} PrintedMembers(list: seq<Instruction>, i: Instruction)
    ensures i in Printed(list) <==> i in list && HasContent(i)
  {
    if list != [] {
      PrintedMembers(list[1..], i);
      assert list == [list[0]] + list[1..];
    }
  }

  lemma InstructionsAccepted(list: seq<Instruction>)
    ensures InstructionParts(list).Ok? <==> forall i :: i in list && Applies(i) ==> GoodActions(i.actions)
  {
    EncodeAllOk(Printed(list), MarshalInstruction);
    forall i ensures i in Printed(list) <==> i in list && HasContent(i) {
      PrintedMembers(list, i);
    }
    forall i ensures MarshalInstruction(i).Ok? <==> (Applies(i) ==> GoodActions(i.actions)) {
      InstructionAccepted(i);
    }
  }

  /** A flow modification is printed exactly for version 1.3 or 1.5, a match without a bad
      text, and instructions and actions without one. */
  lemma FlowModAccepted(version: Byte, xid: U32, command: Byte, flow: Flow)
    ensures FlowMod(version, xid, command, flow).Ok? <==>
      && (version == 4 || version == 6)
      && flow.flowMatch.ethDst != Some(BadMac) && flow.flowMatch.ethSrc != Some(BadMac)
      && GoodText(flow.flowMatch.ipv4Src) && GoodText(flow.flowMatch.ipv4Dst)
      && GoodActions(flow.actions)
      && forall i :: i in flow.instructions && Applies(i) ==> GoodActions(i.actions)
  {
    MatchAt(flow.flowMatch);
    InstructionsAccepted(AllInstructions(flow));
    var own := Instruction(None, false, None, flow.actions);
    if flow.actions == [] {
      assert AllInstructions(flow) == flow.instructions;
    } else {
      assert own in AllInstructions(flow);
    }
  }

  lemma {:induction false} PrintedAppend(list: seq<Instruction>, more: seq<Instruction>)
    ensures Printed(list + more) == Printed(list) + Printed(more)
  {
    if list == [] {
      assert list + more == more;
    } else {
      PrintedAppend(list[1..], more);
      assert (list + more)[1..] == list[1..] + more;
    }
  }

  /** The instructions are printed in order, those without content left out. */
  lemma PrintedInOrder(before: seq<Instruction>, i: Instruction, after: seq<Instruction>)
    ensures Printed(before + [i] + after) == Printed(before) + (if HasContent(i) then [i] else []) + Printed(after)
    ensures Printed([]) == []
  {
    PrintedAppend(before + [i], after);
    PrintedAppend(before, [i]);
  }

  /** The flow's own actions, if any, come last, as one more instruction. */
  lemma OwnActionsLast(flow: Flow)
    ensures Printed(AllInstructions(flow)) == Printed(flow.instructions) +
      if flow.actions == [] then [] else [Instruction(None, false, None, flow.actions)]
  {
    if flow.actions == [] {
      assert AllInstructions(flow) == flow.instructions;
    } else {
      PrintedAppend(flow.instructions, [Instruction(None, false, None, flow.actions)]);
    }
  }
}
