/** Flow modification messages of openflow_protocol.go: instruction and action records
    with 16-bit length fields (sections 7.2.4 and 7.2.5 of the OpenFlow Switch
    Specification 1.3). */
module OpenFlowFlowMod {
  import opened Options
  import opened Bytes
  import opened OpenFlowOxm
  import opened OpenFlowRecords
  import opened OpenFlowMatch
  import Framing = OpenFlowFraming

  const TYPE_FLOW_MOD: Byte := 14

  datatype Target = EthSrc | EthDst | OtherTarget
  datatype Action = Output(port: U32) | SetField(target: Target, mac: MacText) | OtherAction

  datatype Instruction = Instruction(
    gotoTable: Option<Byte>, clearActions: bool, writeMetadata: Option<Metadata>, actions: seq<Action>)

  datatype Flow = Flow(
    cookie: U64, cookieMask: U64, tableID: Byte, priority: U16, idleTimeout: U16, hardTimeout: U16,
    importance: U16, flowMatch: Match, instructions: seq<Instruction>, actions: seq<Action>)

  // ----- printing

  function SetFieldOxm(target: Target, mac: MacText): Result<seq<Byte>> {
    match (target, mac)
    case (OtherTarget, _) => Err(Unsupported)
    case (_, BadMac) => Err(Validation)
    case (EthSrc, Mac(octets)) => Ok(MarshalOxm(Oxm(4, false, octets, [])))
    case (EthDst, Mac(octets)) => Ok(MarshalOxm(Oxm(3, false, octets, [])))
  }

  /** alignOpenFlowLength(length, 8). */
  function Align8(length: nat): nat {
    if length % 8 == 0 then length else length + 8 - length % 8
  }

  function MarshalAction(a: Action): Result<seq<Byte>> {
    match a
    case Output(port) => Ok(Record(0, 16, Put32(port) + Put16(0xffff) + Zeros(6)))
    case SetField(target, mac) =>
      (match SetFieldOxm(target, mac)
       case Err(kind) => Err(kind)
       case Ok(field) =>
         var length := Align8(4 + |field|);
         Ok(Record(25, length, field + Zeros(length - 4 - |field|))))
    case OtherAction => Err(Unsupported)
  }

  /** The encoded actions, one byte string each. */
  function ActionParts(actions: seq<Action>): Result<seq<seq<Byte>>> {
    EncodeAll(actions, MarshalAction)
  }

  function MarshalInstruction(i: Instruction): Result<seq<Byte>> {
    if i.gotoTable.Some? then Ok(Record(1, 8, [i.gotoTable.value] + Zeros(3)))
    else if i.clearActions then Ok(Record(5, 8, Zeros(4)))
    else if i.writeMetadata.Some? then
      Ok(Record(2, 24, Zeros(4) + Put64(i.writeMetadata.value.value) + Put64(i.writeMetadata.value.mask)))
    else if i.actions == [] then Ok([])
    else match ActionParts(i.actions)
      case Err(kind) => Err(kind)
      case Ok(parts) => Ok(ApplyRecord(Flatten(parts)))
  }

  /** The apply-actions instruction around its encoded actions. */
  function ApplyRecord(body: seq<Byte>): (s: seq<Byte>)
    ensures |s| == 8 + |body| && s[8..] == body
  {
    Record(4, 8 + |body|, Zeros(4) + body)
  }

  /** An instruction without content leaves no trace. */
  predicate HasContent(i: Instruction) {
    i.gotoTable.Some? || i.clearActions || i.writeMetadata.Some? || i.actions != []
  }

  function Printed(list: seq<Instruction>): (out: seq<Instruction>)
    ensures forall k :: 0 <= k < |out| ==> HasContent(out[k])
  {
    if list == [] then []
    else (if HasContent(list[0]) then [list[0]] else []) + Printed(list[1..])
  }

  /** The encoded instructions, one byte string each. */
  function InstructionParts(list: seq<Instruction>): Result<seq<seq<Byte>>> {
    EncodeAll(Printed(list), MarshalInstruction)
  }

  /** The flow's own actions become a trailing apply-actions instruction. */
  function AllInstructions(flow: Flow): seq<Instruction> {
    flow.instructions + if flow.actions == [] then [] else [Instruction(None, false, None, flow.actions)]
  }

  /** marshalOpenFlowActions: the loop that appends to a buffer. */
  method MarshalActions(actions: seq<Action>) returns (r: Result<seq<Byte>>)
    ensures r == match ActionParts(actions) case Err(kind) => Err(kind) case Ok(parts) => Ok(Flatten(parts))
  {
    var out := [];
    ghost var done: seq<seq<Byte>> := [];
    EncodingStart(actions, MarshalAction);
    for k := 0 to |actions|
      invariant out == Flatten(done) && Encoding(actions, MarshalAction, k, done)
    {
      EncodingStep(actions, MarshalAction, k, done);
      var part := MarshalAction(actions[k]);
      if part.Err? {
        return Err(part.kind);
      }
      out := out + part.value;
      done := done + [part.value];
    }
    EncodingEnd(actions, MarshalAction, done);
    return Ok(out);
  }

  predicate Aligned(s: seq<Byte>) { |s| % 8 == 0 }

  lemma AppendAligned(a: seq<Byte>, b: seq<Byte>)
    requires Aligned(a) && Aligned(b)
    ensures Aligned(a + b)
  {
    AlignedSum(|a|, |b|);
  }

  lemma NoPadding(out: seq<Byte>, body: seq<Byte>)
    requires Aligned(out) && Aligned(body)
    ensures var next := out + ApplyRecord(body); next + Zeros(Padding(|next|)) == next
  {
    AlignedSum(8, |body|);
    AppendAligned(out, ApplyRecord(body));
  }

  /** The apply-actions case; the padding after it never adds a byte. */
  method AppendApplyActions(out: seq<Byte>, actions: seq<Action>) returns (r: Result<seq<Byte>>)
    requires Aligned(out)
    ensures r == match ActionParts(actions)
                 case Err(kind) => Err(kind)
                 case Ok(parts) => Ok(out + ApplyRecord(Flatten(parts)))
  {
    var body := MarshalActions(actions);
    if body.Err? {
      return Err(body.kind);
    }
    ActionPartsExact(actions);
    var next := out + ApplyRecord(body.value);
    NoPadding(out, body.value);
    var padded := PadTo8(next);
    return Ok(padded);
  }

  /** The switch in marshalOpenFlowInstructions, appending to an aligned buffer. */
  method AppendInstruction(out: seq<Byte>, i: Instruction) returns (r: Result<seq<Byte>>)
    requires Aligned(out) && HasContent(i)
    ensures r == match MarshalInstruction(i) case Err(kind) => Err(kind) case Ok(part) => Ok(out + part)
  {
    if i.gotoTable.Some? {
      return Ok(out + Record(1, 8, [i.gotoTable.value] + Zeros(3)));
    } else if i.clearActions {
      return Ok(out + Record(5, 8, Zeros(4)));
    } else if i.writeMetadata.Some? {
      return Ok(out + Record(2, 24,
        Zeros(4) + Put64(i.writeMetadata.value.value) + Put64(i.writeMetadata.value.mask)));
    } else {
      r := AppendApplyActions(out, i.actions);
    }
  }

  /** After k of the given instructions, `done` holds what they print. */
  ghost predicate Progress(list: seq<Instruction>, k: nat, done: seq<seq<Byte>>)
    requires k <= |list|
  {
    var printed := Printed(list);
    && |done| <= |printed| && printed[|done|..] == Printed(list[k..])
    && Encoding(printed, MarshalInstruction, |done|, done)
  }

  lemma ProgressStart(list: seq<Instruction>)
    ensures Progress(list, 0, [])
  {
    assert list[0..] == list && Printed(list)[0..] == Printed(list);
    EncodingStart(Printed(list), MarshalInstruction);
  }

  lemma ProgressSkip(list: seq<Instruction>, k: nat, done: seq<seq<Byte>>)
    requires k < |list| && Progress(list, k, done) && !HasContent(list[k])
    ensures Progress(list, k + 1, done)
  {
    assert list[k..][1..] == list[k + 1..];
  }

  lemma ProgressStep(list: seq<Instruction>, k: nat, done: seq<seq<Byte>>)
    requires k < |list| && Progress(list, k, done) && HasContent(list[k])
    ensures var r := MarshalInstruction(list[k]);
      if r.Err? then InstructionParts(list) == Err(r.kind)
      else Progress(list, k + 1, done + [r.value]) && Flatten(done + [r.value]) == Flatten(done) + r.value
  {
    var printed, n := Printed(list), |done|;
    assert list[k..][1..] == list[k + 1..];
    assert printed[n] == printed[n..][0] == list[k] && printed[n + 1..] == printed[n..][1..];
    EncodingStep(printed, MarshalInstruction, n, done);
  }

  lemma ProgressEnd(list: seq<Instruction>, done: seq<seq<Byte>>)
    requires Progress(list, |list|, done)
    ensures InstructionParts(list) == Ok(done)
  {
    EncodingEnd(Printed(list), MarshalInstruction, done);
  }

  /** marshalOpenFlowInstructions. */
  method MarshalInstructions(flow: Flow) returns (r: Result<seq<Byte>>)
    ensures r == match InstructionParts(AllInstructions(flow))
                 case Err(kind) => Err(kind)
                 case Ok(parts) => Ok(Flatten(parts))
  {
    var list := AllInstructions(flow);
    var out := [];
    ghost var done: seq<seq<Byte>> := [];
    ProgressStart(list);
    for k := 0 to |list|
      invariant out == Flatten(done) && Aligned(out)
      invariant Progress(list, k, done)
    {
      if !HasContent(list[k]) {
        ProgressSkip(list, k, done);
        continue;
      }
      ProgressStep(list, k, done);
      var next := AppendInstruction(out, list[k]);
      if next.Err? {
        return Err(next.kind);
      }
      InstructionAligned(list[k]);
      AppendAligned(out, MarshalInstruction(list[k]).value);
      out := next.value;
      done := done + [MarshalInstruction(list[k]).value];
    }
    ProgressEnd(list, done);
    return Ok(out);
  }

  /** MarshalOpenFlowFlowMod. */
  function FlowMod(version: Byte, xid: U32, command: Byte, flow: Flow): Result<Framing.Message> {
    if !Framing.SupportedVersion(version) then Err(Unsupported)
    else match MarshalMatch(flow.flowMatch)
      case Err(kind) => Err(kind)
      case Ok(matchBytes) =>
        match InstructionParts(AllInstructions(flow))
        case Err(kind) => Err(kind)
        case Ok(parts) => Ok(Framing.Message(version, TYPE_FLOW_MOD, xid,
          FlowModHead(version, command, flow) + matchBytes + Flatten(parts)))
  }

  /** The forty fixed bytes before the match. */
  function FlowModHead(version: Byte, command: Byte, flow: Flow): (s: seq<Byte>)
    ensures |s| == 40
  {
    Put64(flow.cookie) + Put64(flow.cookieMask) + [flow.tableID, command]
    + Put16(flow.idleTimeout) + Put16(flow.hardTimeout) + Put16(flow.priority)
    + Put32(0xffff_ffff) + Put32(0xffff_ffff) + Put32(0xffff_ffff) + Put16(0)
    + Put16(if version == Framing.OPENFLOW_15 then flow.importance else 0)
  }

  // ----- the length fields

  lemma ActionExact(a: Action)
    requires MarshalAction(a).Ok?
    ensures Exact(MarshalAction(a).value)
  {
    match a
    case Output(port) => RecordExact(0, Put32(port) + Put16(0xffff) + Zeros(6));
    case SetField(target, mac) =>
      var field := SetFieldOxm(target, mac).value;
      assert |field| == 4 + |mac.octets|;
      RecordExact(25, field + Zeros(Align8(4 + |field|) - 4 - |field|));
  }

  lemma ActionPartsExact(actions: seq<Action>)
    requires ActionParts(actions).Ok?
    ensures var parts := ActionParts(actions).value;
      Walk(Flatten(parts)) == Some(parts) && Aligned(Flatten(parts))
  {
    var parts := ActionParts(actions).value;
    EncodedParts(actions, MarshalAction);
    forall k | 0 <= k < |parts| ensures Exact(parts[k]) {
      ActionExact(actions[k]);
    }
    WalkExact(parts);
  }

  lemma InstructionAligned(i: Instruction)
    ensures MarshalInstruction(i).Ok? ==> |MarshalInstruction(i).value| % 8 == 0
  {
    if i.gotoTable.Some? || i.clearActions {
      assert |MarshalInstruction(i).value| == 8;
    } else if i.writeMetadata.Some? {
      assert |MarshalInstruction(i).value| == 24;
    } else if i.actions != [] && ActionParts(i.actions).Ok? {
      ActionPartsExact(i.actions);
      AlignedSum(8, |Flatten(ActionParts(i.actions).value)|);
      assert MarshalInstruction(i).value == ApplyRecord(Flatten(ActionParts(i.actions).value));
    }
  }

  /** Only an apply-actions instruction carries actions; walking them from its ninth
      byte meets exactly the encoded actions. */
  ghost predicate WalksInto(part: seq<Byte>, i: Instruction) {
    && Exact(part)
    && (i.gotoTable.None? && !i.clearActions && i.writeMetadata.None? ==>
          (ActionParts(i.actions).Ok? && Walk(part[8..]) == Some(ActionParts(i.actions).value)))
  }

  /** An instruction that fits a message has an exact length field. */
  lemma InstructionExact(i: Instruction)
    requires HasContent(i) && MarshalInstruction(i).Ok? && |MarshalInstruction(i).value| <= 0xffff
    ensures WalksInto(MarshalInstruction(i).value, i)
  {
    if i.gotoTable.Some? {
      RecordExact(1, [i.gotoTable.value] + Zeros(3));
    } else if i.clearActions {
      RecordExact(5, Zeros(4));
    } else if i.writeMetadata.Some? {
      RecordExact(2, Zeros(4) + Put64(i.writeMetadata.value.value) + Put64(i.writeMetadata.value.mask));
    } else {
      ApplyActionsExact(i.actions);
    }
  }

  lemma ApplyActionsExact(actions: seq<Action>)
    requires ActionParts(actions).Ok? && 8 + |Flatten(ActionParts(actions).value)| <= 0xffff
    ensures var body := Flatten(ActionParts(actions).value);
      var part := ApplyRecord(body);
      Exact(part) && Walk(part[8..]) == Some(ActionParts(actions).value)
  {
    var body := Flatten(ActionParts(actions).value);
    ActionPartsExact(actions);
    AlignedSum(8, |body|);
    RecordExact(4, Zeros(4) + body);
  }

  lemma InstructionPartsExact(list: seq<Instruction>)
    requires InstructionParts(list).Ok? && |Flatten(InstructionParts(list).value)| <= 0xffff
    ensures var parts, printed := InstructionParts(list).value, Printed(list);
      && |parts| == |printed| && Walk(Flatten(parts)) == Some(parts)
      && forall k :: 0 <= k < |parts| ==> WalksInto(parts[k], printed[k])
  {
    var parts, printed := InstructionParts(list).value, Printed(list);
    EncodedParts(printed, MarshalInstruction);
    forall k | 0 <= k < |parts| ensures WalksInto(parts[k], printed[k]) {
      InstructionExact(printed[k]);
    }
    WalkExact(parts);
  }

  lemma WireLayout(version: Byte, kind: Byte, xid: U32, head: seq<Byte>, matchBytes: seq<Byte>, rest: seq<Byte>)
    requires |head| == 40 && Framing.Marshal(Framing.Message(version, kind, xid, head + matchBytes + rest)).Ok?
    ensures var wire := Framing.Marshal(Framing.Message(version, kind, xid, head + matchBytes + rest)).value;
      && |wire| == 48 + |matchBytes| + |rest|
      && wire[48..48 + |matchBytes|] == matchBytes && wire[48 + |matchBytes|..] == rest
  {}

  lemma FlowModLayout(version: Byte, xid: U32, command: Byte, flow: Flow)
    requires FlowMod(version, xid, command, flow).Ok?
    ensures MarshalMatch(flow.flowMatch).Ok? && InstructionParts(AllInstructions(flow)).Ok?
    ensures FlowMod(version, xid, command, flow).value ==
      Framing.Message(version, TYPE_FLOW_MOD, xid, FlowModHead(version, command, flow)
        + MarshalMatch(flow.flowMatch).value + Flatten(InstructionParts(AllInstructions(flow)).value))
  {}

  lemma MarshalFits(version: Byte, xid: U32, head: seq<Byte>, matchBytes: seq<Byte>, rest: seq<Byte>)
    requires |head| == 40 && Framing.SupportedVersion(version)
    ensures Framing.Marshal(Framing.Message(version, TYPE_FLOW_MOD, xid, head + matchBytes + rest)).Ok? <==>
      48 + |matchBytes| + |rest| <= 0xffff
  {}

  /** The match stands at byte 48; from its end, a multiple of eight, the length fields lead
      record by record through the instructions to the end of the message. */
  ghost predicate LengthsExact(wire: seq<Byte>, matchBytes: seq<Byte>, parts: seq<seq<Byte>>, printed: seq<Instruction>) {
    var matchEnd := 48 + |matchBytes|;
    && matchEnd % 8 == 0 && matchEnd <= |wire| && wire[48..matchEnd] == matchBytes
    && Walk(wire[matchEnd..]) == Some(parts) && |parts| == |printed|
    && forall k :: 0 <= k < |parts| ==> WalksInto(parts[k], printed[k])
  }

  lemma WireLengthsExact(version: Byte, xid: U32, head: seq<Byte>, m: Match, list: seq<Instruction>)
    requires |head| == 40 && MarshalMatch(m).Ok? && InstructionParts(list).Ok?
    requires Framing.Marshal(Framing.Message(version, TYPE_FLOW_MOD, xid,
      head + MarshalMatch(m).value + Flatten(InstructionParts(list).value))).Ok?
    ensures var parts := InstructionParts(list).value;
      var wire := Framing.Marshal(Framing.Message(version, TYPE_FLOW_MOD, xid,
        head + MarshalMatch(m).value + Flatten(parts))).value;
      LengthsExact(wire, MarshalMatch(m).value, parts, Printed(list))
  {
    var matchBytes, rest := MarshalMatch(m).value, Flatten(InstructionParts(list).value);
    MatchRoundTrip(m, []);
    AlignedSum(48, |matchBytes|);
    WireLayout(version, TYPE_FLOW_MOD, xid, head, matchBytes, rest);
    InstructionPartsExact(list);
  }

  /** A flow modification passes the final size check exactly when its instructions leave
      room for header and match, which take at most 368 bytes. */
  lemma FlowModFits(version: Byte, xid: U32, command: Byte, flow: Flow)
    requires FlowMod(version, xid, command, flow).Ok?
    ensures MarshalMatch(flow.flowMatch).Ok? && |MarshalMatch(flow.flowMatch).value| <= 320
    ensures InstructionParts(AllInstructions(flow)).Ok?
    ensures Framing.Marshal(FlowMod(version, xid, command, flow).value).Ok? <==>
      48 + |MarshalMatch(flow.flowMatch).value| + |Flatten(InstructionParts(AllInstructions(flow)).value)| <= 0xffff
  {
    FlowModLayout(version, xid, command, flow);
    MatchSmall(flow.flowMatch);
    MarshalFits(version, xid, FlowModHead(version, command, flow), MarshalMatch(flow.flowMatch).value,
      Flatten(InstructionParts(AllInstructions(flow)).value));
  }

  /** Whenever a flow modification passes the final size check, its wire form has the
      padded match at byte 48; from its end the instruction length fields lead, record by
      record, exactly to the end of the message, every one of them is the true extent and
      a multiple of eight, and the same holds for the actions inside. */
  lemma FlowModLengthsExact(version: Byte, xid: U32, command: Byte, flow: Flow)
    requires FlowMod(version, xid, command, flow).Ok?
    requires Framing.Marshal(FlowMod(version, xid, command, flow).value).Ok?
    ensures MarshalMatch(flow.flowMatch).Ok? && InstructionParts(AllInstructions(flow)).Ok?
    ensures LengthsExact(Framing.Marshal(FlowMod(version, xid, command, flow).value).value,
      MarshalMatch(flow.flowMatch).value, InstructionParts(AllInstructions(flow)).value, Printed(AllInstructions(flow)))
  {
    FlowModLayout(version, xid, command, flow);
    WireLengthsExact(version, xid, FlowModHead(version, command, flow), flow.flowMatch, AllInstructions(flow));
  }

  /** A truncated 16-bit length never reaches the wire: an apply-actions instruction too
      long for its length field makes the whole message fail the size check. */
  lemma TruncatedLengthRejected(version: Byte, xid: U32, command: Byte, flow: Flow, k: nat)
    requires FlowMod(version, xid, command, flow).Ok?
    requires k < |InstructionParts(AllInstructions(flow)).value|
    requires |InstructionParts(AllInstructions(flow)).value[k]| > 0xffff
    ensures Framing.Marshal(FlowMod(version, xid, command, flow).value) == Err(Validation)
  {
    EncodedParts(Printed(AllInstructions(flow)), MarshalInstruction);
  }
}
