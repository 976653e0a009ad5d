/** Header framing of openflow_protocol.go (section 7.1 of the OpenFlow Switch
    Specification 1.3). */
module OpenFlowFraming {
  import opened Bytes

  const OPENFLOW_13: Byte := 0x04
  const OPENFLOW_15: Byte := 0x06
  const HEADER_LENGTH := 8

  datatype Message = Message(version: Byte, kind: Byte, xid: U32, body: seq<Byte>)

  predicate SupportedVersion(version: Byte) {
    version == OPENFLOW_13 || version == OPENFLOW_15
  }

  function Marshal(msg: Message): Result<seq<Byte>> {
    if !SupportedVersion(msg.version) then Err(Unsupported)
    else if HEADER_LENGTH + |msg.body| > 0xffff then Err(Validation)
    else Ok([msg.version, msg.kind] + Put16(HEADER_LENGTH + |msg.body|) + Put32(msg.xid) + msg.body)
  }

  function Parse(data: seq<Byte>): Result<Message> {
    if |data| < HEADER_LENGTH then Err(Validation)
    else if !SupportedVersion(data[0]) then Err(Unsupported)
    else
      var length := Get16(data[2..4]);
      if length < HEADER_LENGTH then Err(Validation)
      else if length > |data| then Err(Validation)
      else Ok(Message(data[0], data[1], Get32(data[4..8]), data[8..length]))
  }

  /** ReadOpenFlowMessage on the bytes a reader still holds; also what is left of them.
      io.ReadFull fails with EOF on an empty reader and with ErrUnexpectedEOF on a short one. */
  function Read(stream: seq<Byte>): Result<(Message, seq<Byte>)> {
    if stream == [] then Err(EOF)
    else if |stream| < HEADER_LENGTH then Err(UnexpectedEOF)
    else
      var length := Get16(stream[2..4]);
      if length < HEADER_LENGTH then Err(Validation)
      else if length > HEADER_LENGTH && |stream| == HEADER_LENGTH then Err(EOF)
      else if length > |stream| then Err(UnexpectedEOF)
      else match Parse(stream[..length])
        case Err(kind) => Err(kind)
        case Ok(msg) => Ok((msg, stream[length..]))
  }

  /** Parsing needs only the first message of a buffer and ignores what follows it. */
  lemma ParseMarshal(msg: Message, rest: seq<Byte>)
    requires Marshal(msg).Ok?
    ensures Parse(Marshal(msg).value + rest) == Ok(msg)
    ensures Get16((Marshal(msg).value + rest)[2..4]) == |Marshal(msg).value| >= HEADER_LENGTH
  {
    var head := [msg.version, msg.kind];
    var length := HEADER_LENGTH + |msg.body|;
    var data := Marshal(msg).value;
    var all := data + rest;
    assert all[2..4] == Put16(length);
    assert all[4..8] == Put32(msg.xid);
    assert all[8..length] == msg.body;
    GetPut16(length);
    GetPut32(msg.xid);
  }

  /** The converse: a buffer that parses starts with the marshalled form of the result. */
  lemma MarshalParse(data: seq<Byte>)
    requires Parse(data).Ok?
    ensures Marshal(Parse(data).value).Ok? && Marshal(Parse(data).value).value <= data
  {
    var msg := Parse(data).value;
    var length := Get16(data[2..4]);
    var out := Marshal(msg).value;
    assert Put16(length) == data[2..4];
    Put32Get32(data[4..8]);
    assert out == data[..2] + data[2..4] + data[4..8] + data[8..length];
  }

  lemma Put32Get32(s: seq<Byte>)
    requires |s| == 4
    ensures Put32(Get32(s)) == s
  {
    var high, low := Get16(s[..2]), Get16(s[2..]);
    assert Get32(s) / 0x1_0000 == high && Get32(s) % 0x1_0000 == low;
    assert Put16(high) == s[..2] && Put16(low) == s[2..];
  }

  lemma ReadMarshal(msg: Message, rest: seq<Byte>)
    requires Marshal(msg).Ok?
    ensures Read(Marshal(msg).value + rest) == Ok((msg, rest))
  {
    var data := Marshal(msg).value;
    ParseMarshal(msg, rest);
    ParseMarshal(msg, []);
    assert data + [] == data;
    assert (data + rest)[..|data|] == data && (data + rest)[|data|..] == rest;
  }

  /** Everything WriteOpenFlowMessage puts on the wire for a list of messages. */
  function WriteAll(msgs: seq<Message>): seq<Byte>
    requires forall i :: 0 <= i < |msgs| ==> Marshal(msgs[i]).Ok?
  {
    if msgs == [] then [] else Marshal(msgs[0]).value + WriteAll(msgs[1..])
  }

  datatype ReadLog = ReadLog(msgs: seq<Message>, stop: Kind)

  /** Calling ReadOpenFlowMessage until it fails. */
  method ReadAll(stream: seq<Byte>) returns (log: ReadLog)
    ensures log == ReadLogOf(stream)
  {
    var msgs, rest := [], stream;
    while true
      invariant ReadLogOf(stream) == ReadLog(msgs + ReadLogOf(rest).msgs, ReadLogOf(rest).stop)
      decreases |rest|
    {
      var r := Read(rest);
      if r.Err? {
        assert msgs + [] == msgs;
        return ReadLog(msgs, r.kind);
      }
      msgs, rest := msgs + [r.value.0], r.value.1;
    }
  }

  function ReadLogOf(stream: seq<Byte>): ReadLog
    decreases |stream|
  {
    match Read(stream)
    case Err(kind) => ReadLog([], kind)
    case Ok((msg, rest)) =>
      var tail := ReadLogOf(rest);
      ReadLog([msg] + tail.msgs, tail.stop)
  }

  /** Any list of messages written back to back is read back as exactly that list,
      and the reader then stops on a clean end of file. */
  lemma {:induction false} StreamFraming(msgs: seq<Message>)
    requires forall i :: 0 <= i < |msgs| ==> Marshal(msgs[i]).Ok?
    ensures ReadLogOf(WriteAll(msgs)) == ReadLog(msgs, EOF)
  {
    if msgs != [] {
      StreamFraming(msgs[1..]);
      ReadLogOne(msgs[0], WriteAll(msgs[1..]));
    }
  }

  lemma ReadTruncated(last: Message, cut: nat)
    requires Marshal(last).Ok? && cut < |Marshal(last).value|
    ensures Read(Marshal(last).value[..cut]) in {Err(EOF), Err(UnexpectedEOF)}
  {
    var data := Marshal(last).value;
    var head := data[..cut];
    ParseMarshal(last, []);
    assert data + [] == data;
    if cut >= HEADER_LENGTH {
      assert head[2..4] == data[2..4];
    }
  }

  lemma ReadLogOne(msg: Message, rest: seq<Byte>)
    requires Marshal(msg).Ok?
    ensures ReadLogOf(Marshal(msg).value + rest) == ReadLog([msg] + ReadLogOf(rest).msgs, ReadLogOf(rest).stop)
  {
    ReadMarshal(msg, rest);
  }

  lemma WriteAllOne(msgs: seq<Message>, tail: seq<Byte>)
    requires msgs != [] && forall i :: 0 <= i < |msgs| ==> Marshal(msgs[i]).Ok?
    ensures WriteAll(msgs) + tail == Marshal(msgs[0]).value + (WriteAll(msgs[1..]) + tail)
  {
    Regroup(Marshal(msgs[0]).value, WriteAll(msgs[1..]), tail);
  }

  /** A stream cut off inside a later message still yields every complete one. */
  lemma {:induction false} TruncatedStream(msgs: seq<Message>, last: Message, cut: nat)
    requires forall i :: 0 <= i < |msgs| ==> Marshal(msgs[i]).Ok?
    requires Marshal(last).Ok? && cut < |Marshal(last).value|
    ensures var log := ReadLogOf(WriteAll(msgs) + Marshal(last).value[..cut]);
      log.msgs == msgs && log.stop in {EOF, UnexpectedEOF}
  {
    var tail := Marshal(last).value[..cut];
    if msgs == [] {
      assert WriteAll(msgs) + tail == tail;
      ReadTruncated(last, cut);
    } else {
      TruncatedStream(msgs[1..], last, cut);
      ReadLogOne(msgs[0], WriteAll(msgs[1..]) + tail);
      WriteAllOne(msgs, tail);
    }
  }
}
