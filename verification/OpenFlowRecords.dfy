/** Lists of type-length-value records with 16-bit lengths, independent of their kinds. */
module OpenFlowRecords {
  import opened Options
  import opened Bytes

  type Encoder<!A> = A -> Result<seq<Byte>>

  /** A record: type, 16-bit length (truncated as in the source), payload. */
  function Record(kind: U16, length: nat, payload: seq<Byte>): (s: seq<Byte>)
    ensures |s| == 4 + |payload|
  {
    Put16(kind) + Put16(length % 0x1_0000) + payload
  }

  /** Encodes a list element by element and stops at the first error. */
  function EncodeAll<A>(list: seq<A>, encode: Encoder<A>): Result<seq<seq<Byte>>> {
    if list == [] then Ok([])
    else match encode(list[0])
      case Err(kind) => Err(kind)
      case Ok(part) =>
        match EncodeAll(list[1..], encode)
        case Err(kind) => Err(kind)
        case Ok(parts) => Ok([part] + parts)
  }

  /** After k elements, `done` has been produced. */
  ghost predicate Encoding<A>(list: seq<A>, encode: Encoder<A>, k: nat, done: seq<seq<Byte>>)
    requires k <= |list|
  {
    EncodeAll(list, encode) ==
      match EncodeAll(list[k..], encode) case Err(kind) => Err(kind) case Ok(parts) => Ok(done + parts)
  }

  lemma EncodingStart<A>(list: seq<A>, encode: Encoder<A>)
    ensures Encoding(list, encode, 0, [])
  {
    assert list[0..] == list;
    if EncodeAll(list, encode).Ok? {
      assert [] + EncodeAll(list, encode).value == EncodeAll(list, encode).value;
    }
  }

  lemma EncodingStep<A>(list: seq<A>, encode: Encoder<A>, k: nat, done: seq<seq<Byte>>)
    requires k < |list| && Encoding(list, encode, k, done)
    ensures encode(list[k]).Err? ==> EncodeAll(list, encode) == Err(encode(list[k]).kind)
    ensures encode(list[k]).Ok? ==>
      var next := done + [encode(list[k]).value];
      Encoding(list, encode, k + 1, next) && Flatten(next) == Flatten(done) + encode(list[k]).value
  {
    assert list[k..][1..] == list[k + 1..];
    if encode(list[k]).Ok? {
      var part := encode(list[k]).value;
      FlattenAppend(done, [part]);
      assert Flatten([part]) == part + [];
      if EncodeAll(list[k + 1..], encode).Ok? {
        Regroup(done, [part], EncodeAll(list[k + 1..], encode).value);
      }
    }
  }

  lemma EncodingEnd<A>(list: seq<A>, encode: Encoder<A>, done: seq<seq<Byte>>)
    requires Encoding(list, encode, |list|, done)
    ensures EncodeAll(list, encode) == Ok(done)
  {
    assert done + [] == done;
  }

  /** Splits a byte string into records by their length fields; None when a length field
      does not lead from one record to the next, or leads past the end. */
  function Walk(data: seq<Byte>): Option<seq<seq<Byte>>>
    decreases |data|
  {
    if data == [] then Some([])
    else if |data| < 4 then None
    else
      var length := Get16(data[2..4]) as int;
      if length < 4 || length > |data| then None
      else match Walk(data[length..])
        case None => None
        case Some(parts) => Some([data[..length]] + parts)
  }

  /** A record whose length field is its true extent, a multiple of eight. */
  ghost predicate Exact(part: seq<Byte>) {
    |part| >= 8 && |part| % 8 == 0 && Get16(part[2..4]) == |part|
  }

  lemma RecordExact(kind: U16, payload: seq<Byte>)
    requires 4 <= |payload| && (4 + |payload|) % 8 == 0 && 4 + |payload| <= 0xffff
    ensures Exact(Record(kind, 4 + |payload|, payload))
  {
    var part := Record(kind, 4 + |payload|, payload);
    assert part[2..4] == Put16(4 + |payload|);
    GetPut16(4 + |payload|);
  }

  lemma WalkOne(first: seq<Byte>, rest: seq<Byte>)
    requires Exact(first) && Walk(rest).Some?
    ensures Walk(first + rest) == Some([first] + Walk(rest).value)
  {
    var data := first + rest;
    assert data[2..4] == first[2..4];
    assert data[..|first|] == first && data[|first|..] == rest;
  }

  /** Walking the concatenation of exact records finds exactly those records. */
  lemma {:induction false} WalkExact(parts: seq<seq<Byte>>)
    requires forall k :: 0 <= k < |parts| ==> Exact(parts[k])
    ensures Walk(Flatten(parts)) == Some(parts)
    ensures |Flatten(parts)| % 8 == 0
  {
    if parts != [] {
      WalkExact(parts[1..]);
      WalkOne(parts[0], Flatten(parts[1..]));
      assert parts == [parts[0]] + parts[1..];
      AlignedSum(|parts[0]|, |Flatten(parts[1..])|);
    }
  }

  lemma {:induction false} EncodedParts<A>(list: seq<A>, encode: Encoder<A>)
    requires EncodeAll(list, encode).Ok?
    ensures var parts := EncodeAll(list, encode).value;
      && |parts| == |list|
      && forall k :: 0 <= k < |list| ==> encode(list[k]) == Ok(parts[k]) && |parts[k]| <= |Flatten(parts)|
  {
    if list != [] {
      EncodedParts(list[1..], encode);
    }
  }
}
