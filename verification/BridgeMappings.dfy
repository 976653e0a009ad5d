/** The packed ovn-bridge-mappings text of ovs_runtime.go. */
module BridgeMappings {
  import opened Text

  datatype Result<+T> = Ok(value: T) | Conflict | Invalid

  type Mappings = map<string, string>

  /** validateName: not blank. */
  predicate ValidName(name: string) {
    Trim(name) != ""
  }

  /** validateBridgeMappingPair. */
  predicate ValidPair(physicalNetwork: string, bridge: string) {
    && ValidName(physicalNetwork) && ValidName(bridge)
    && ',' !in physicalNetwork && ':' !in physicalNetwork && ',' !in bridge && ':' !in bridge
  }

  datatype Part = Blank | Malformed | Pair(physicalNetwork: string, bridge: string)

  function PartOf(raw: string): Part {
    var part := Trim(raw);
    if part == "" then Blank
    else
      var fields := Split(part, ':');
      if |fields| != 2 || Trim(fields[0]) == "" || Trim(fields[1]) == "" then Malformed
      else Pair(Trim(fields[0]), Trim(fields[1]))
  }

  function ParseParts(parts: seq<string>, out: Mappings): Result<Mappings>
    decreases |parts|
  {
    if parts == [] then Ok(out)
    else match PartOf(parts[0])
      case Blank => ParseParts(parts[1..], out)
      case Malformed => Conflict
      case Pair(physicalNetwork, bridge) =>
        if physicalNetwork in out then Conflict
        else if !ValidPair(physicalNetwork, bridge) then Invalid
        else ParseParts(parts[1..], out[physicalNetwork := bridge])
  }

  function Parse(raw: string): Result<Mappings> {
    var trimmed := Trim(raw);
    if trimmed == "" then Ok(map[]) else ParseParts(Split(trimmed, ','), map[])
  }

  method ParseBridgeMappings(raw: string) returns (r: Result<Mappings>)
    ensures r == Parse(raw)
  {
    var out: Mappings := map[];
    var trimmed := Trim(raw);
    if trimmed == "" {
      return Ok(out);
    }
    var parts := Split(trimmed, ',');
    for i := 0 to |parts|
      invariant Parse(raw) == ParseParts(parts[i..], out)
    {
      var part := PartOf(parts[i]);
      if part.Blank? {
        continue;
      }
      if part.Malformed? {
        return Conflict;
      }
      if part.physicalNetwork in out {
        return Conflict;
      }
      if !ValidPair(part.physicalNetwork, part.bridge) {
        return Invalid;
      }
      out := out[part.physicalNetwork := part.bridge];
    }
    return Ok(out);
  }

  // ----- what a text says

  /** The part is a pair: one colon, and a name on either side once spaces are taken off. */
  ghost predicate Says(part: string, k: string, v: string) {
    exists a, b :: SplitsInto(part, a, b) && Trim(a) == k && Trim(b) == v && k != "" && v != ""
  }

  ghost predicate SplitsInto(part: string, a: string, b: string) {
    Trim(part) == a + ":" + b && ':' !in a && ':' !in b
  }

  lemma PartOfExact(part: string)
    ensures PartOf(part).Blank? <==> Trim(part) == ""
    ensures forall k, v :: PartOf(part) == Pair(k, v) <==> Says(part, k, v)
  {
    var text := Trim(part);
    var fields := Split(text, ':');
    JoinSplit(text, ':');
    if |fields| == 2 {
      assert fields[1..] == [fields[1]];
      assert SplitsInto(part, fields[0], fields[1]);
    }
    forall a, b | SplitsInto(part, a, b) ensures fields == [a, b] && text != "" {
      SplitFirst(a, ':', b);
      SplitNone(b, ':');
      assert a + [':'] + b == text;
    }
  }

  /** No part is malformed, and no two parts, nor a part and a mapping there already, name
      the same network. */
  ghost predicate Fits(parts: seq<string>, out: Mappings) {
    && (forall i :: 0 <= i < |parts| ==>
          PartOf(parts[i]).Blank? || (PartOf(parts[i]).Pair? && PartOf(parts[i]).physicalNetwork !in out))
    && (forall i, j :: 0 <= i < j < |parts| && PartOf(parts[i]).Pair? && PartOf(parts[j]).Pair? ==>
          PartOf(parts[i]).physicalNetwork != PartOf(parts[j]).physicalNetwork)
  }

  ghost predicate Named(parts: seq<string>, k: string, v: string) {
    exists i :: 0 <= i < |parts| && PartOf(parts[i]) == Pair(k, v)
  }

  lemma NamedCons(parts: seq<string>, k: string, v: string)
    requires parts != []
    ensures Named(parts, k, v) <==> PartOf(parts[0]) == Pair(k, v) || Named(parts[1..], k, v)
  {
    var rest := parts[1..];
    assert forall i :: 0 < i < |parts| ==> parts[i] == rest[i - 1];
    assert forall i :: 0 <= i < |rest| ==> rest[i] == parts[i + 1];
  }

  lemma FitsCons(parts: seq<string>, out: Mappings)
    requires parts != []
    ensures Fits(parts, out) <==> match PartOf(parts[0])
      case Blank => Fits(parts[1..], out)
      case Malformed => false
      case Pair(k, v) => k !in out && Fits(parts[1..], out[k := v])
  {
    var rest := parts[1..];
    assert forall i :: 0 < i < |parts| ==> parts[i] == rest[i - 1];
    assert forall i :: 0 <= i < |rest| ==> rest[i] == parts[i + 1];
  }

  lemma PairIsValid(part: string)
    requires PartOf(part).Pair? && ',' !in part
    ensures ValidPair(PartOf(part).physicalNetwork, PartOf(part).bridge)
  {
    var fields := Split(Trim(part), ':');
    TrimProps(part);
    TrimProps(fields[0]);
    TrimProps(fields[1]);
    JoinSplit(Trim(part), ':');
    assert fields[1..] == [fields[1]];
  }

  lemma {:induction false} ParsePartsExact(parts: seq<string>, out: Mappings, k: string, v: string)
    requires forall i :: 0 <= i < |parts| ==> ',' !in parts[i]
    ensures ParseParts(parts, out).Ok? <==> Fits(parts, out)
    ensures !ParseParts(parts, out).Invalid?
    ensures ParseParts(parts, out).Ok? ==> var m := ParseParts(parts, out).value;
      (k in m && m[k] == v <==> (k in out && out[k] == v) || Named(parts, k, v))
    decreases |parts|
  {
    if parts != [] {
      FitsCons(parts, out);
      NamedCons(parts, k, v);
      match PartOf(parts[0])
      case Blank => ParsePartsExact(parts[1..], out, k, v);
      case Malformed =>
      case Pair(network, bridge) =>
        PairIsValid(parts[0]);
        if network !in out {
          ParsePartsExact(parts[1..], out[network := bridge], k, v);
          NamedKeyIsFresh(parts[1..], out[network := bridge], k, v);
        }
    }
  }

  lemma NamedKeyIsFresh(parts: seq<string>, out: Mappings, k: string, v: string)
    ensures Fits(parts, out) && Named(parts, k, v) ==> k !in out
  {}

  /** Every comma-separated part is blank or a pair, and no two parts are pairs of the same
      physical network. */
  ghost predicate WellWritten(parts: seq<string>) {
    && (forall i :: 0 <= i < |parts| ==> Trim(parts[i]) == "" || exists k, v :: Says(parts[i], k, v))
    && (forall i, j, k, v, w :: 0 <= i < j < |parts| && Says(parts[i], k, v) ==> !Says(parts[j], k, w))
  }

  lemma WellWrittenExact(parts: seq<string>)
    ensures Fits(parts, map[]) <==> WellWritten(parts)
  {
    forall i | 0 <= i < |parts|
      ensures PartOf(parts[i]).Blank? <==> Trim(parts[i]) == ""
      ensures PartOf(parts[i]).Pair? <==> exists k, v :: Says(parts[i], k, v)
      ensures forall k, v :: PartOf(parts[i]) == Pair(k, v) <==> Says(parts[i], k, v)
    {
      PartOfExact(parts[i]);
      if PartOf(parts[i]).Pair? {
        assert Says(parts[i], PartOf(parts[i]).physicalNetwork, PartOf(parts[i]).bridge);
      }
    }
    if WellWritten(parts) {
      forall i, j | 0 <= i < j < |parts| && PartOf(parts[i]).Pair? && PartOf(parts[j]).Pair?
        ensures PartOf(parts[i]).physicalNetwork != PartOf(parts[j]).physicalNetwork
      {
        assert Says(parts[i], PartOf(parts[i]).physicalNetwork, PartOf(parts[i]).bridge);
        assert Says(parts[j], PartOf(parts[j]).physicalNetwork, PartOf(parts[j]).bridge);
      }
    }
  }

  /** A text is accepted exactly when it is well written, refused as a conflict otherwise,
      and means exactly the pairs that its parts say. */
  lemma ParseExactly(raw: string, k: string, v: string)
    ensures var parts := Split(Trim(raw), ',');
      && (Parse(raw).Ok? <==> WellWritten(parts)) && (!WellWritten(parts) ==> Parse(raw) == Conflict)
      && (Parse(raw).Ok? ==>
            (k in Parse(raw).value && Parse(raw).value[k] == v <==> exists i :: 0 <= i < |parts| && Says(parts[i], k, v)))
  {
    var parts := Split(Trim(raw), ',');
    forall i | 0 <= i < |parts| ensures PartOf(parts[i]) == Pair(k, v) <==> Says(parts[i], k, v) {
      PartOfExact(parts[i]);
    }
    ParsePartsExact(parts, map[], k, v);
    WellWrittenExact(parts);
    if Trim(raw) == "" {
      assert parts == [""] && Trim("") == "" && PartOf("").Blank? && parts[1..] == [];
    }
  }

  // ----- formatting

  ghost function Entries(keys: seq<string>, m: Mappings): (parts: seq<string>)
    requires forall k :: k in keys ==> k in m
    ensures |parts| == |keys|
    ensures forall i :: 0 <= i < |keys| ==> parts[i] == keys[i] + ":" + m[keys[i]]
  {
    if keys == [] then [] else [keys[0] + ":" + m[keys[0]]] + Entries(keys[1..], m)
  }

  ghost function PrintedKeys(m: Mappings): set<string> {
    set k | k in m && k != "" && m[k] != ""
  }

  ghost function Format(m: Mappings): string {
    Join(Entries(SortedSet(PrintedKeys(m)), m), ',')
  }

  /** The first loop of FormatBridgeMappings, in whatever order the map yields its keys. */
  method CollectKeys(m: Mappings) returns (keys: seq<string>)
    ensures DistinctBy(keys, Identity) && forall k :: k in keys <==> k in PrintedKeys(m)
  {
    keys := [];
    var rest := m.Keys;
    while rest != {}
      invariant rest <= m.Keys && DistinctBy(keys, Identity)
      invariant forall k :: k in keys <==> k in m && k !in rest && k != "" && m[k] != ""
      decreases rest
    {
      var k :| k in rest;
      rest := rest - {k};
      if k == "" || m[k] == "" {
        continue;
      }
      keys := keys + [k];
    }
  }

  method FormatBridgeMappings(m: Mappings) returns (s: string)
    ensures s == Format(m)
  {
    var keys := CollectKeys(m);
    SortedIsUnique(keys, PrintedKeys(m));
    keys := SortStrings(keys);
    assert forall k :: k in keys ==> k in PrintedKeys(m);
    var parts := PrintParts(keys, m);
    s := Join(parts, ',');
  }

  /** Its second loop. */
  method PrintParts(keys: seq<string>, m: Mappings) returns (parts: seq<string>)
    requires forall k :: k in keys ==> k in m
    ensures parts == Entries(keys, m)
  {
    parts := [];
    for i := 0 to |keys|
      invariant |parts| == i
      invariant forall j :: 0 <= j < i ==> parts[j] == keys[j] + ":" + m[keys[j]]
    {
      parts := parts + [keys[i] + ":" + m[keys[i]]];
    }
  }

  lemma SortedIsUnique(keys: seq<string>, ks: set<string>)
    requires DistinctBy(keys, Identity) && forall k :: k in keys <==> k in ks
    ensures SortStrings(keys) == SortedSet(ks)
  {
    SortBySorts(keys, Identity);
    DistinctSameMembers(keys, SortedSet(ks));
    SortedUnique(SortStrings(keys), SortedSet(ks), Identity);
  }

  lemma DistinctSameMembers(s: seq<string>, t: seq<string>)
    requires DistinctBy(s, Identity) && DistinctBy(t, Identity) && forall x :: x in s <==> x in t
    ensures multiset(s) == multiset(t)
  {
    forall x ensures multiset(s)[x] == multiset(t)[x] {
      AtMostOnce(s, x, Identity);
      AtMostOnce(t, x, Identity);
      assert x in multiset(s) <==> x in s;
      assert x in multiset(t) <==> x in t;
    }
  }

  /** The text lists these networks with their bridges. */
  ghost predicate Lists(text: string, keys: seq<string>, m: Mappings)
    requires forall k :: k in keys ==> k in m
  {
    exists parts: seq<string> ::
      && |parts| == |keys| && text == Join(parts, ',')
      && forall i :: 0 <= i < |keys| ==> parts[i] == keys[i] + ":" + m[keys[i]]
  }

  /** The text is the pairs without an empty name, joined by commas in ascending order of
      their networks. */
  lemma FormatExactly(m: Mappings) returns (keys: seq<string>)
    ensures forall k :: k in keys <==> k in m && k != "" && m[k] != ""
    ensures forall i, j :: 0 <= i < j < |keys| ==> Less(keys[i], keys[j])
    ensures Lists(Format(m), keys, m)
  {
    keys := SortedSet(PrintedKeys(m));
    forall i, j | 0 <= i < j < |keys| ensures Less(keys[i], keys[j]) {
      assert Identity(keys[i]) != Identity(keys[j]) && !Less(Identity(keys[j]), Identity(keys[i]));
      LessTrichotomy(keys[i], keys[j]);
    }
    assert Format(m) == Join(Entries(keys, m), ',');
  }

  // ----- round trips

  /** A name that the text format can carry. */
  ghost predicate CleanName(s: string) {
    s != "" && Trimmed(s) && ',' !in s && ':' !in s
  }

  ghost predicate CleanMappings(m: Mappings) {
    forall k :: k in m ==> CleanName(k) && CleanName(m[k])
  }

  lemma PairText(k: string, v: string)
    requires CleanName(k) && CleanName(v)
    ensures PartOf(k + ":" + v) == Pair(k, v) && ValidPair(k, v)
    ensures ',' !in k + ":" + v && Trimmed(k + ":" + v)
  {
    var part := k + ":" + v;
    TrimProps(k);
    TrimProps(v);
    TrimProps(part);
    SplitFirst(k, ':', v);
    SplitNone(v, ':');
    assert k + [':'] + v == part;
  }

  ghost function Restrict(m: Mappings, keys: seq<string>): Mappings {
    map k | k in m && k in keys :: m[k]
  }

  lemma RestrictCons(m: Mappings, keys: seq<string>, out: Mappings)
    requires keys != [] && keys[0] in m && DistinctBy(keys, Identity)
    ensures out[keys[0] := m[keys[0]]] + Restrict(m, keys[1..]) == out + Restrict(m, keys)
    ensures forall x :: x in keys[1..] ==> x in keys && x != keys[0]
  {
    assert keys == [keys[0]] + keys[1..];
    assert forall i :: 0 < i < |keys| ==> Identity(keys[0]) != Identity(keys[i]);
  }

  lemma ParseEntry(k: string, v: string, rest: seq<string>, out: Mappings)
    requires CleanName(k) && CleanName(v) && k !in out
    ensures ParseParts([k + ":" + v] + rest, out) == ParseParts(rest, out[k := v])
  {
    PairText(k, v);
    assert ([k + ":" + v] + rest)[1..] == rest;
  }

  lemma {:induction false} ParseEntries(keys: seq<string>, m: Mappings, out: Mappings)
    requires CleanMappings(m) && DistinctBy(keys, Identity)
    requires forall k :: k in keys ==> k in m && k !in out
    ensures ParseParts(Entries(keys, m), out) == Ok(out + Restrict(m, keys))
    decreases |keys|
  {
    if keys == [] {
      assert out + Restrict(m, keys) == out;
    } else {
      var k := keys[0];
      assert k in keys;
      RestrictCons(m, keys, out);
      ParseEntry(k, m[k], Entries(keys[1..], m), out);
      ParseEntries(keys[1..], m, out[k := m[k]]);
    }
  }

  lemma {:induction false} JoinTrimmed(parts: seq<string>)
    requires parts != [] && forall i :: 0 <= i < |parts| ==> parts[i] != "" && Trimmed(parts[i])
    ensures Join(parts, ',') != "" && Trimmed(Join(parts, ','))
  {
    if |parts| > 1 {
      JoinTrimmed(parts[1..]);
    }
  }

  lemma EntriesClean(keys: seq<string>, m: Mappings)
    requires CleanMappings(m) && forall k :: k in keys ==> k in m
    ensures forall i :: 0 <= i < |keys| ==>
      Entries(keys, m)[i] != "" && Trimmed(Entries(keys, m)[i]) && ',' !in Entries(keys, m)[i]
  {
    forall i | 0 <= i < |keys|
      ensures Entries(keys, m)[i] != "" && Trimmed(Entries(keys, m)[i]) && ',' !in Entries(keys, m)[i]
    {
      assert keys[i] in keys;
      PairText(keys[i], m[keys[i]]);
    }
  }

  lemma ParseJoined(parts: seq<string>)
    requires parts != [] && forall i :: 0 <= i < |parts| ==> parts[i] != "" && Trimmed(parts[i]) && ',' !in parts[i]
    ensures Parse(Join(parts, ',')) == ParseParts(parts, map[])
  {
    JoinTrimmed(parts);
    TrimProps(Join(parts, ','));
    SplitJoin(parts, ',');
  }

  lemma ParseKeys(keys: seq<string>, m: Mappings)
    requires keys != [] && CleanMappings(m) && DistinctBy(keys, Identity)
    requires forall k :: k in keys <==> k in m
    ensures Parse(Join(Entries(keys, m), ',')) == Ok(m)
  {
    EntriesClean(keys, m);
    ParseAllEntries(keys, m);
    ParseJoined(Entries(keys, m));
  }

  lemma ParseAllEntries(keys: seq<string>, m: Mappings)
    requires CleanMappings(m) && DistinctBy(keys, Identity) && forall k :: k in keys <==> k in m
    ensures ParseParts(Entries(keys, m), map[]) == Ok(m)
  {
    assert map[] + Restrict(m, keys) == m;
    ParseEntries(keys, m, map[]);
  }

  /** Formatting a map of clean names and parsing the text gives the map back. */
  lemma ParseFormat(m: Mappings)
    requires CleanMappings(m)
    ensures Parse(Format(m)) == Ok(m)
  {
    assert PrintedKeys(m) == m.Keys;
    var keys := SortedSet(m.Keys);
    if keys == [] {
      assert m == map[];
      assert Trim("") == "";
    } else {
      ParseKeys(keys, m);
    }
  }

  lemma {:induction false} ParsePartsClean(parts: seq<string>, out: Mappings)
    requires CleanMappings(out) && ParseParts(parts, out).Ok?
    requires forall i :: 0 <= i < |parts| ==> ',' !in parts[i]
    ensures CleanMappings(ParseParts(parts, out).value)
    decreases |parts|
  {
    if parts != [] {
      var part := PartOf(parts[0]);
      if part.Blank? {
        ParsePartsClean(parts[1..], out);
      } else {
        var fields := Split(Trim(parts[0]), ':');
        TrimProps(parts[0]);
        TrimProps(fields[0]);
        TrimProps(fields[1]);
        ParsePartsClean(parts[1..], out[part.physicalNetwork := part.bridge]);
      }
    }
  }

  /** Whatever the parser accepts is a map of clean names. */
  lemma ParseIsClean(raw: string)
    requires Parse(raw).Ok?
    ensures CleanMappings(Parse(raw).value)
  {
    if Trim(raw) != "" {
      ParsePartsClean(Split(Trim(raw), ','), map[]);
    }
  }

  /** Parse, format, parse is parse, for every text the parser accepts. */
  lemma ParseFormatParse(raw: string)
    requires Parse(raw).Ok?
    ensures Parse(Format(Parse(raw).value)) == Parse(raw)
  {
    ParseIsClean(raw);
    ParseFormat(Parse(raw).value);
  }

  /** And a map survives the trip exactly when all its names are clean. */
  lemma ParseFormatExact(m: Mappings)
    ensures Parse(Format(m)) == Ok(m) <==> CleanMappings(m)
  {
    if CleanMappings(m) {
      ParseFormat(m);
    } else if Parse(Format(m)) == Ok(m) {
      ParseIsClean(Format(m));
    }
  }
}
