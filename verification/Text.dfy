/** The parts of Go's strings and sort packages that the modelled code relies on. */
module Text {

  // ----- splitting and joining

  /** strings.Split with a one-character separator: never empty. */
  function Split(s: string, sep: char): (parts: seq<string>)
    ensures parts != []
    ensures forall i :: 0 <= i < |parts| ==> sep !in parts[i]
  {
    if s == "" then [""]
    else
      var rest := Split(s[1..], sep);
      if s[0] == sep then [""] + rest else [[s[0]] + rest[0]] + rest[1..]
  }

  /** strings.Join. */
  function Join(parts: seq<string>, sep: char): string {
    if parts == [] then ""
    else if |parts| == 1 then parts[0]
    else parts[0] + [sep] + Join(parts[1..], sep)
  }

  lemma {:induction false} SplitFirst(part: string, sep: char, rest: string)
    requires sep !in part
    ensures Split(part + [sep] + rest, sep) == [part] + Split(rest, sep)
  {
    var s := part + [sep] + rest;
    if part == "" {
      assert s[1..] == rest;
    } else {
      SplitFirst(part[1..], sep, rest);
      assert s[1..] == part[1..] + [sep] + rest;
      assert part == [part[0]] + part[1..];
    }
  }

  lemma {:induction false} SplitNone(part: string, sep: char)
    requires sep !in part
    ensures Split(part, sep) == [part]
  {
    if part != "" {
      SplitNone(part[1..], sep);
      assert part == [part[0]] + part[1..];
    }
  }

  lemma {:induction false} SplitJoin(parts: seq<string>, sep: char)
    requires parts != [] && forall i :: 0 <= i < |parts| ==> sep !in parts[i]
    ensures Split(Join(parts, sep), sep) == parts
  {
    if |parts| == 1 {
      SplitNone(parts[0], sep);
    } else {
      SplitJoin(parts[1..], sep);
      SplitFirst(parts[0], sep, Join(parts[1..], sep));
    }
  }

  lemma {:induction false} JoinSplit(s: string, sep: char)
    ensures Join(Split(s, sep), sep) == s
  {
    if s != "" {
      JoinSplit(s[1..], sep);
      var rest := Split(s[1..], sep);
      assert s == [s[0]] + s[1..];
      if s[0] == sep {
        assert ([""] + rest)[1..] == rest;
      } else {
        assert ([[s[0]] + rest[0]] + rest[1..])[1..] == rest[1..];
      }
    }
  }

  // ----- trimming

  /** unicode.IsSpace. */
  predicate IsSpace(c: char) {
    || c in {' ', '\t', '\n', '\r', '\U{0B}', '\U{0C}', '\U{85}', '\U{A0}', '\U{1680}'}
    || '\U{2000}' <= c <= '\U{200A}'
    || c in {'\U{2028}', '\U{2029}', '\U{202F}', '\U{205F}', '\U{3000}'}
  }

  predicate Trimmed(s: string) {
    s != "" ==> !IsSpace(s[0]) && !IsSpace(s[|s| - 1])
  }

  function TrimLeft(s: string): string {
    if s != "" && IsSpace(s[0]) then TrimLeft(s[1..]) else s
  }

  function TrimRight(s: string): string {
    if s != "" && IsSpace(s[|s| - 1]) then TrimRight(s[..|s| - 1]) else s
  }

  /** strings.TrimSpace. */
  function Trim(s: string): string {
    TrimRight(TrimLeft(s))
  }

  lemma {:induction false} TrimLeftProps(s: string)
    ensures var t := TrimLeft(s);
      (t != "" ==> !IsSpace(t[0])) && forall c :: c in t ==> c in s
  {
    if s != "" && IsSpace(s[0]) {
      TrimLeftProps(s[1..]);
    }
  }

  lemma {:induction false} TrimRightProps(s: string)
    ensures TrimRight(s) <= s
    ensures TrimRight(s) != "" ==> !IsSpace(TrimRight(s)[|TrimRight(s)| - 1])
  {
    if s != "" && IsSpace(s[|s| - 1]) {
      TrimRightProps(s[..|s| - 1]);
    }
  }

  /** Trimming leaves no surrounding space and adds no character. */
  lemma TrimProps(s: string)
    ensures Trimmed(Trim(s))
    ensures forall c :: c in Trim(s) ==> c in s
    ensures Trimmed(s) ==> Trim(s) == s
  {
    TrimLeftProps(s);
    TrimRightProps(TrimLeft(s));
  }

  predicate AllSpace(s: string) {
    forall i :: 0 <= i < |s| ==> IsSpace(s[i])
  }

  lemma {:induction false} TrimLeftExact(s: string) returns (i: nat)
    ensures i <= |s| && TrimLeft(s) == s[i..] && AllSpace(s[..i])
  {
    if s != "" && IsSpace(s[0]) {
      i := TrimLeftExact(s[1..]);
      i := i + 1;
      assert s[..i] == [s[0]] + s[1..][..i - 1];
    } else {
      i := 0;
    }
  }

  lemma {:induction false} TrimRightExact(s: string)
    ensures TrimRight(s) <= s && AllSpace(s[|TrimRight(s)|..])
  {
    if s != "" && IsSpace(s[|s| - 1]) {
      var n := |s| - 1;
      TrimRightExact(s[..n]);
      var j := |TrimRight(s)|;
      assert s[j..] == s[..n][j..] + [s[n]];
    }
  }

  /** Trimming takes away the spaces before and after, and nothing else. */
  lemma TrimExact(s: string) returns (before: string, after: string)
    ensures s == before + Trim(s) + after && AllSpace(before) && AllSpace(after) && Trimmed(Trim(s))
  {
    var i := TrimLeftExact(s);
    var t := TrimLeft(s);
    TrimRightExact(t);
    TrimProps(s);
    before, after := s[..i], t[|Trim(s)|..];
    assert t == Trim(s) + after;
  }

  // ----- ordering

  /** Go's < on strings; byte order and code point order agree on UTF-8. */
  predicate Less(a: string, b: string) {
    b != "" && (a == "" || a[0] < b[0] || (a[0] == b[0] && Less(a[1..], b[1..])))
  }

  /** The first difference decides; a string comes after its proper beginnings. */
  ghost predicate DiffersAt(a: string, b: string, n: nat) {
    && n <= |a| && n < |b| && a[..n] == b[..n]
    && (n == |a| || a[n] < b[n])
  }

  lemma {:induction false} LessExact(a: string, b: string)
    ensures Less(a, b) <==> exists n: nat :: DiffersAt(a, b, n)
  {
    if b != "" && (a == "" || a[0] < b[0]) {
      assert DiffersAt(a, b, 0);
    } else if a != "" && b != "" && a[0] == b[0] {
      LessExact(a[1..], b[1..]);
      if n: nat :| DiffersAt(a[1..], b[1..], n) {
        assert a[..n + 1] == [a[0]] + a[1..][..n] && b[..n + 1] == [b[0]] + b[1..][..n];
        assert DiffersAt(a, b, n + 1);
      }
      if n: nat :| DiffersAt(a, b, n) {
        assert n > 0 && a[1..][..n - 1] == a[..n][1..] && b[1..][..n - 1] == b[..n][1..];
        assert DiffersAt(a[1..], b[1..], n - 1);
      }
    }
  }

  lemma {:induction false} LessTransitive(a: string, b: string, c: string)
    requires Less(a, b) && Less(b, c)
    ensures Less(a, c)
  {
    if a != "" && a[0] == b[0] && b[0] == c[0] {
      LessTransitive(a[1..], b[1..], c[1..]);
    }
  }

  lemma {:induction false} LessTrichotomy(a: string, b: string)
    ensures !(Less(a, b) && Less(b, a))
    ensures Less(a, b) || Less(b, a) || a == b
    ensures a == b ==> !Less(a, b)
  {
    if a != "" && b != "" && a[0] == b[0] {
      LessTrichotomy(a[1..], b[1..]);
      assert a == [a[0]] + a[1..] && b == [b[0]] + b[1..];
    }
  }

  // ----- sorting by a string key

  ghost predicate SortedBy<T>(s: seq<T>, key: T -> string) {
    forall i, j :: 0 <= i < j < |s| ==> !Less(key(s[j]), key(s[i]))
  }

  ghost predicate DistinctBy<T>(s: seq<T>, key: T -> string) {
    forall i, j :: 0 <= i < j < |s| ==> key(s[i]) != key(s[j])
  }

  function InsertBy<T>(x: T, s: seq<T>, key: T -> string): seq<T> {
    if s == [] || !Less(key(s[0]), key(x)) then [x] + s else [s[0]] + InsertBy(x, s[1..], key)
  }

  /** sort.Slice and sort.Strings. */
  function SortBy<T>(s: seq<T>, key: T -> string): seq<T> {
    if s == [] then [] else InsertBy(s[0], SortBy(s[1..], key), key)
  }

  lemma {:induction false} InsertBySorts<T>(x: T, s: seq<T>, key: T -> string)
    requires SortedBy(s, key)
    ensures SortedBy(InsertBy(x, s, key), key)
    ensures multiset(InsertBy(x, s, key)) == multiset(s) + multiset{x}
  {
    if s == [] {
    } else if !Less(key(s[0]), key(x)) {
      forall j | 0 <= j < |s| ensures !Less(key(s[j]), key(x)) {
        if Less(key(s[j]), key(x)) {
          LessTrichotomy(key(s[0]), key(s[j]));
          if Less(key(s[0]), key(s[j])) {
            LessTransitive(key(s[0]), key(s[j]), key(x));
          }
        }
      }
    } else {
      InsertBySorts(x, s[1..], key);
      var t := InsertBy(x, s[1..], key);
      assert s == [s[0]] + s[1..];
      LessTrichotomy(key(s[0]), key(x));
      forall j | 0 <= j < |t| ensures !Less(key(t[j]), key(s[0])) {
        assert t[j] in multiset(t);
        assert t[j] == x || t[j] in s[1..];
      }
    }
  }

  lemma {:induction false} SortBySorts<T>(s: seq<T>, key: T -> string)
    ensures SortedBy(SortBy(s, key), key)
    ensures multiset(SortBy(s, key)) == multiset(s)
  {
    if s != [] {
      SortBySorts(s[1..], key);
      InsertBySorts(s[0], SortBy(s[1..], key), key);
      assert s == [s[0]] + s[1..];
    }
  }

  lemma SortedSameHead<T>(s: seq<T>, t: seq<T>, key: T -> string)
    requires s != [] && t != [] && SortedBy(s, key) && SortedBy(t, key)
    requires s[0] in t && t[0] in s
    ensures key(s[0]) == key(t[0])
  {
    var i :| 0 <= i < |t| && t[i] == s[0];
    var j :| 0 <= j < |s| && s[j] == t[0];
    LessTrichotomy(key(s[0]), key(t[0]));
  }

  lemma SortedTail<T>(s: seq<T>, key: T -> string)
    requires s != [] && SortedBy(s, key)
    ensures SortedBy(s[1..], key)
    ensures multiset(s[1..]) == multiset(s) - multiset{s[0]}
    ensures s == [s[0]] + s[1..] && forall x :: x in s[1..] ==> x in s
  {
    assert s == [s[0]] + s[1..];
  }

  /** A sorted arrangement is unique when equal keys mean equal elements. */
  lemma {:induction false} SortedUnique<T>(s: seq<T>, t: seq<T>, key: T -> string)
    requires SortedBy(s, key) && SortedBy(t, key) && multiset(s) == multiset(t)
    requires forall x, y :: x in s && y in s && key(x) == key(y) ==> x == y
    ensures s == t
  {
    SameMembers(s, t);
    if s != [] {
      assert s[0] in s && t[0] in t;
      SortedSameHead(s, t, key);
      SortedTail(s, key);
      SortedTail(t, key);
      SortedUnique(s[1..], t[1..], key);
    }
  }

  /** Sorting something sorted changes nothing. */
  lemma {:induction false} SortBySorted<T>(s: seq<T>, key: T -> string)
    requires SortedBy(s, key)
    ensures SortBy(s, key) == s
  {
    if s != [] {
      SortBySorted(s[1..], key);
      assert s == [s[0]] + s[1..];
    }
  }

  lemma SameMembers<T>(s: seq<T>, t: seq<T>)
    requires multiset(s) == multiset(t)
    ensures |s| == |t| && forall x :: x in s <==> x in t
  {
    assert |s| == |multiset(s)| == |multiset(t)| == |t|;
    assert forall x :: x in s <==> x in multiset(s);
    assert forall x :: x in t <==> x in multiset(t);
  }

  function Identity(s: string): string { s }

  function SortStrings(s: seq<string>): seq<string> {
    SortBy(s, Identity)
  }

  /** Two lists of strings sort to the same list exactly when they hold the same strings. */
  lemma SortStringsCanonical(s: seq<string>, t: seq<string>)
    ensures SortStrings(s) == SortStrings(t) <==> multiset(s) == multiset(t)
  {
    SortBySorts(s, Identity);
    SortBySorts(t, Identity);
    if multiset(s) == multiset(t) {
      SortedUnique(SortStrings(s), SortStrings(t), Identity);
    }
  }

  /** The elements of a set of strings in ascending order. */
  ghost function SortedSet(ks: set<string>): (s: seq<string>)
    ensures SortedBy(s, Identity) && DistinctBy(s, Identity)
    ensures forall k :: k in s <==> k in ks
    decreases ks
  {
    if ks == {} then []
    else
      var k :| k in ks;
      var rest := SortedSet(ks - {k});
      InsertBySorts(k, rest, Identity);
      InsertFresh(k, rest);
      InsertBy(k, rest, Identity)
  }

  lemma InsertFresh(k: string, s: seq<string>)
    requires SortedBy(s, Identity) && DistinctBy(s, Identity) && k !in s
    ensures DistinctBy(InsertBy(k, s, Identity), Identity)
    ensures forall x :: x in InsertBy(k, s, Identity) <==> x == k || x in s
  {
    var t := InsertBy(k, s, Identity);
    InsertBySorts(k, s, Identity);
    SameMembers(t, [k] + s);
    DistinctMultiset([k] + s, t, Identity);
  }

  /** Rearranging keeps keys distinct. */
  lemma DistinctMultiset<T>(s: seq<T>, t: seq<T>, key: T -> string)
    requires multiset(s) == multiset(t) && DistinctBy(s, key)
    ensures DistinctBy(t, key)
  {
    SameMembers(s, t);
    forall i, j | 0 <= i < j < |t| ensures key(t[i]) != key(t[j]) {
      assert t[i] in t && t[j] in t;
      var a :| 0 <= a < |s| && s[a] == t[i];
      var b :| 0 <= b < |s| && s[b] == t[j];
      if a == b {
        Repeats(t, i, j);
        AtMostOnce(s, t[j], key);
      }
    }
  }

  lemma Repeats<T>(t: seq<T>, i: nat, j: nat)
    requires i < j < |t| && t[i] == t[j]
    ensures multiset(t)[t[j]] >= 2
  {
    assert t == t[..j] + [t[j]] + t[j + 1..];
    assert t[i] in multiset(t[..j]) by { assert t[i] in t[..j]; }
  }

  lemma {:induction false} AtMostOnce<T>(s: seq<T>, x: T, key: T -> string)
    requires DistinctBy(s, key)
    ensures multiset(s)[x] <= 1
  {
    if s != [] {
      AtMostOnce(s[1..], x, key);
      assert s == [s[0]] + s[1..];
      if x == s[0] {
        assert x !in s[1..] by {
          assert forall i :: 0 < i < |s| ==> key(s[0]) != key(s[i]);
        }
      }
    }
  }

  /** uniqueStrings: first occurrences, without the empty string. */
  function UniqueFrom(s: seq<string>, seen: set<string>): seq<string> {
    if s == [] then []
    else if s[0] == "" || s[0] in seen then UniqueFrom(s[1..], seen)
    else [s[0]] + UniqueFrom(s[1..], seen + {s[0]})
  }

  function Unique(s: seq<string>): seq<string> {
    UniqueFrom(s, {})
  }

  method UniqueStrings(values: seq<string>) returns (out: seq<string>)
    ensures out == Unique(values)
  {
    var seen: set<string> := {};
    out := [];
    for i := 0 to |values|
      invariant Unique(values) == out + UniqueFrom(values[i..], seen)
    {
      if values[i] == "" || values[i] in seen {
        continue;
      }
      seen := seen + {values[i]};
      out := out + [values[i]];
    }
  }

  /** Exactly the non-empty strings survive, each once. */
  lemma {:induction false} UniqueFromProps(s: seq<string>, seen: set<string>)
    ensures forall x :: x in UniqueFrom(s, seen) <==> x in s && x != "" && x !in seen
    ensures DistinctBy(UniqueFrom(s, seen), Identity)
  {
    if s != [] {
      UniqueFromProps(s[1..], seen);
      UniqueFromProps(s[1..], seen + {s[0]});
      assert s == [s[0]] + s[1..];
    }
  }

  lemma {:induction false} UniqueFromSnoc(s: seq<string>, x: string, seen: set<string>)
    ensures UniqueFrom(s + [x], seen) == UniqueFrom(s, seen) + if x == "" || x in s || x in seen then [] else [x]
  {
    var t := s + [x];
    if s != [] {
      assert t[0] == s[0] && t[1..] == s[1..] + [x] && s == [s[0]] + s[1..];
      UniqueFromSnoc(s[1..], x, seen);
      UniqueFromSnoc(s[1..], x, seen + {s[0]});
    } else {
      assert t == [x] && t[1..] == [];
    }
  }

  /** One more value is kept at the end, unless it is empty or was there before. */
  lemma UniqueExact(s: seq<string>, x: string)
    ensures Unique([]) == []
    ensures Unique(s + [x]) == Unique(s) + if x == "" || x in s then [] else [x]
  {
    UniqueFromSnoc(s, x, {});
  }

  lemma {:induction false} UniqueFromFixed(s: seq<string>, seen: set<string>)
    requires DistinctBy(s, Identity) && forall x :: x in s ==> x != "" && x !in seen
    ensures UniqueFrom(s, seen) == s
  {
    if s != [] {
      forall x | x in s[1..] ensures x in s && x != s[0] {
        assert forall i :: 0 < i < |s| ==> Identity(s[0]) != Identity(s[i]);
      }
      assert s[0] in s;
      UniqueFromFixed(s[1..], seen + {s[0]});
    }
  }

  lemma UniqueIdempotent(s: seq<string>)
    ensures Unique(Unique(s)) == Unique(s)
  {
    UniqueFromProps(s, {});
    UniqueFromFixed(Unique(s), {});
  }
}
