/** Address arithmetic of ipam.go: 32-bit words, IPv4 prefixes and the merging of
    blocked ranges.  Every machine operation that could wrap is written out. */
module IpamRanges {

  const WORD_LIMIT := 0x1_0000_0000
  const LONG_LIMIT := 0x1_0000_0000_0000_0000

  type Word = x: int | 0 <= x < WORD_LIMIT
  type Bits = n: nat | n <= 32

  function Pow2(n: nat): (p: nat)
    ensures p >= 1
  {
    if n == 0 then 1 else 2 * Pow2(n - 1)
  }

  /** A netip.Prefix that has been through Masked(). */
  datatype Prefix = Prefix(addr: Word, bits: Bits)
  {
    /** 1 << hostBits, computed in 64 bits by the source. */
    function Size(): nat { Pow2(32 - bits) }

    ghost predicate IsMasked() { addr % Size() == 0 }

    /** netip.Prefix.Contains: the leading `bits` bits agree. */
    predicate Contains(ip: int) { ip / Size() == addr / Size() }
  }

  /** prefixRange, with the 32-bit truncation and addition of the source. */
  function PrefixRange(p: Prefix): (Word, Word) {
    (p.addr, (p.addr + (p.Size() - 1) % WORD_LIMIT) % WORD_LIMIT)
  }

  /** usableRange: `end-start+1` wraps to zero for a /0. */
  function UsableRange(p: Prefix): (Word, Word) {
    var (start, end) := PrefixRange(p);
    if (end - start + 1) % WORD_LIMIT <= 2 then (1, 0)
    else ((start + 1) % WORD_LIMIT, (end - 1) % WORD_LIMIT)
  }

  function PrefixesOverlap(a: Prefix, b: Prefix): bool {
    var (aStart, aEnd) := PrefixRange(a);
    var (bStart, bEnd) := PrefixRange(b);
    aStart <= bEnd && bStart <= aEnd
  }

  lemma ModBound(a: nat, n: nat)
    requires n > 0
    ensures 0 <= a % n <= a
  {}

  function Mask(addr: Word, bits: Bits): Prefix {
    ModBound(addr, Pow2(32 - bits));
    Prefix(addr - addr % Pow2(32 - bits), bits)
  }

  lemma {:induction false} Pow2Split(m: nat, n: nat)
    ensures Pow2(m + n) == Pow2(m) * Pow2(n)
  {
    if m > 0 {
      Pow2Split(m - 1, n);
    }
  }

  lemma {:induction false} Pow2Monotone(m: nat, n: nat)
    requires m <= n
    ensures Pow2(m) <= Pow2(n)
  {
    if m < n {
      Pow2Monotone(m, n - 1);
    }
  }

  lemma Pow2Word()
    ensures Pow2(32) == WORD_LIMIT
  {
    assert Pow2(8) == 256;
    Pow2Split(8, 8);
    Pow2Split(16, 16);
  }

  lemma MulAtMost(q: int, k: int, s: int)
    requires q < k && s >= 0
    ensures q * s + s <= k * s
  {
    assert k * s == (q + 1) * s + (k - q - 1) * s;
  }

  lemma QuotientBounds(x: int, s: int)
    requires s > 0
    ensures x / s * s <= x < x / s * s + s
  {}

  lemma QuotientUnique(x: int, s: int, q: int)
    requires s > 0 && q * s <= x < q * s + s
    ensures x / s == q
  {
    QuotientBounds(x, s);
    if x / s < q {
      MulAtMost(x / s, q, s);
    } else if q < x / s {
      MulAtMost(q, x / s, s);
    }
  }

  /** An aligned block below the limit ends at or below it. */
  lemma AlignedBlockFits(addr: int, size: int, count: int)
    requires size > 0 && addr % size == 0 && 0 <= addr < count * size
    ensures addr == addr / size * size && addr + size <= count * size
  {
    var q := addr / size;
    QuotientBounds(addr, size);
    if q >= count {
      MulAtMost(count - 1, q, size);
    }
    MulAtMost(q, count, size);
  }

  lemma SameQuotient(addr: int, ip: int, size: int)
    requires size > 0 && addr == addr / size * size
    ensures ip / size == addr / size <==> addr <= ip < addr + size
  {
    QuotientBounds(ip, size);
    if addr <= ip < addr + size {
      QuotientUnique(ip, size, addr / size);
    }
  }

  lemma SizeFits(p: Prefix)
    requires p.IsMasked()
    ensures p.Size() <= WORD_LIMIT && p.addr + p.Size() <= WORD_LIMIT
    ensures p.addr == p.addr / p.Size() * p.Size()
  {
    Pow2Word();
    Pow2Split(p.bits, 32 - p.bits);
    AlignedBlockFits(p.addr, p.Size(), Pow2(p.bits));
  }

  lemma NoWrap(x: int)
    requires 0 <= x < WORD_LIMIT
    ensures x % WORD_LIMIT == x
  {}

  /** A masked prefix spans exactly the addresses it contains; nothing wraps. */
  lemma PrefixRangeExact(p: Prefix)
    requires p.IsMasked()
    ensures PrefixRange(p) == (p.addr, p.addr + p.Size() - 1)
    ensures forall ip: int :: p.Contains(ip) <==> PrefixRange(p).0 <= ip <= PrefixRange(p).1
  {
    SizeFits(p);
    NoWrap(p.Size() - 1);
    NoWrap(p.addr + p.Size() - 1);
    forall ip: int
      ensures p.Contains(ip) <==> PrefixRange(p).0 <= ip <= PrefixRange(p).1
    {
      SameQuotient(p.addr, ip, p.Size());
    }
  }

  lemma MaskIsMasked(addr: Word, bits: Bits)
    ensures Mask(addr, bits).IsMasked()
  {
    var s := Pow2(32 - bits);
    QuotientBounds(addr, s);
    assert addr - addr % s == addr / s * s;
    QuotientUnique(addr / s * s, s, addr / s);
  }

  /** prefix.Masked() clears the host bits and keeps the others: the same block of addresses. */
  lemma MaskExact(addr: Word, bits: Bits)
    ensures Mask(addr, bits).bits == bits && Mask(addr, bits).IsMasked()
    ensures Mask(addr, bits).addr / Pow2(32 - bits) == addr / Pow2(32 - bits)
    ensures Mask(addr, bits).addr % Pow2(32 - bits) == 0
    ensures forall ip: int :: Mask(addr, bits).Contains(ip) <==> ip / Pow2(32 - bits) == addr / Pow2(32 - bits)
  {
    MaskIsMasked(addr, bits);
    var s := Pow2(32 - bits);
    QuotientBounds(addr, s);
    assert addr - addr % s == addr / s * s;
    QuotientUnique(addr / s * s, s, addr / s);
  }

  /** Two masked prefixes are found to overlap exactly when they share an address. */
  lemma PrefixesOverlapExact(a: Prefix, b: Prefix)
    requires a.IsMasked() && b.IsMasked()
    ensures PrefixesOverlap(a, b) <==> exists ip: int :: a.Contains(ip) && b.Contains(ip)
  {
    PrefixRangeExact(a);
    PrefixRangeExact(b);
    if PrefixesOverlap(a, b) {
      var ip: int := if a.addr < b.addr then b.addr else a.addr;
      assert a.Contains(ip) && b.Contains(ip);
    }
  }

  lemma SizeByBits(p: Prefix)
    ensures p.bits == 0 ==> p.Size() == WORD_LIMIT
    ensures 1 <= p.bits <= 30 ==> 4 <= p.Size() <= 0x8000_0000
    ensures p.bits > 30 ==> 1 <= p.Size() <= 2
  {
    Pow2Word();
    if 1 <= p.bits <= 30 {
      Pow2Monotone(2, 32 - p.bits);
      Pow2Monotone(32 - p.bits, 31);
    } else if p.bits > 30 {
      Pow2Monotone(32 - p.bits, 1);
    }
  }

  /** Exactly the prefixes /1 to /30 have usable addresses: the network and the
      broadcast address are taken off, /31 and /32 have nothing left and a /0 wraps. */
  lemma UsableRangeExact(p: Prefix)
    requires p.IsMasked()
    ensures UsableRange(p).0 <= UsableRange(p).1 <==> 1 <= p.bits <= 30
    ensures 1 <= p.bits <= 30 ==> UsableRange(p) == (p.addr + 1, p.addr + p.Size() - 2)
    ensures UsableRange(p).0 <= UsableRange(p).1 ==>
              UsableRange(p).1 - UsableRange(p).0 + 1 <= 0x7fff_fffe
  {
    PrefixRangeExact(p);
    SizeByBits(p);
    SizeFits(p);
    if p.bits != 0 {
      NoWrap(p.Size());
      if p.bits <= 30 {
        NoWrap(p.addr + 1);
        NoWrap(p.addr + p.Size() - 2);
      }
    }
  }

  // ----- blocked ranges

  datatype Range = Range(start: Word, end: Word)

  predicate RangeBefore(a: Range, b: Range) {
    if a.start == b.start then a.end < b.end else a.start < b.start
  }

  ghost predicate Covered(x: int, ranges: seq<Range>) {
    exists i :: 0 <= i < |ranges| && ranges[i].start <= x <= ranges[i].end
  }

  /** All ranges are non-empty and lie within [lo, hi]. */
  ghost predicate Within(ranges: seq<Range>, lo: int, hi: int) {
    forall i :: 0 <= i < |ranges| ==> lo <= ranges[i].start <= ranges[i].end <= hi
  }

  ghost predicate SortedRanges(ranges: seq<Range>) {
    forall i, j :: 0 <= i < j < |ranges| ==> !RangeBefore(ranges[j], ranges[i])
  }

  /** Sorted, disjoint and not even adjacent. */
  ghost predicate Separated(ranges: seq<Range>) {
    forall i, j :: 0 <= i < j < |ranges| ==> ranges[i].end + 1 < ranges[j].start
  }

  function InsertRange(r: Range, s: seq<Range>): seq<Range> {
    if s == [] || !RangeBefore(s[0], r) then [r] + s else [s[0]] + InsertRange(r, s[1..])
  }

  function SortRanges(s: seq<Range>): seq<Range> {
    if s == [] then [] else InsertRange(s[0], SortRanges(s[1..]))
  }

  lemma {:induction false} InsertRangeSorts(r: Range, s: seq<Range>)
    requires SortedRanges(s)
    ensures SortedRanges(InsertRange(r, s))
    ensures multiset(InsertRange(r, s)) == multiset(s) + multiset{r}
  {
    if s == [] || !RangeBefore(s[0], r) {
    } else {
      InsertRangeSorts(r, s[1..]);
      var t := InsertRange(r, s[1..]);
      assert s == [s[0]] + s[1..];
      forall j | 0 <= j < |t| ensures !RangeBefore(t[j], s[0]) {
        assert t[j] in multiset(t);
        assert t[j] == r || t[j] in s[1..];
      }
    }
  }

  /** sort.Slice on the blocked ranges: sorted by start, then end, and a permutation. */
  lemma {:induction false} SortRangesSorts(s: seq<Range>)
    ensures SortedRanges(SortRanges(s))
    ensures multiset(SortRanges(s)) == multiset(s)
  {
    if s != [] {
      SortRangesSorts(s[1..]);
      InsertRangeSorts(s[0], SortRanges(s[1..]));
      assert s == [s[0]] + s[1..];
    }
  }

  lemma SameMembersCoverTheSame(s: seq<Range>, t: seq<Range>, x: int)
    requires multiset(s) == multiset(t)
    ensures Covered(x, s) <==> Covered(x, t)
  {
    forall r | r in multiset(s) ensures r in s && r in t {}
    if Covered(x, s) {
      var i :| 0 <= i < |s| && s[i].start <= x <= s[i].end;
      assert s[i] in multiset(t);
    }
    if Covered(x, t) {
      var i :| 0 <= i < |t| && t[i].start <= x <= t[i].end;
      assert t[i] in multiset(s);
    }
  }

  lemma SortKeepsWithin(s: seq<Range>, lo: int, hi: int)
    requires Within(s, lo, hi)
    ensures Within(SortRanges(s), lo, hi)
  {
    SortRangesSorts(s);
    var t := SortRanges(s);
    forall i | 0 <= i < |t| ensures lo <= t[i].start <= t[i].end <= hi {
      assert t[i] in multiset(s);
    }
  }

  /** What the first k sorted ranges have been merged into. */
  ghost predicate MergedSoFar(merged: seq<Range>, sorted: seq<Range>, k: nat, lo: int, hi: int)
    requires 0 < k <= |sorted|
  {
    && 0 < |merged|
    && Within(merged, lo, hi) && Separated(merged)
    && merged[|merged| - 1].start <= sorted[k - 1].start
    && (forall x :: Covered(x, merged) <==> Covered(x, sorted[..k]))
  }

  /** mergeRanges: sort, then fold each range into the last merged one. */
  method MergeRanges(ranges: seq<Range>, ghost lo: int, ghost hi: int) returns (merged: seq<Range>)
    requires Within(ranges, lo, hi) && hi < WORD_LIMIT - 1
    ensures Within(merged, lo, hi) && Separated(merged)
    ensures forall x :: Covered(x, merged) <==> Covered(x, ranges)
  {
    if |ranges| == 0 {
      return [];
    }
    var sorted := SortRanges(ranges);
    SortRangesSorts(ranges);
    SortKeepsWithin(ranges, lo, hi);
    assert |sorted| == |multiset(ranges)|;
    merged := MergeSorted(sorted, lo, hi);
    forall x ensures Covered(x, merged) <==> Covered(x, ranges) {
      SameMembersCoverTheSame(sorted, ranges, x);
    }
  }

  /** The loop of mergeRanges.  `last.end + 1` is a 32-bit addition; the caller's
      bound keeps it from wrapping. */
  method MergeSorted(sorted: seq<Range>, ghost lo: int, ghost hi: int) returns (merged: seq<Range>)
    requires 0 < |sorted| && SortedRanges(sorted) && Within(sorted, lo, hi) && hi < WORD_LIMIT - 1
    ensures Within(merged, lo, hi) && Separated(merged)
    ensures forall x :: Covered(x, merged) <==> Covered(x, sorted)
  {
    merged := [sorted[0]];
    MergeStart(sorted, lo, hi);
    for k := 1 to |sorted|
      invariant MergedSoFar(merged, sorted, k, lo, hi)
    {
      MergeStepKeeps(merged, sorted, k, lo, hi);
      ghost var next := MergeStep(merged, sorted[k]);
      var last := merged[|merged| - 1];
      if sorted[k].start <= (last.end + 1) % WORD_LIMIT {
        if sorted[k].end > last.end {
          merged := merged[|merged| - 1 := last.(end := sorted[k].end)];
        }
      } else {
        merged := merged + [sorted[k]];
      }
      assert merged == next;
    }
    assert sorted[..|sorted|] == sorted;
  }

  lemma MergeStart(sorted: seq<Range>, lo: int, hi: int)
    requires 0 < |sorted| && Within(sorted, lo, hi)
    ensures MergedSoFar([sorted[0]], sorted, 1, lo, hi)
  {
    assert sorted[..1] == [sorted[0]];
  }

  function MergeStep(merged: seq<Range>, item: Range): seq<Range>
    requires 0 < |merged|
  {
    var n := |merged| - 1;
    var last := merged[n];
    if item.start > last.end + 1 then merged + [item]
    else if item.end > last.end then merged[n := last.(end := item.end)]
    else merged
  }

  lemma MergeStepKeeps(merged: seq<Range>, sorted: seq<Range>, k: nat, lo: int, hi: int)
    requires 0 < k < |sorted| && SortedRanges(sorted) && Within(sorted, lo, hi) && hi < WORD_LIMIT - 1
    requires MergedSoFar(merged, sorted, k, lo, hi)
    ensures merged[|merged| - 1].end + 1 < WORD_LIMIT
    ensures MergedSoFar(MergeStep(merged, sorted[k]), sorted, k + 1, lo, hi)
  {
    var n := |merged| - 1;
    var item := sorted[k];
    var after := MergeStep(merged, item);
    assert !RangeBefore(item, sorted[k - 1]);
    assert merged == merged[..n] + [merged[n]];
    assert sorted[..k + 1] == sorted[..k] + [item];
    forall x ensures Covered(x, after) <==> Covered(x, sorted[..k + 1]) {
      CoveredAppend(x, sorted[..k], item);
      CoveredAppend(x, merged[..n], merged[n]);
      if item.start > merged[n].end + 1 {
        CoveredAppend(x, merged, item);
      } else if item.end > merged[n].end {
        assert after == merged[..n] + [after[n]];
        CoveredAppend(x, merged[..n], after[n]);
      }
    }
  }

  lemma CoveredAppend(x: int, s: seq<Range>, r: Range)
    ensures Covered(x, s + [r]) <==> Covered(x, s) || r.start <= x <= r.end
  {
    var t := s + [r];
    if Covered(x, s) {
      var i :| 0 <= i < |s| && s[i].start <= x <= s[i].end;
      assert t[i] == s[i];
    }
    if r.start <= x <= r.end {
      assert t[|s|] == r;
    }
    if Covered(x, t) {
      var i :| 0 <= i < |t| && t[i].start <= x <= t[i].end;
      if i < |s| {
        assert s[i] == t[i];
      }
    }
  }

  // ----- counting

  function TotalSize(ranges: seq<Range>): int {
    if ranges == [] then 0
    else TotalSize(ranges[..|ranges| - 1]) +
         (ranges[|ranges| - 1].end - ranges[|ranges| - 1].start + 1)
  }

  ghost function Interval(lo: int, hi: int): (s: set<int>)
    ensures forall x :: x in s <==> lo <= x <= hi
    ensures |s| == if lo <= hi then hi - lo + 1 else 0
    decreases hi - lo
  {
    if lo > hi then {} else Interval(lo, hi - 1) + {hi}
  }

  ghost function CoveredSet(ranges: seq<Range>, lo: int, hi: int): set<int> {
    set x | x in Interval(lo, hi) && Covered(x, ranges)
  }

  lemma SubsetSize(a: set<int>, b: set<int>)
    requires a <= b
    ensures |b - a| == |b| - |a| && |a| <= |b|
  {
    assert b == a + (b - a);
  }

  lemma CoveredSetAppend(front: seq<Range>, last: Range, lo: int, hi: int)
    requires Within(front + [last], lo, hi) && Separated(front + [last])
    ensures CoveredSet(front + [last], lo, hi) == CoveredSet(front, lo, hi) + Interval(last.start, last.end)
    ensures CoveredSet(front, lo, hi) !! Interval(last.start, last.end)
    ensures Within(front, lo, hi) && Separated(front)
  {
    var ranges := front + [last];
    assert ranges[|front|] == last;
    assert forall i :: 0 <= i < |front| ==> front[i] == ranges[i];
    forall x ensures x in CoveredSet(ranges, lo, hi) <==> x in CoveredSet(front, lo, hi) || x in Interval(last.start, last.end) {
      CoveredAppend(x, front, last);
    }
    forall x | x in CoveredSet(front, lo, hi) ensures x < last.start {
      var i :| 0 <= i < |front| && front[i].start <= x <= front[i].end;
      assert ranges[i].end + 1 < ranges[|front|].start;
    }
  }

  /** The sizes of separated ranges add up to the number of addresses they cover. */
  lemma {:induction false} CoveredSetSize(ranges: seq<Range>, lo: int, hi: int)
    requires Within(ranges, lo, hi) && Separated(ranges)
    ensures |CoveredSet(ranges, lo, hi)| == TotalSize(ranges) <= |Interval(lo, hi)|
  {
    if ranges == [] {
      assert CoveredSet(ranges, lo, hi) == {};
    } else {
      var n := |ranges| - 1;
      assert ranges == ranges[..n] + [ranges[n]];
      CoveredSetAppend(ranges[..n], ranges[n], lo, hi);
      CoveredSetSize(ranges[..n], lo, hi);
    }
    SubsetSize(CoveredSet(ranges, lo, hi), Interval(lo, hi));
  }
}
