/** Reconciling the VIPs of a load balancer (service_intent.go): the stale keys are
    deleted first because an OVSDB map insert keeps the entries that are there.

    Every function concerned looks at addresses only through their "host:port" text, so an
    endpoint is that text; `canon` stands for parsing one and printing it again. */
module ServiceVips {
  import opened Options
  import opened Text
  import Ovsdb

  type Canon = string -> Option<string>

  /** An endpoint that parses has no comma, and printing it again is stable. */
  ghost predicate CanonLaws(canon: Canon) {
    forall t :: canon(t).Some? ==>
      && t != "" && ',' !in t && canon(t).value != "" && ',' !in canon(t).value
      && canon(canon(t).value) == canon(t)
  }

  predicate IsCanonical(canon: Canon, t: string) {
    canon(t) == Some(t)
  }

  datatype Vip = Vip(endpoint: string, backends: seq<string>)

  // ----- reading the stored map

  function CanonAll(canon: Canon, ts: seq<string>): Option<seq<string>> {
    if ts == [] then Some([])
    else match (canon(ts[0]), CanonAll(canon, ts[1..]))
      case (Some(t), Some(rest)) => Some([t] + rest)
      case (_, _) => None
  }

  /** parseServiceVIP on one entry. */
  function VipOf(canon: Canon, key: string, raw: string): Option<Vip> {
    match (canon(key), CanonAll(canon, Split(raw, ',')))
    case (Some(endpoint), Some(backends)) => Some(Vip(endpoint, backends))
    case (_, _) => None
  }

  /** serviceVIPsFromMap, for one order of the keys: what does not parse is skipped. */
  function FromKeys(canon: Canon, keys: seq<string>, stored: map<string, string>): seq<Vip>
    requires forall k :: k in keys ==> k in stored
  {
    if keys == [] then []
    else
      (match VipOf(canon, keys[0], stored[keys[0]]) case None => [] case Some(vip) => [vip])
      + FromKeys(canon, keys[1..], stored)
  }

  ghost predicate Enumerates(keys: seq<string>, stored: map<string, string>) {
    DistinctBy(keys, Identity) && forall k :: k in keys <==> k in stored
  }

  // ----- comparing

  /** serviceVIPComparable: sorted backends by endpoint, later entries win. */
  function Comparable(vips: seq<Vip>): map<string, seq<string>> {
    if vips == [] then map[]
    else
      var last := vips[|vips| - 1];
      Comparable(vips[..|vips| - 1])[last.endpoint := SortStrings(last.backends)]
  }

  method ServiceVIPComparable(vips: seq<Vip>) returns (out: map<string, seq<string>>)
    ensures out == Comparable(vips)
  {
    out := map[];
    for i := 0 to |vips|
      invariant out == Comparable(vips[..i])
    {
      assert vips[..i + 1][..i] == vips[..i];
      out := out[vips[i].endpoint := SortStrings(vips[i].backends)];
    }
    assert vips[..|vips|] == vips;
  }

  lemma {:induction false} ComparableIsFromList(vips: seq<Vip>, k: string)
    ensures k in Comparable(vips) <==> exists i :: 0 <= i < |vips| && vips[i].endpoint == k
    ensures k in Comparable(vips) ==>
      exists i :: 0 <= i < |vips| && vips[i].endpoint == k && Comparable(vips)[k] == SortStrings(vips[i].backends)
  {
    if vips != [] {
      var n := |vips| - 1;
      ComparableIsFromList(vips[..n], k);
      assert forall i :: 0 <= i < n ==> vips[..n][i] == vips[i];
      if k != vips[n].endpoint && k in Comparable(vips) {
        var i :| 0 <= i < n && vips[..n][i].endpoint == k && Comparable(vips[..n])[k] == SortStrings(vips[..n][i].backends);
        assert vips[i].endpoint == k;
      }
    }
  }

  function EndpointOf(v: Vip): string { v.endpoint }

  lemma ComparableAt(vips: seq<Vip>, i: nat)
    requires i < |vips| && DistinctBy(vips, EndpointOf)
    ensures vips[i].endpoint in Comparable(vips) && Comparable(vips)[vips[i].endpoint] == SortStrings(vips[i].backends)
  {
    ComparableIsFromList(vips, vips[i].endpoint);
    var j :| 0 <= j < |vips| && vips[j].endpoint == vips[i].endpoint &&
      Comparable(vips)[vips[i].endpoint] == SortStrings(vips[j].backends);
    assert EndpointOf(vips[i]) == EndpointOf(vips[j]);
  }

  // ----- writing

  /** A key whose stored entry has to go before the desired one is inserted. */
  predicate IsStale(k: string, have: map<string, seq<string>>, want: map<string, seq<string>>) {
    k in have && (k !in want || Join(have[k], ',') != Join(want[k], ','))
  }

  /** staleServiceVIPKeys. */
  method StaleServiceVIPKeys(current: seq<Vip>, desired: seq<Vip>) returns (remove: seq<string>)
    ensures forall k :: k in remove <==> IsStale(k, Comparable(current), Comparable(desired))
  {
    var want := ServiceVIPComparable(desired);
    var have := ServiceVIPComparable(current);
    var keys: set<string> := {};
    for i := 0 to |desired|
      invariant forall k :: k in keys <==> exists j :: 0 <= j < i && desired[j].endpoint == k
    {
      keys := keys + {desired[i].endpoint};
    }
    forall k ensures k in keys <==> k in want { ComparableIsFromList(desired, k); }
    forall k ensures k in have <==> exists i :: 0 <= i < |current| && current[i].endpoint == k {
      ComparableIsFromList(current, k);
    }
    remove := [];
    for i := 0 to |current|
      invariant forall k :: k in remove <==> IsStale(k, have, want) && exists j :: 0 <= j < i && current[j].endpoint == k
    {
      var key := current[i].endpoint;
      assert key in have;
      if key !in keys {
        remove := remove + [key];
        continue;
      }
      if Join(have[key], ',') != Join(want[key], ',') {
        remove := remove + [key];
      }
    }
    SortBySorts(remove, Identity);
    SameMembers(remove, SortStrings(remove));
    remove := SortStrings(remove);
  }

  /** The entries that reconcileOVSDB inserts: WithVIP(vip.String(), vip.BackendsString()). */
  function DesiredEntries(desired: seq<Vip>): map<string, string> {
    map k | k in Comparable(desired) :: Join(Comparable(desired)[k], ',')
  }

  ghost function StaleSet(have: map<string, seq<string>>, want: map<string, seq<string>>): set<string> {
    set k | k in have && IsStale(k, have, want)
  }

  /** The stored map after deleteStaleVIPs and the insert mutation. */
  ghost function Reconciled(stored: map<string, string>, current: seq<Vip>, desired: seq<Vip>): map<string, string> {
    Ovsdb.InsertEntries(
      Ovsdb.DeleteKeys(stored, StaleSet(Comparable(current), Comparable(desired))),
      DesiredEntries(desired))
  }

  // ----- convergence

  /** What service validation guarantees: everything parses, nothing is empty. */
  ghost predicate ValidDesired(canon: Canon, desired: seq<Vip>) {
    && DistinctBy(desired, EndpointOf)
    && forall i :: 0 <= i < |desired| ==>
         canon(desired[i].endpoint).Some? && desired[i].backends != [] &&
         forall b :: b in desired[i].backends ==> canon(b).Some?
  }

  ghost predicate CanonicalVip(canon: Canon, v: Vip) {
    IsCanonical(canon, v.endpoint) && forall b :: b in v.backends ==> IsCanonical(canon, b)
  }

  /** Stored entries parse and their keys are canonical. */
  ghost predicate ReadableStore(canon: Canon, stored: map<string, string>) {
    forall k :: k in stored ==> IsCanonical(canon, k) && VipOf(canon, k, stored[k]).Some?
  }

  lemma {:induction false} CanonAllProps(canon: Canon, ts: seq<string>)
    requires CanonLaws(canon) && CanonAll(canon, ts).Some?
    ensures var out := CanonAll(canon, ts).value;
      && |out| == |ts|
      && forall i :: 0 <= i < |out| ==> IsCanonical(canon, out[i]) && out[i] != "" && ',' !in out[i]
  {
    if ts != [] {
      CanonAllProps(canon, ts[1..]);
    }
  }

  lemma {:induction false} CanonAllFixed(canon: Canon, ts: seq<string>)
    requires forall t :: t in ts ==> IsCanonical(canon, t)
    ensures CanonAll(canon, ts) == Some(ts)
  {
    if ts != [] {
      assert ts[0] in ts;
      CanonAllFixed(canon, ts[1..]);
      assert ts == [ts[0]] + ts[1..];
    }
  }

  lemma {:induction false} FromKeysProps(canon: Canon, keys: seq<string>, stored: map<string, string>)
    requires CanonLaws(canon) && forall k :: k in keys ==> k in stored
    ensures forall i :: 0 <= i < |FromKeys(canon, keys, stored)| ==>
      CanonicalVip(canon, FromKeys(canon, keys, stored)[i])
  {
    if keys != [] {
      FromKeysProps(canon, keys[1..], stored);
      if VipOf(canon, keys[0], stored[keys[0]]).Some? {
        CanonAllProps(canon, Split(stored[keys[0]], ','));
      }
    }
  }

  /** With readable entries, the VIPs read back are the entries themselves. */
  lemma FromKeysReadable(canon: Canon, keys: seq<string>, stored: map<string, string>)
    requires forall k :: k in keys ==> k in stored && IsCanonical(canon, k) && VipOf(canon, k, stored[k]).Some?
    requires DistinctBy(keys, Identity)
    ensures var vips := FromKeys(canon, keys, stored);
      && |vips| == |keys|
      && (forall i :: 0 <= i < |keys| ==> vips[i] == VipOf(canon, keys[i], stored[keys[i]]).value && vips[i].endpoint == keys[i])
      && DistinctBy(vips, EndpointOf)
  {
    FromKeysEach(canon, keys, stored);
    var vips := FromKeys(canon, keys, stored);
    forall i, j | 0 <= i < j < |vips| ensures EndpointOf(vips[i]) != EndpointOf(vips[j]) {
      assert Identity(keys[i]) != Identity(keys[j]);
    }
  }

  lemma {:induction false} FromKeysEach(canon: Canon, keys: seq<string>, stored: map<string, string>)
    requires forall k :: k in keys ==> k in stored && IsCanonical(canon, k) && VipOf(canon, k, stored[k]).Some?
    ensures var vips := FromKeys(canon, keys, stored);
      && |vips| == |keys|
      && (forall i :: 0 <= i < |keys| ==> vips[i] == VipOf(canon, keys[i], stored[keys[i]]).value && vips[i].endpoint == keys[i])
  {
    if keys != [] {
      assert keys[0] in keys;
      FromKeysEach(canon, keys[1..], stored);
    }
  }

  /** The comparable form of a readable store, entry by entry. */
  lemma ComparableOfStore(canon: Canon, keys: seq<string>, stored: map<string, string>, k: string)
    requires Enumerates(keys, stored) && ReadableStore(canon, stored)
    ensures var have := Comparable(FromKeys(canon, keys, stored));
      && (k in have <==> k in stored)
      && (k in stored ==> have[k] == SortStrings(VipOf(canon, k, stored[k]).value.backends))
  {
    FromKeysReadable(canon, keys, stored);
    var vips := FromKeys(canon, keys, stored);
    ComparableIsFromList(vips, k);
    if k in stored {
      var i :| 0 <= i < |keys| && keys[i] == k;
      ComparableAt(vips, i);
    }
  }

  lemma JoinInjective(a: seq<string>, b: seq<string>)
    requires a != [] && b != []
    requires (forall i :: 0 <= i < |a| ==> ',' !in a[i]) && (forall i :: 0 <= i < |b| ==> ',' !in b[i])
    ensures Join(a, ',') == Join(b, ',') ==> a == b
  {
    SplitJoin(a, ',');
    SplitJoin(b, ',');
  }

  lemma SortMembers(s: seq<string>)
    ensures multiset(SortStrings(s)) == multiset(s) && |SortStrings(s)| == |s|
    ensures forall x :: x in SortStrings(s) <==> x in s
  {
    SortBySorts(s, Identity);
    SameMembers(SortStrings(s), s);
  }

  /** Reading back a freshly written entry of canonical backends. */
  lemma WrittenEntry(canon: Canon, k: string, backends: seq<string>)
    requires CanonLaws(canon) && IsCanonical(canon, k) && backends != []
    requires forall b :: b in backends ==> IsCanonical(canon, b)
    ensures VipOf(canon, k, Join(SortStrings(backends), ',')) == Some(Vip(k, SortStrings(backends)))
  {
    var sorted := SortStrings(backends);
    SortMembers(backends);
    forall i | 0 <= i < |sorted| ensures ',' !in sorted[i] {
      assert sorted[i] in sorted;
      assert IsCanonical(canon, sorted[i]);
    }
    SplitJoin(sorted, ',');
    CanonAllFixed(canon, sorted);
  }

  lemma SortTwice(s: seq<string>)
    ensures SortStrings(SortStrings(s)) == SortStrings(s)
  {
    SortMembers(s);
    SortStringsCanonical(SortStrings(s), s);
  }

  /** An entry that is not stale already has the desired backends. */
  lemma KeptBackends(canon: Canon, k: string, raw: string, backends: seq<string>)
    requires CanonLaws(canon) && VipOf(canon, k, raw).Some? && backends != []
    requires forall b :: b in backends ==> IsCanonical(canon, b)
    ensures var kept := VipOf(canon, k, raw).value.backends;
      Join(SortStrings(kept), ',') == Join(SortStrings(backends), ',') ==> SortStrings(kept) == SortStrings(backends)
  {
    var kept := VipOf(canon, k, raw).value.backends;
    CanonAllProps(canon, Split(raw, ','));
    SortMembers(kept);
    SortMembers(backends);
    forall x | x in SortStrings(kept) ensures ',' !in x {
      var j :| 0 <= j < |kept| && kept[j] == x;
    }
    forall x | x in SortStrings(backends) ensures ',' !in x {
      assert IsCanonical(canon, x);
    }
    JoinInjective(SortStrings(kept), SortStrings(backends));
  }

  /** One desired VIP after the reconcile: readable, with the desired backends. */
  lemma DesiredEntryConverges(canon: Canon, stored: map<string, string>, keys: seq<string>, desired: seq<Vip>, i: nat)
    requires CanonLaws(canon) && Enumerates(keys, stored) && ReadableStore(canon, stored) && ValidDesired(canon, desired)
    requires i < |desired| && CanonicalVip(canon, desired[i])
    ensures var after := Reconciled(stored, FromKeys(canon, keys, stored), desired); var k := desired[i].endpoint;
      && k in after && VipOf(canon, k, after[k]).Some?
      && SortStrings(VipOf(canon, k, after[k]).value.backends) == SortStrings(desired[i].backends)
  {
    var k, backends := desired[i].endpoint, desired[i].backends;
    var have, want := Comparable(FromKeys(canon, keys, stored)), Comparable(desired);
    ComparableAt(desired, i);
    ComparableOfStore(canon, keys, stored, k);
    WrittenEntry(canon, k, backends);
    SortTwice(backends);
    if k in stored && !IsStale(k, have, want) {
      KeptBackends(canon, k, stored[k], backends);
    }
  }

  /** The desired VIP and the stored text name the same backends, in whatever order. */
  ghost predicate SameBackends(canon: Canon, v: Vip, raw: string) {
    VipOf(canon, v.endpoint, raw).Some? && multiset(v.backends) == multiset(VipOf(canon, v.endpoint, raw).value.backends)
  }

  lemma SameBackendsExact(canon: Canon, v: Vip, raw: string)
    requires CanonLaws(canon) && VipOf(canon, v.endpoint, raw).Some? && v.backends != []
    requires forall b :: b in v.backends ==> IsCanonical(canon, b)
    ensures SameBackends(canon, v, raw) <==>
      Join(SortStrings(VipOf(canon, v.endpoint, raw).value.backends), ',') == Join(SortStrings(v.backends), ',')
  {
    var kept := VipOf(canon, v.endpoint, raw).value.backends;
    KeptBackends(canon, v.endpoint, raw, v.backends);
    SortMembers(kept);
    SortMembers(v.backends);
    if multiset(v.backends) == multiset(kept) {
      SortStringsCanonical(v.backends, kept);
    }
  }

  /** A stored entry of a desired VIP is stale exactly when it names other backends.  Then it
      is written anew, with the backends in order; otherwise its text stays as it is. */
  lemma StaleExactly(canon: Canon, stored: map<string, string>, keys: seq<string>, desired: seq<Vip>, i: nat)
    requires CanonLaws(canon) && Enumerates(keys, stored) && ReadableStore(canon, stored) && ValidDesired(canon, desired)
    requires i < |desired| && CanonicalVip(canon, desired[i])
    ensures var have, want, k := Comparable(FromKeys(canon, keys, stored)), Comparable(desired), desired[i].endpoint;
      IsStale(k, have, want) <==> k in stored && !SameBackends(canon, desired[i], stored[k])
    ensures var after, k := Reconciled(stored, FromKeys(canon, keys, stored), desired), desired[i].endpoint;
      && k in after
      && after[k] == if k in stored && SameBackends(canon, desired[i], stored[k]) then stored[k]
                     else Join(SortStrings(desired[i].backends), ',')
  {
    var k := desired[i].endpoint;
    ComparableAt(desired, i);
    ComparableOfStore(canon, keys, stored, k);
    if k in stored {
      SameBackendsExact(canon, desired[i], stored[k]);
    }
  }

  /** Every stored entry that no desired VIP has the endpoint of is stale. */
  lemma UndesiredIsStale(canon: Canon, stored: map<string, string>, keys: seq<string>, desired: seq<Vip>, k: string)
    requires Enumerates(keys, stored) && ReadableStore(canon, stored)
    requires k in stored && forall i :: 0 <= i < |desired| ==> desired[i].endpoint != k
    ensures IsStale(k, Comparable(FromKeys(canon, keys, stored)), Comparable(desired))
    ensures k !in Reconciled(stored, FromKeys(canon, keys, stored), desired)
  {
    ComparableOfStore(canon, keys, stored, k);
    ComparableIsFromList(desired, k);
    ReconciledKeys(canon, stored, keys, desired);
  }

  lemma ReconciledKeys(canon: Canon, stored: map<string, string>, keys: seq<string>, desired: seq<Vip>)
    requires Enumerates(keys, stored) && ReadableStore(canon, stored)
    ensures Reconciled(stored, FromKeys(canon, keys, stored), desired).Keys == Comparable(desired).Keys
  {
    var have, want := Comparable(FromKeys(canon, keys, stored)), Comparable(desired);
    forall k | k in stored && k !in want ensures k in StaleSet(have, want) {
      ComparableOfStore(canon, keys, stored, k);
    }
  }

  /** The reconcile converges: for any readable store and any valid desired VIPs, what is
      read back afterwards has exactly the desired endpoints with the desired backends, so
      the VIP diff is empty, if and only if the desired endpoints and backends are written
      canonically. */
  lemma VipsConverge(
      canon: Canon, stored: map<string, string>, keys: seq<string>, desired: seq<Vip>, afterKeys: seq<string>)
    requires CanonLaws(canon) && Enumerates(keys, stored) && ReadableStore(canon, stored) && ValidDesired(canon, desired)
    requires Enumerates(afterKeys, Reconciled(stored, FromKeys(canon, keys, stored), desired))
    ensures var after := Reconciled(stored, FromKeys(canon, keys, stored), desired);
      Comparable(FromKeys(canon, afterKeys, after)) == Comparable(desired) <==>
      forall i :: 0 <= i < |desired| ==> CanonicalVip(canon, desired[i])
  {
    var after := Reconciled(stored, FromKeys(canon, keys, stored), desired);
    var back := Comparable(FromKeys(canon, afterKeys, after));
    if forall i :: 0 <= i < |desired| ==> CanonicalVip(canon, desired[i]) {
      ConvergesWhenCanonical(canon, stored, keys, desired, afterKeys);
    } else if back == Comparable(desired) {
      forall i | 0 <= i < |desired| ensures CanonicalVip(canon, desired[i]) {
        ReadBackIsCanonical(canon, afterKeys, after, desired, i);
      }
    }
  }

  lemma ConvergesWhenCanonical(
      canon: Canon, stored: map<string, string>, keys: seq<string>, desired: seq<Vip>, afterKeys: seq<string>)
    requires CanonLaws(canon) && Enumerates(keys, stored) && ReadableStore(canon, stored) && ValidDesired(canon, desired)
    requires Enumerates(afterKeys, Reconciled(stored, FromKeys(canon, keys, stored), desired))
    requires forall i :: 0 <= i < |desired| ==> CanonicalVip(canon, desired[i])
    ensures var after := Reconciled(stored, FromKeys(canon, keys, stored), desired);
      Comparable(FromKeys(canon, afterKeys, after)) == Comparable(desired)
  {
    var after := Reconciled(stored, FromKeys(canon, keys, stored), desired);
    ReconciledKeys(canon, stored, keys, desired);
    forall k | k in after ensures EntryConverged(canon, after, Comparable(desired), k) {
      AfterEntry(canon, stored, keys, desired, k);
    }
    ConvergedReadsBack(canon, after, Comparable(desired), afterKeys);
  }

  /** Reading the entry back gives what was wanted for it. */
  ghost predicate EntryConverged(canon: Canon, after: map<string, string>, want: map<string, seq<string>>, k: string)
    requires k in after
  {
    && IsCanonical(canon, k) && VipOf(canon, k, after[k]).Some?
    && k in want && SortStrings(VipOf(canon, k, after[k]).value.backends) == want[k]
  }

  lemma ConvergedReadsBack(
      canon: Canon, after: map<string, string>, want: map<string, seq<string>>, afterKeys: seq<string>)
    requires Enumerates(afterKeys, after) && after.Keys == want.Keys
    requires forall k :: k in after ==> EntryConverged(canon, after, want, k)
    ensures Comparable(FromKeys(canon, afterKeys, after)) == want
  {
    var back := Comparable(FromKeys(canon, afterKeys, after));
    assert ReadableStore(canon, after) by {
      assert forall k :: k in after ==> EntryConverged(canon, after, want, k);
    }
    forall k ensures (k in back <==> k in want) && (k in want ==> back[k] == want[k]) {
      ComparableOfStore(canon, afterKeys, after, k);
    }
  }

  lemma AfterEntry(canon: Canon, stored: map<string, string>, keys: seq<string>, desired: seq<Vip>, k: string)
    requires CanonLaws(canon) && Enumerates(keys, stored) && ReadableStore(canon, stored) && ValidDesired(canon, desired)
    requires forall i :: 0 <= i < |desired| ==> CanonicalVip(canon, desired[i])
    requires k in Reconciled(stored, FromKeys(canon, keys, stored), desired)
    ensures var after := Reconciled(stored, FromKeys(canon, keys, stored), desired);
      && IsCanonical(canon, k) && VipOf(canon, k, after[k]).Some? && k in Comparable(desired)
      && SortStrings(VipOf(canon, k, after[k]).value.backends) == Comparable(desired)[k]
  {
    ReconciledKeys(canon, stored, keys, desired);
    ComparableIsFromList(desired, k);
    var i :| 0 <= i < |desired| && desired[i].endpoint == k;
    ComparableAt(desired, i);
    DesiredEntryConverges(canon, stored, keys, desired, i);
  }

  lemma ReadBackIsCanonical(canon: Canon, keys: seq<string>, store: map<string, string>, desired: seq<Vip>, i: nat)
    requires CanonLaws(canon) && (forall k :: k in keys ==> k in store) && ValidDesired(canon, desired) && i < |desired|
    requires Comparable(FromKeys(canon, keys, store)) == Comparable(desired)
    ensures CanonicalVip(canon, desired[i])
  {
    var vips, k := FromKeys(canon, keys, store), desired[i].endpoint;
    FromKeysProps(canon, keys, store);
    ComparableAt(desired, i);
    ComparableIsFromList(vips, k);
    var j :| 0 <= j < |vips| && vips[j].endpoint == k && Comparable(vips)[k] == SortStrings(vips[j].backends);
    SortMembers(vips[j].backends);
    SortMembers(desired[i].backends);
    forall b | b in desired[i].backends ensures IsCanonical(canon, b) {
      assert b in SortStrings(vips[j].backends);
    }
  }
}
