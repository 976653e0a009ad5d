/** A desired VIP that service_intent.go never finds settled. */
module ServiceVipSpelling {
  import opened Options
  import opened Text
  import opened ServiceVips

  /** Two spellings of one endpoint, and another endpoint. */
  function TwoSpellings(t: string): Option<string> {
    if t == "a:1" || t == "A:1" then Some("a:1") else if t == "b:2" then Some("b:2") else None
  }

  /** For example: an endpoint desired in a spelling that is not the canonical one is written
      and read back differently, so every diff finds it again. */
  lemma OtherSpellingNeverSettles()
    ensures CanonLaws(TwoSpellings)
    ensures var desired := [Vip("A:1", ["b:2"])]; var after := Reconciled(map[], [], desired);
      && ValidDesired(TwoSpellings, desired) && Enumerates(["A:1"], after)
      && Comparable(FromKeys(TwoSpellings, ["A:1"], after)) != Comparable(desired)
  {
    var desired := [Vip("A:1", ["b:2"])];
    var none: map<string, string> := map[];
    var after := Reconciled(none, [], desired);
    assert desired[..0] == [] && Comparable(desired) == map["A:1" := SortStrings(["b:2"])];
    assert FromKeys(TwoSpellings, [], none) == [];
    assert after.Keys == {"A:1"};
    assert "A:1" != "a:1" by { assert "A:1"[0] != "a:1"[0]; }
    assert Enumerates([], none) && ReadableStore(TwoSpellings, none);
    assert !CanonicalVip(TwoSpellings, desired[0]);
    VipsConverge(TwoSpellings, none, [], desired, ["A:1"]);
  }
}
