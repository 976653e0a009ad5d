/** EnsureBridgeMapping and DeleteBridgeMapping of ovs_runtime.go: they edit the same
    mapping text as provider networks do, without looking at the owner markers. */
module PlainMappings {
  import opened Text
  import opened BridgeMappings
  import opened MappingOwnership

  datatype PlainRequest = PlainEnsure(physicalNetwork: string, bridge: string) | PlainDelete(physicalNetwork: string, bridge: string)

  function Wanted(r: PlainRequest, m: Mappings): Mappings {
    if r.PlainEnsure? then m[r.physicalNetwork := r.bridge] else m - {r.physicalNetwork}
  }

  /** The checks of both operations. */
  predicate Allowed(r: PlainRequest, m: Mappings) {
    var current := Get(m, r.physicalNetwork);
    if r.PlainEnsure? then ValidPair(r.physicalNetwork, r.bridge) && (current == "" || current == r.bridge)
    else ValidName(r.physicalNetwork) && current != "" && (r.bridge == "" || current == r.bridge)
  }

  /** replaceBridgeMappings. */
  ghost function Replacing(m: Mappings): Edit {
    var text := Format(m);
    Change({MAPPINGS_KEY}, if text == "" then map[] else map[MAPPINGS_KEY := text])
  }

  ghost function PlainEdit(r: PlainRequest, ids: ExternalIDs): Edit {
    if !Mapped(ids).Ok? || !Allowed(r, Mapped(ids).value) then Refused
    else Replacing(Wanted(r, Mapped(ids).value))
  }

  /** EnsureBridgeMapping, up to the compare-and-swap. */
  method EnsureBridgeMapping(r: PlainRequest, ids: ExternalIDs) returns (edit: Edit)
    requires r.PlainEnsure?
    ensures edit == PlainEdit(r, ids)
  {
    if !ValidPair(r.physicalNetwork, r.bridge) {
      return Refused;
    }
    var parsed := ParseBridgeMappings(Get(ids, MAPPINGS_KEY));
    if !parsed.Ok? {
      return Refused;
    }
    var mappings := parsed.value;
    var current := Get(mappings, r.physicalNetwork);
    if current != "" && current != r.bridge {
      return Refused;
    }
    mappings := mappings[r.physicalNetwork := r.bridge];
    var text := FormatBridgeMappings(mappings);
    return Change({MAPPINGS_KEY}, if text != "" then map[MAPPINGS_KEY := text] else map[]);
  }

  /** DeleteBridgeMapping, up to the compare-and-swap. */
  method DeleteBridgeMapping(r: PlainRequest, ids: ExternalIDs) returns (edit: Edit)
    requires r.PlainDelete?
    ensures edit == PlainEdit(r, ids)
  {
    if !ValidName(r.physicalNetwork) {
      return Refused;
    }
    var parsed := ParseBridgeMappings(Get(ids, MAPPINGS_KEY));
    if !parsed.Ok? {
      return Refused;
    }
    var mappings := parsed.value;
    var current := Get(mappings, r.physicalNetwork);
    if current == "" {
      return Refused;
    }
    if r.bridge != "" && current != r.bridge {
      return Refused;
    }
    mappings := mappings - {r.physicalNetwork};
    var text := FormatBridgeMappings(mappings);
    return Change({MAPPINGS_KEY}, if text != "" then map[MAPPINGS_KEY := text] else map[]);
  }

  /** Either operation goes through exactly when the names can be written, the mapping text
      parses, and the network has no mapping yet or the one asked for; a delete needs one,
      and takes any when it is given no bridge. */
  lemma PlainSucceedsExactly(r: PlainRequest, ids: ExternalIDs)
    ensures PlainEdit(r, ids).Change? <==>
      && Trim(r.physicalNetwork) != "" && Mapped(ids).Ok?
      && if r.PlainDelete? then
           HasBridge(ids, r.physicalNetwork) && (r.bridge == "" || Mapped(ids).value[r.physicalNetwork] == r.bridge)
         else
           (&& Trim(r.bridge) != ""
            && ',' !in r.physicalNetwork && ':' !in r.physicalNetwork && ',' !in r.bridge && ':' !in r.bridge
            && (HasBridge(ids, r.physicalNetwork) ==> Mapped(ids).value[r.physicalNetwork] == r.bridge))
  {}

  predicate HasBridge(ids: ExternalIDs, p: string) {
    Mapped(ids).Ok? && p in Mapped(ids).value && Mapped(ids).value[p] != ""
  }

  /** For names without surrounding blanks: exactly the one mapping changes, and no marker
      or other external id. */
  lemma PlainEffect(encode: Encoding, r: PlainRequest, ids: ExternalIDs)
    requires Injective(encode) && PlainEdit(r, ids).Change?
    requires r.PlainEnsure? ==> CleanName(r.physicalNetwork) && CleanName(r.bridge)
    ensures var after := Apply(ids, PlainEdit(r, ids));
      && Mapped(after) == Ok(Wanted(r, Mapped(ids).value))
      && (forall key :: key != MAPPINGS_KEY ==> Get(after, key) == Get(ids, key))
      && (forall p :: Marker(encode, after, p) == Marker(encode, ids, p))
  {
    var edit := PlainEdit(r, ids);
    ParseIsClean(Get(ids, MAPPINGS_KEY));
    ParseFormat(Wanted(r, Mapped(ids).value));
    ApplyGet(ids, edit, MAPPINGS_KEY);
    forall key | key != MAPPINGS_KEY ensures Get(Apply(ids, edit), key) == Get(ids, key) {
      ApplyGet(ids, edit, key);
    }
    forall p ensures Marker(encode, Apply(ids, edit), p) == Marker(encode, ids, p) {
      MarkerKeysDiffer(encode, p, p);
    }
  }

  /** Every marked physical network has a mapping. */
  ghost predicate MarkedIsMapped(encode: Encoding, ids: ExternalIDs) {
    Mapped(ids).Ok? && forall p :: Marker(encode, ids, p) != "" ==> p in Mapped(ids).value
  }

  /** The ownership invariant survives such an edit exactly when it does not delete the
      mapping of a marked physical network. */
  lemma PlainKeepsMarkedExactly(encode: Encoding, r: PlainRequest, ids: ExternalIDs)
    requires Injective(encode) && MarkedIsMapped(encode, ids) && PlainEdit(r, ids).Change?
    requires r.PlainEnsure? ==> CleanName(r.physicalNetwork) && CleanName(r.bridge)
    ensures MarkedIsMapped(encode, Apply(ids, PlainEdit(r, ids))) <==>
      !(r.PlainDelete? && Marker(encode, ids, r.physicalNetwork) != "")
  {
    PlainEffect(encode, r, ids);
    MarkedAfter(encode, r, ids, Apply(ids, PlainEdit(r, ids)));
  }

  lemma MarkedAfter(encode: Encoding, r: PlainRequest, ids: ExternalIDs, after: ExternalIDs)
    requires MarkedIsMapped(encode, ids) && Mapped(after) == Ok(Wanted(r, Mapped(ids).value))
    requires forall p :: Marker(encode, after, p) == Marker(encode, ids, p)
    ensures MarkedIsMapped(encode, after) <==> !(r.PlainDelete? && Marker(encode, ids, r.physicalNetwork) != "")
  {
    if r.PlainDelete? && MarkedIsMapped(encode, after) {
      assert r.physicalNetwork !in Mapped(after).value;
      assert Marker(encode, after, r.physicalNetwork) == "";
    }
  }

  function OneMarked(encode: Encoding, text: string): ExternalIDs {
    map[MAPPINGS_KEY := text, MarkerKey(encode, "p") := "n"]
  }

  lemma OneMarkedIsMapped(encode: Encoding, text: string, m: Mappings)
    requires Injective(encode) && Parse(text) == Ok(m) && "p" in m
    ensures var ids := OneMarked(encode, text);
      MarkedIsMapped(encode, ids) && Mapped(ids) == Ok(m) && Marker(encode, ids, "p") == "n"
  {
    forall q ensures Marker(encode, OneMarked(encode, text), q) != "" ==> q == "p" {
      MarkerKeysDiffer(encode, q, "p");
    }
    MarkerKeysDiffer(encode, "p", "p");
  }

  /** For example: deleting the only mapping while it is marked.  ParseFormat gives a text. */
  lemma DeleteStrandsMarker(encode: Encoding, text: string)
    requires Injective(encode) && Parse(text) == Ok(map["p" := "b"])
    ensures var ids, r := OneMarked(encode, text), PlainDelete("p", "");
      && MarkedIsMapped(encode, ids) && PlainEdit(r, ids).Change?
      && !MarkedIsMapped(encode, Apply(ids, PlainEdit(r, ids)))
  {
    OneMarkedIsMapped(encode, text, map["p" := "b"]);
    assert Trim("p") == "p";
    PlainSucceedsExactly(PlainDelete("p", ""), OneMarked(encode, text));
    PlainKeepsMarkedExactly(encode, PlainDelete("p", ""), OneMarked(encode, text));
  }
}
