/** Provider networks share one packed bridge-mapping text and mark the physical networks
    they own: setOwnedBridgeMapping and detachBridgeMapping of intent.go on top of the
    compare-and-swap of ovs_runtime.go, interleaved by any number of clients. */
module MappingOwnership {
  import opened Text
  import opened BridgeMappings
  import Ovsdb

  /** external_ids of the Open_vSwitch root row. */
  type ExternalIDs = map<string, string>

  /** RawURLEncoding.EncodeToString; only its injectivity matters. */
  type Encoding = string -> string

  const MAPPINGS_KEY := "ovn-bridge-mappings"
  const MARKER_PREFIX := "ovnflow.io/provider-network-mapping/"

  ghost predicate Injective(encode: Encoding) {
    forall a, b :: encode(a) == encode(b) ==> a == b
  }

  /** providerNetworkMappingOwnerKey. */
  function MarkerKey(encode: Encoding, physicalNetwork: string): string {
    MARKER_PREFIX + encode(physicalNetwork)
  }

  lemma MarkerKeysDiffer(encode: Encoding, p: string, q: string)
    requires Injective(encode)
    ensures MarkerKey(encode, p) == MarkerKey(encode, q) ==> p == q
    ensures MarkerKey(encode, p) != MAPPINGS_KEY
  {
    assert MarkerKey(encode, p)[|MARKER_PREFIX|..] == encode(p);
    assert MarkerKey(encode, q)[|MARKER_PREFIX|..] == encode(q);
    assert MarkerKey(encode, p)[3] == 'f' && MAPPINGS_KEY[3] == '-';
  }

  /** Go's map lookup: a missing key reads as the empty string. */
  function Get(ids: ExternalIDs, key: string): string {
    if key in ids then ids[key] else ""
  }

  function Mapped(ids: ExternalIDs): Result<Mappings> {
    Parse(Get(ids, MAPPINGS_KEY))
  }

  function Marker(encode: Encoding, ids: ExternalIDs, p: string): string {
    Get(ids, MarkerKey(encode, p))
  }

  // ----- one client

  datatype Request =
    | Ensure(name: string, physicalNetwork: string, bridge: string)
    | Detach(name: string, physicalNetwork: string, bridge: string)

  /** Keys to delete, then entries to insert. */
  datatype Edit = Refused | Change(deletes: set<string>, inserts: ExternalIDs)

  ghost function EnsureEdit(encode: Encoding, r: Request, ids: ExternalIDs): Edit {
    var key := MarkerKey(encode, r.physicalNetwork);
    var owner := Get(ids, key);
    if !Mapped(ids).Ok? then Refused
    else if owner != "" && owner != r.name then Refused
    else if Get(Mapped(ids).value, r.physicalNetwork) != "" && owner == "" then Refused
    else
      var next := Mapped(ids).value[r.physicalNetwork := r.bridge];
      Change({MAPPINGS_KEY, key}, map[key := r.name, MAPPINGS_KEY := Format(next)])
  }

  ghost function DetachEdit(encode: Encoding, r: Request, ids: ExternalIDs): Edit {
    var key := MarkerKey(encode, r.physicalNetwork);
    if r.physicalNetwork == "" || !Mapped(ids).Ok? then Refused
    else if Get(ids, key) == "" || Get(ids, key) != r.name then Refused
    else
      var current := Get(Mapped(ids).value, r.physicalNetwork);
      if current != "" && r.bridge != "" && current != r.bridge then Refused
      else
        var text := Format(Mapped(ids).value - {r.physicalNetwork});
        Change({MAPPINGS_KEY, key}, if text == "" then map[] else map[MAPPINGS_KEY := text])
  }

  ghost function EditOf(encode: Encoding, r: Request, ids: ExternalIDs): Edit {
    if r.Ensure? then EnsureEdit(encode, r, ids) else DetachEdit(encode, r, ids)
  }

  /** setOwnedBridgeMapping, up to the compare-and-swap. */
  method SetOwnedBridgeMapping(encode: Encoding, r: Request, ids: ExternalIDs) returns (edit: Edit)
    requires r.Ensure?
    ensures edit == EditOf(encode, r, ids)
  {
    var parsed := ParseBridgeMappings(Get(ids, MAPPINGS_KEY));
    if !parsed.Ok? {
      return Refused;
    }
    var mappings := parsed.value;
    var owner := Get(ids, MarkerKey(encode, r.physicalNetwork));
    if owner != "" && owner != r.name {
      return Refused;
    }
    if Get(mappings, r.physicalNetwork) != "" {
      if owner == "" {
        return Refused;
      }
      if owner != r.name {
        return Refused;
      }
    }
    mappings := mappings[r.physicalNetwork := r.bridge];
    var text := FormatBridgeMappings(mappings);
    var key := MarkerKey(encode, r.physicalNetwork);
    return Change({MAPPINGS_KEY, key}, map[key := r.name, MAPPINGS_KEY := text]);
  }

  /** detachBridgeMapping, up to the compare-and-swap. */
  method DetachBridgeMapping(encode: Encoding, r: Request, ids: ExternalIDs) returns (edit: Edit)
    requires r.Detach?
    ensures edit == EditOf(encode, r, ids)
  {
    if r.physicalNetwork == "" {
      return Refused;
    }
    var parsed := ParseBridgeMappings(Get(ids, MAPPINGS_KEY));
    if !parsed.Ok? {
      return Refused;
    }
    var mappings := parsed.value;
    var key := MarkerKey(encode, r.physicalNetwork);
    var owner := Get(ids, key);
    if owner != "" && owner != r.name {
      return Refused;
    }
    if owner == "" {
      return Refused;
    }
    var current := Get(mappings, r.physicalNetwork);
    if current != "" && r.bridge != "" && current != r.bridge {
      return Refused;
    }
    mappings := mappings - {r.physicalNetwork};
    var text := FormatBridgeMappings(mappings);
    return Change({MAPPINGS_KEY, key}, if text != "" then map[MAPPINGS_KEY := text] else map[]);
  }

  /** The mutations of the transaction: delete the keys, then insert the entries. */
  ghost function Apply(ids: ExternalIDs, edit: Edit): ExternalIDs
    requires edit.Change?
  {
    Ovsdb.InsertEntries(Ovsdb.DeleteKeys(ids, edit.deletes), edit.inserts)
  }

  // ----- any number of clients

  datatype Client = Idle | HasRead(request: Request, root: ExternalIDs)

  datatype System = System(ids: ExternalIDs, clients: map<nat, Client>)

  datatype Step =
    | Read(client: nat, request: Request)
    | Swap(client: nat)
    | Foreign(ids: ExternalIDs)

  /** What intent validation guarantees about a request, for names without surrounding
      blanks. */
  ghost predicate ValidRequest(r: Request) {
    r.name != "" && (r.Ensure? ==> CleanName(r.physicalNetwork) && CleanName(r.bridge))
  }

  /** Writers of other external ids leave the mapping text and all markers alone. */
  ghost predicate ForeignOnly(encode: Encoding, a: ExternalIDs, b: ExternalIDs) {
    && Get(a, MAPPINGS_KEY) == Get(b, MAPPINGS_KEY)
    && forall p :: Marker(encode, a, p) == Marker(encode, b, p)
  }

  /** The wait on external_ids makes the swap fail unless nothing changed since the read. */
  ghost predicate Succeeds(encode: Encoding, s: System, step: Step) {
    && step.Swap? && step.client in s.clients && s.clients[step.client].HasRead?
    && s.ids == s.clients[step.client].root
    && EditOf(encode, s.clients[step.client].request, s.clients[step.client].root).Change?
  }

  ghost predicate Next(encode: Encoding, s: System, step: Step, s': System) {
    match step
    case Read(c, request) => ValidRequest(request) && s' == s.(clients := s.clients[c := HasRead(request, s.ids)])
    case Swap(c) =>
      && c in s.clients && s.clients[c].HasRead?
      && s' == System(
           if Succeeds(encode, s, step) then Apply(s.ids, EditOf(encode, s.clients[c].request, s.clients[c].root)) else s.ids,
           s.clients[c := Idle])
    case Foreign(ids) => ForeignOnly(encode, s.ids, ids) && s' == s.(ids := ids)
  }

  /** The mapping text parses and every marked physical network has a mapping. */
  ghost predicate Inv(encode: Encoding, s: System) {
    && Mapped(s.ids).Ok?
    && (forall p :: Marker(encode, s.ids, p) != "" ==> p in Mapped(s.ids).value)
    && (forall c :: c in s.clients && s.clients[c].HasRead? ==> ValidRequest(s.clients[c].request))
  }

  // ----- what one successful swap does

  lemma ApplyGet(ids: ExternalIDs, edit: Edit, key: string)
    requires edit.Change? && edit.inserts.Keys <= edit.deletes
    ensures Get(Apply(ids, edit), key) ==
      if key in edit.inserts then edit.inserts[key] else if key in edit.deletes then "" else Get(ids, key)
  {}

  /** A successful ensure sets exactly its own mapping and marker. */
  lemma EnsureEffect(encode: Encoding, r: Request, ids: ExternalIDs)
    requires Injective(encode) && r.Ensure? && ValidRequest(r) && EditOf(encode, r, ids).Change?
    ensures var after := Apply(ids, EditOf(encode, r, ids));
      && Mapped(after) == Ok(Mapped(ids).value[r.physicalNetwork := r.bridge])
      && (forall q :: Marker(encode, after, q) == if q == r.physicalNetwork then r.name else Marker(encode, ids, q))
      && (forall key :: key != MAPPINGS_KEY && key != MarkerKey(encode, r.physicalNetwork) ==> Get(after, key) == Get(ids, key))
      && Marker(encode, ids, r.physicalNetwork) in {"", r.name}
  {
    var edit := EditOf(encode, r, ids);
    var next := Mapped(ids).value[r.physicalNetwork := r.bridge];
    ParseIsClean(Get(ids, MAPPINGS_KEY));
    ParseFormat(next);
    MarkerKeysDiffer(encode, r.physicalNetwork, r.physicalNetwork);
    ApplyGet(ids, edit, MAPPINGS_KEY);
    forall q ensures Marker(encode, Apply(ids, edit), q) == if q == r.physicalNetwork then r.name else Marker(encode, ids, q) {
      MarkerKeysDiffer(encode, q, r.physicalNetwork);
      ApplyGet(ids, edit, MarkerKey(encode, q));
    }
  }

  /** A successful detach takes away exactly its own mapping and marker, and only the
      holder of the marker can do it. */
  lemma DetachEffect(encode: Encoding, r: Request, ids: ExternalIDs)
    requires Injective(encode) && r.Detach? && ValidRequest(r) && EditOf(encode, r, ids).Change?
    ensures var after := Apply(ids, EditOf(encode, r, ids));
      && Mapped(after) == Ok(Mapped(ids).value - {r.physicalNetwork})
      && (forall q :: Marker(encode, after, q) == if q == r.physicalNetwork then "" else Marker(encode, ids, q))
      && (forall key :: key != MAPPINGS_KEY && key != MarkerKey(encode, r.physicalNetwork) ==> Get(after, key) == Get(ids, key))
      && Marker(encode, ids, r.physicalNetwork) == r.name
  {
    var edit := EditOf(encode, r, ids);
    var next := Mapped(ids).value - {r.physicalNetwork};
    ParseIsClean(Get(ids, MAPPINGS_KEY));
    ParseFormat(next);
    MarkerKeysDiffer(encode, r.physicalNetwork, r.physicalNetwork);
    ApplyGet(ids, edit, MAPPINGS_KEY);
    forall q ensures Marker(encode, Apply(ids, edit), q) == if q == r.physicalNetwork then "" else Marker(encode, ids, q) {
      MarkerKeysDiffer(encode, q, r.physicalNetwork);
      ApplyGet(ids, edit, MarkerKey(encode, q));
    }
  }

  /** A claim goes through exactly when the text parses and the marker is the claimant's, or
      there is neither a marker nor a mapping: a mapping that is not marked is not taken over. */
  lemma EnsureSucceedsExactly(encode: Encoding, r: Request, ids: ExternalIDs)
    requires r.Ensure? && r.name != ""
    ensures EditOf(encode, r, ids).Change? <==>
      && Mapped(ids).Ok?
      && (Marker(encode, ids, r.physicalNetwork) == r.name ||
          (Marker(encode, ids, r.physicalNetwork) == "" && r.physicalNetwork !in Mapped(ids).value))
  {
    if Mapped(ids).Ok? {
      ParseIsClean(Get(ids, MAPPINGS_KEY));
    }
  }

  /** A detach goes through exactly when the text parses, the marker is the requester's and
      the mapping, if there is one and a bridge is named, points at that bridge. */
  lemma DetachSucceedsExactly(encode: Encoding, r: Request, ids: ExternalIDs)
    requires r.Detach? && r.name != ""
    ensures EditOf(encode, r, ids).Change? <==>
      && r.physicalNetwork != "" && Mapped(ids).Ok? && Marker(encode, ids, r.physicalNetwork) == r.name
      && (r.bridge == "" || r.physicalNetwork !in Mapped(ids).value || Mapped(ids).value[r.physicalNetwork] == r.bridge)
  {
    if Mapped(ids).Ok? {
      ParseIsClean(Get(ids, MAPPINGS_KEY));
    }
  }

  // ----- every interleaving

  /** The mapping after a successful request. */
  function Requested(r: Request, m: Mappings): Mappings {
    if r.Ensure? then m[r.physicalNetwork := r.bridge] else m - {r.physicalNetwork}
  }

  /** From a to b, only the request's own mapping and marker have changed. */
  ghost predicate OwnEffect(encode: Encoding, r: Request, a: ExternalIDs, b: ExternalIDs) {
    && Mapped(a).Ok? && Mapped(b) == Ok(Requested(r, Mapped(a).value))
    && (forall q :: Marker(encode, b, q) ==
          if q != r.physicalNetwork then Marker(encode, a, q) else if r.Ensure? then r.name else "")
    && (forall key :: key != MAPPINGS_KEY && key != MarkerKey(encode, r.physicalNetwork) ==> Get(b, key) == Get(a, key))
  }

  lemma SwapEffect(encode: Encoding, s: System, step: Step, s': System)
    requires Injective(encode) && Inv(encode, s) && Next(encode, s, step, s') && Succeeds(encode, s, step)
    ensures OwnEffect(encode, s.clients[step.client].request, s.ids, s'.ids)
  {
    var r := s.clients[step.client].request;
    if r.Ensure? {
      EnsureEffect(encode, r, s.ids);
    } else {
      DetachEffect(encode, r, s.ids);
    }
  }

  lemma OwnEffectKeepsInv(encode: Encoding, r: Request, a: ExternalIDs, b: ExternalIDs, p: string)
    requires OwnEffect(encode, r, a, b)
    requires forall q :: Marker(encode, a, q) != "" ==> q in Mapped(a).value
    ensures Marker(encode, b, p) != "" ==> p in Mapped(b).value
  {}

  lemma NextKeepsInv(encode: Encoding, s: System, step: Step, s': System)
    requires Injective(encode) && Inv(encode, s) && Next(encode, s, step, s')
    ensures Inv(encode, s')
  {
    if Succeeds(encode, s, step) {
      var r := s.clients[step.client].request;
      SwapEffect(encode, s, step, s');
      forall p ensures Marker(encode, s'.ids, p) != "" ==> p in Mapped(s'.ids).value {
        OwnEffectKeepsInv(encode, r, s.ids, s'.ids, p);
      }
    }
  }

  lemma OwnEffectOnOthers(encode: Encoding, r: Request, a: ExternalIDs, b: ExternalIDs, q: string)
    requires OwnEffect(encode, r, a, b) && q != r.physicalNetwork
    ensures Get(Mapped(b).value, q) == Get(Mapped(a).value, q)
    ensures Marker(encode, b, q) == Marker(encode, a, q)
  {}

  /** No swap changes another physical network's mapping or marker, or any unrelated
      external id; an unsuccessful one changes nothing. */
  lemma SwapTouchesOnlyItsOwn(encode: Encoding, s: System, step: Step, s': System, q: string, key: string)
    requires Injective(encode) && Inv(encode, s) && Next(encode, s, step, s') && step.Swap?
    ensures !Succeeds(encode, s, step) ==> s'.ids == s.ids
    ensures Mapped(s.ids).Ok? && Mapped(s'.ids).Ok?
    ensures var p := s.clients[step.client].request.physicalNetwork;
      && (q != p ==> Get(Mapped(s'.ids).value, q) == Get(Mapped(s.ids).value, q))
      && (q != p ==> Marker(encode, s'.ids, q) == Marker(encode, s.ids, q))
      && (key != MAPPINGS_KEY && key != MarkerKey(encode, p) ==> Get(s'.ids, key) == Get(s.ids, key))
  {
    if Succeeds(encode, s, step) {
      var r := s.clients[step.client].request;
      SwapEffect(encode, s, step, s');
      if q != r.physicalNetwork {
        OwnEffectOnOthers(encode, r, s.ids, s'.ids, q);
      }
    }
  }

  /** A step at which the holder `name` of p detaches. */
  ghost predicate Detaches(encode: Encoding, s: System, step: Step, name: string, p: string) {
    && Succeeds(encode, s, step)
    && s.clients[step.client].request.Detach?
    && s.clients[step.client].request.name == name && s.clients[step.client].request.physicalNetwork == p
  }

  lemma MarkerStep(encode: Encoding, s: System, step: Step, s': System, p: string)
    requires Injective(encode) && Inv(encode, s) && Next(encode, s, step, s')
    requires Marker(encode, s.ids, p) != "" && Marker(encode, s'.ids, p) != Marker(encode, s.ids, p)
    ensures Detaches(encode, s, step, Marker(encode, s.ids, p), p)
  {
    if Succeeds(encode, s, step) {
      var r := s.clients[step.client].request;
      if r.Ensure? {
        EnsureEffect(encode, r, s.ids);
      } else {
        DetachEffect(encode, r, s.ids);
      }
    }
  }

  /** states[i] --steps[i]--> states[i+1]. */
  ghost predicate IsRun(encode: Encoding, states: seq<System>, steps: seq<Step>) {
    && |states| == |steps| + 1
    && Inv(encode, states[0])
    && forall i :: 0 <= i < |steps| ==> StepAt(encode, states, steps, i)
  }

  ghost predicate StepAt(encode: Encoding, states: seq<System>, steps: seq<Step>, i: nat)
    requires i < |steps| && |states| == |steps| + 1
  {
    Next(encode, states[i], steps[i], states[i + 1])
  }

  lemma RunStepKeepsInv(encode: Encoding, states: seq<System>, steps: seq<Step>, i: nat)
    requires Injective(encode) && IsRun(encode, states, steps) && i < |steps| && Inv(encode, states[i])
    ensures Inv(encode, states[i + 1])
  {
    assert StepAt(encode, states, steps, i);
    NextKeepsInv(encode, states[i], steps[i], states[i + 1]);
  }

  lemma {:induction false} AlongRun<T(!new)>(states: seq<T>, holds: T -> bool, i: nat)
    requires i < |states| && holds(states[0])
    requires forall j :: 0 <= j < |states| - 1 && holds(states[j]) ==> holds(states[j + 1])
    ensures holds(states[i])
  {
    if i > 0 {
      AlongRun(states, holds, i - 1);
    }
  }

  lemma RunKeepsInv(encode: Encoding, states: seq<System>, steps: seq<Step>, i: nat)
    requires Injective(encode) && IsRun(encode, states, steps) && i < |states|
    ensures Inv(encode, states[i])
  {
    var holds := (s: System) => Inv(encode, s);
    forall j | 0 <= j < |states| - 1 && holds(states[j]) ensures holds(states[j + 1]) {
      RunStepKeepsInv(encode, states, steps, j);
    }
    AlongRun(states, holds, i);
  }

  /** Runs start from external ids without mappings and markers, with any number of clients. */
  lemma EmptyStart(encode: Encoding, clients: map<nat, Client>)
    requires forall c :: c in clients ==> clients[c].Idle?
    ensures IsRun(encode, [System(map[], clients)], [])
  {
    assert Trim("") == "";
  }

  /** In every interleaving a marked physical network has a mapping at all times. */
  lemma MarkedHasMapping(encode: Encoding, states: seq<System>, steps: seq<Step>, i: nat, p: string)
    requires Injective(encode) && IsRun(encode, states, steps) && i < |states|
    requires Marker(encode, states[i].ids, p) != ""
    ensures Mapped(states[i].ids).Ok? && p in Mapped(states[i].ids).value
  {
    RunKeepsInv(encode, states, steps, i);
  }

  lemma RunMarkerStep(encode: Encoding, states: seq<System>, steps: seq<Step>, i: nat, p: string)
    requires Injective(encode) && IsRun(encode, states, steps) && i < |steps|
    requires Marker(encode, states[i].ids, p) != ""
    requires Marker(encode, states[i + 1].ids, p) != Marker(encode, states[i].ids, p)
    ensures Detaches(encode, states[i], steps[i], Marker(encode, states[i].ids, p), p)
  {
    RunKeepsInv(encode, states, steps, i);
    assert StepAt(encode, states, steps, i);
    MarkerStep(encode, states[i], steps[i], states[i + 1], p);
  }

  /** And a marker goes to someone else only after its holder has detached. */
  lemma {:induction false} MarkerPassesOnlyAfterDetach(
      encode: Encoding, states: seq<System>, steps: seq<Step>, i: nat, j: nat, p: string, holder: string)
    requires Injective(encode) && IsRun(encode, states, steps) && i < j < |states|
    requires holder != "" && Marker(encode, states[i].ids, p) == holder && Marker(encode, states[j].ids, p) != holder
    ensures exists k :: i <= k < j && Detaches(encode, states[k], steps[k], holder, p)
    decreases j - i
  {
    if Marker(encode, states[i + 1].ids, p) == holder {
      MarkerPassesOnlyAfterDetach(encode, states, steps, i + 1, j, p, holder);
    } else {
      RunMarkerStep(encode, states, steps, i, p);
    }
  }

  /** The physical network is mapped to the bridge, and nobody has marked it. */
  ghost predicate Unmarked(encode: Encoding, ids: ExternalIDs, p: string, bridge: string) {
    Mapped(ids).Ok? && p in Mapped(ids).value && Mapped(ids).value[p] == bridge && Marker(encode, ids, p) == ""
  }

  lemma UnmarkedIsRefused(encode: Encoding, r: Request, ids: ExternalIDs, bridge: string)
    requires r.name != "" && Unmarked(encode, ids, r.physicalNetwork, bridge)
    ensures EditOf(encode, r, ids).Refused?
  {
    if r.Ensure? {
      EnsureSucceedsExactly(encode, r, ids);
    } else {
      DetachSucceedsExactly(encode, r, ids);
    }
  }

  lemma OwnEffectLeavesUnmarked(encode: Encoding, r: Request, a: ExternalIDs, b: ExternalIDs, p: string, bridge: string)
    requires OwnEffect(encode, r, a, b) && p != r.physicalNetwork && Unmarked(encode, a, p, bridge)
    ensures Unmarked(encode, b, p, bridge)
  {
    assert p in Requested(r, Mapped(a).value);
  }

  /** A mapping without a marker is nobody's: no swap changes it. */
  lemma UnmarkedMappingStays(encode: Encoding, s: System, step: Step, s': System, p: string, bridge: string)
    requires Injective(encode) && Inv(encode, s) && Next(encode, s, step, s') && Unmarked(encode, s.ids, p, bridge)
    ensures Unmarked(encode, s'.ids, p, bridge)
  {
    if Succeeds(encode, s, step) {
      var r := s.clients[step.client].request;
      if r.physicalNetwork == p {
        UnmarkedIsRefused(encode, r, s.ids, bridge);
      }
      SwapEffect(encode, s, step, s');
      OwnEffectLeavesUnmarked(encode, r, s.ids, s'.ids, p, bridge);
    } else if step.Foreign? {
      assert Mapped(s'.ids) == Mapped(s.ids);
    }
  }

  lemma RunUnmarkedStep(encode: Encoding, states: seq<System>, steps: seq<Step>, i: nat, p: string, bridge: string)
    requires Injective(encode) && IsRun(encode, states, steps) && i < |steps| && Unmarked(encode, states[i].ids, p, bridge)
    ensures Unmarked(encode, states[i + 1].ids, p, bridge)
  {
    RunKeepsInv(encode, states, steps, i);
    assert StepAt(encode, states, steps, i);
    UnmarkedMappingStays(encode, states[i], steps[i], states[i + 1], p, bridge);
  }

  /** So in every interleaving a mapping that has no marker stays as it is for ever. */
  lemma UnmarkedMappingStaysInRuns(
      encode: Encoding, states: seq<System>, steps: seq<Step>, i: nat, j: nat, p: string, bridge: string)
    requires Injective(encode) && IsRun(encode, states, steps) && i <= j < |states|
    requires Mapped(states[i].ids).Ok? && p in Mapped(states[i].ids).value && Mapped(states[i].ids).value[p] == bridge
    requires Marker(encode, states[i].ids, p) == ""
    ensures Mapped(states[j].ids).Ok? && p in Mapped(states[j].ids).value && Mapped(states[j].ids).value[p] == bridge
    ensures Marker(encode, states[j].ids, p) == ""
  {
    var holds := (s: System) => Unmarked(encode, s.ids, p, bridge);
    forall k | 0 <= k < |states[i..]| - 1 && holds(states[i..][k]) ensures holds(states[i..][k + 1]) {
      RunUnmarkedStep(encode, states, steps, i + k, p, bridge);
    }
    AlongRun(states[i..], holds, j - i);
  }

  // ----- names with blanks

  /** Intent validation lets names with surrounding blanks through, but a successful
      ensure then stores something else: the mapping asked for is there afterwards, and
      the others are as before, exactly when both names are clean. */
  lemma EnsureStoresMappingExactly(encode: Encoding, r: Request, ids: ExternalIDs)
    requires Injective(encode) && r.Ensure? && r.name != "" && ValidPair(r.physicalNetwork, r.bridge)
    requires EditOf(encode, r, ids).Change?
    ensures Mapped(Apply(ids, EditOf(encode, r, ids))) == Ok(Mapped(ids).value[r.physicalNetwork := r.bridge])
      <==> Trimmed(r.physicalNetwork) && Trimmed(r.bridge)
  {
    var next := Mapped(ids).value[r.physicalNetwork := r.bridge];
    ParseIsClean(Get(ids, MAPPINGS_KEY));
    ParseFormatExact(next);
    MarkerKeysDiffer(encode, r.physicalNetwork, r.physicalNetwork);
    ApplyGet(ids, EditOf(encode, r, ids), MAPPINGS_KEY);
    assert next[r.physicalNetwork] == r.bridge;
    assert Trim("") == "";
  }

  /** For example: a leading blank in the name of the physical network. */
  lemma BlankNameIsLost(encode: Encoding)
    requires Injective(encode)
    ensures var r := Ensure("n", " p", "b");
      && ValidPair(r.physicalNetwork, r.bridge) && EditOf(encode, r, map[]).Change?
      && Mapped(Apply(map[], EditOf(encode, r, map[]))) != Ok(map[" p" := "b"])
  {
    var r, none := Ensure("n", " p", "b"), map[];
    assert " p"[1..] == "p" && TrimLeft(" p") == "p" && TrimRight("p") == "p" && Trim("b") == "b";
    assert Trim("") == "" && Mapped(none) == Ok(map[]);
    assert Get(none, MarkerKey(encode, " p")) == "";
    EnsureStoresMappingExactly(encode, r, none);
    assert !Trimmed(" p");
  }
}
