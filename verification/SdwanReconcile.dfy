/** Planning, dry run and reconcile of SD-WAN networks against the in-memory backend
    (sdwan.go). */
module SdwanReconcile {
  import opened Options
  import opened Text
  import opened Sdwan
  import opened SdwanNormalise

  // ----- the apply plan

  datatype Resource =
    NetworkState | SiteState | OtherTunnel | WireGuardTunnel | OVSTunnel | RoutePolicy | OpenFlowRule | PathState | PolicyState

  datatype Operation = Operation(resource: Resource, name: string)

  function TunnelResource(t: Transport): Resource {
    if t == WireGuard then WireGuardTunnel else if t == Geneve || t == Vxlan then OVSTunnel else OtherTunnel
  }

  function LinkOps(l: Link, layer: Layer): seq<Operation> {
    if l.disabled || !l.enabled then []
    else
      [Operation(TunnelResource(l.transport), StableName(l)),
       Operation(if layer == L3 then RoutePolicy else OpenFlowRule, StableName(l))]
      + (if NeedsRelay(l.mode) then [Operation(PathState, StableName(l))] else [])
  }

  function AllLinkOps(links: seq<Link>, layer: Layer): seq<Operation> {
    if links == [] then [] else LinkOps(links[0], layer) + AllLinkOps(links[1..], layer)
  }

  function SiteOps(sites: seq<Site>): seq<Operation> {
    if sites == [] then [] else [Operation(SiteState, sites[0].name)] + SiteOps(sites[1..])
  }

  function PolicyOps(policies: seq<Policy>): seq<Operation> {
    if policies == [] then [] else [Operation(PolicyState, policies[0].name)] + PolicyOps(policies[1..])
  }

  /** The plan over a given list of links. */
  function PlanOver(n: Network, links: seq<Link>): seq<Operation> {
    [Operation(NetworkState, n.name)] + SiteOps(n.sites) + AllLinkOps(links, n.layer) + PolicyOps(n.policies)
  }

  /** planSDWANApply: the links are derived once more from the network given. */
  method PlanApply(n: Network) returns (ops: seq<Operation>)
    ensures ops == PlanOver(n, NormLinks(n))
  {
    var links := NormLinks(n);
    ops := [Operation(NetworkState, n.name)];
    ops := AppendSites(ops, n.sites);
    ops := AppendLinks(ops, links, n.layer);
    ops := AppendPolicies(ops, n.policies);
  }

  method AppendSites(base: seq<Operation>, sites: seq<Site>) returns (ops: seq<Operation>)
    ensures ops == base + SiteOps(sites)
  {
    ops := base;
    for i := 0 to |sites|
      invariant ops + SiteOps(sites[i..]) == base + SiteOps(sites)
    {
      assert sites[i..][1..] == sites[i + 1..];
      ops := ops + [Operation(SiteState, sites[i].name)];
    }
    assert ops + [] == ops;
  }

  method AppendLinks(base: seq<Operation>, links: seq<Link>, layer: Layer) returns (ops: seq<Operation>)
    ensures ops == base + AllLinkOps(links, layer)
  {
    ops := base;
    for i := 0 to |links|
      invariant ops + AllLinkOps(links[i..], layer) == base + AllLinkOps(links, layer)
    {
      assert links[i..][1..] == links[i + 1..];
      ops := ops + LinkOps(links[i], layer);
    }
    assert ops + [] == ops;
  }

  method AppendPolicies(base: seq<Operation>, policies: seq<Policy>) returns (ops: seq<Operation>)
    ensures ops == base + PolicyOps(policies)
  {
    ops := base;
    for i := 0 to |policies|
      invariant ops + PolicyOps(policies[i..]) == base + PolicyOps(policies)
    {
      assert policies[i..][1..] == policies[i + 1..];
      ops := ops + [Operation(PolicyState, policies[i].name)];
    }
    assert ops + [] == ops;
  }

  predicate IsTunnel(r: Resource) { r in {OtherTunnel, WireGuardTunnel, OVSTunnel} }

  lemma {:induction false} LinkOpsExact(links: seq<Link>, layer: Layer, op: Operation)
    requires IsTunnel(op.resource)
    ensures op in AllLinkOps(links, layer) <==>
      exists l :: l in links && l.enabled && !l.disabled && op == Operation(TunnelResource(l.transport), StableName(l))
  {
    if links != [] {
      LinkOpsExact(links[1..], layer, op);
      assert links == [links[0]] + links[1..];
    }
  }

  lemma {:induction false} OtherOps(sites: seq<Site>, policies: seq<Policy>, op: Operation)
    requires IsTunnel(op.resource)
    ensures op !in SiteOps(sites) && op !in PolicyOps(policies)
  {
    if sites != [] {
      OtherOps(sites[1..], policies, op);
    } else if policies != [] {
      OtherOps([], policies[1..], op);
    }
  }

  /** Planning a normalised network asks for a tunnel for exactly its enabled links: the
      second derivation of the links neither adds nor loses one. */
  lemma PlanMatchesLinks(n: Network, op: Operation)
    requires IsTunnel(op.resource)
    ensures var m := Normalise(n);
      op in PlanOver(m, NormLinks(m)) <==>
      exists l :: l in m.links && l.enabled && !l.disabled && op == Operation(TunnelResource(l.transport), StableName(l))
  {
    var m := Normalise(n);
    NormaliseFixed(n);
    LinkOpsExact(m.links, m.layer, op);
    OtherOps(m.sites, m.policies, op);
  }

  // ----- the backend

  datatype Stored = Stored(network: Network, present: bool, lastApplied: int)

  datatype State = State(networks: map<string, Stored>, plans: map<string, seq<Operation>>)

  function AppliedState(st: State, network: Network, plan: seq<Operation>): State {
    var m := Normalise(network);
    var applied := if m.name in st.networks then st.networks[m.name].lastApplied else 0;
    State(st.networks[m.name := Stored(m, true, applied + 1)], st.plans[m.name := plan])
  }

  class InMemorySDWANBackend {
    var networks: map<string, Stored>
    var plans: map<string, seq<Operation>>

    ghost function Contents(): State
      reads this
    {
      State(networks, plans)
    }

    constructor ()
      ensures Contents() == State(map[], map[])
    {
      networks, plans := map[], map[];
    }

    method GetSDWAN(name: string) returns (r: Option<Network>)
      ensures r == if name in networks then Some(networks[name].network) else None
    {
      if name !in networks {
        return None;
      }
      return Some(networks[name].network);
    }

    method ApplySDWAN(network: Network, plan: seq<Operation>)
      modifies this
      ensures Contents() == AppliedState(old(Contents()), network, plan)
    {
      var m := Normalise(network);
      var applied := 0;
      if m.name in networks {
        applied := networks[m.name].lastApplied;
      }
      networks := networks[m.name := Stored(m, true, applied + 1)];
      plans := plans[m.name := plan];
    }

    method DeleteSDWAN(name: string) returns (found: bool)
      modifies this
      ensures found == (name in old(networks))
      ensures Contents() == AfterCall(old(Contents()), DeleteCall(name))
    {
      found := name in networks;
      if found {
        networks := networks - {name};
        plans := plans - {name};
      }
    }
  }

  // ----- dry run and reconcile

  datatype Diff = NoChange | Change(before: Option<Network>, after: Network)

  datatype Outcome = Invalid | Unavailable | Done(diff: Diff, applied: bool)

  function DiffOf(current: Option<Network>, n: Network): Diff {
    var desired := Normalise(n);
    if current == None then Change(None, desired)
    else if Normalise(current.value) != desired then Change(Some(Normalise(current.value)), desired)
    else NoChange
  }

  function CurrentOf(st: State, name: string): Option<Network> {
    if name in st.networks then Some(st.networks[name].network) else None
  }

  /** SDWANNetworkBuilder.DryRun; without a backend nothing is found. */
  method DryRun(backend: InMemorySDWANBackend?, n: Network, validCidr: string -> bool) returns (r: Option<Diff>)
    ensures r == None <==> !ValidNetwork(n, validCidr)
    ensures r != None ==>
      r.value == DiffOf(if backend == null then None else CurrentOf(backend.Contents(), n.name), n)
  {
    var ok := Validate(n, validCidr);
    if !ok {
      return None;
    }
    var current := None;
    if backend != null {
      current := backend.GetSDWAN(n.name);
    }
    return Some(DiffOf(current, n));
  }

  /** The state a reconcile of a valid network leaves. */
  function ReconciledState(st: State, n: Network): State {
    if DiffOf(CurrentOf(st, n.name), n) == NoChange then st
    else AppliedState(st, Normalise(n), PlanOver(Normalise(n), NormLinks(Normalise(n))))
  }

  /** SDWANNetworkBuilder.Reconcile. */
  method Reconcile(backend: InMemorySDWANBackend?, n: Network, validCidr: string -> bool) returns (r: Outcome)
    modifies backend
    ensures !ValidNetwork(n, validCidr) ==> r == Invalid
    ensures ValidNetwork(n, validCidr) && backend == null ==> r == Unavailable
    ensures ValidNetwork(n, validCidr) && backend != null ==>
      && r.Done? && r.diff == DiffOf(CurrentOf(old(backend.Contents()), n.name), n)
      && r.applied == (r.diff != NoChange)
      && backend.Contents() == ReconciledState(old(backend.Contents()), n)
    ensures !ValidNetwork(n, validCidr) && backend != null ==> backend.Contents() == old(backend.Contents())
  {
    var d := DryRun(backend, n, validCidr);
    if d == None {
      return Invalid;
    }
    if backend == null {
      return Unavailable;
    }
    if d.value == NoChange {
      return Done(NoChange, false);
    }
    var plan := PlanApply(Normalise(n));
    backend.ApplySDWAN(Normalise(n), plan);
    return Done(d.value, true);
  }

  /** A reconcile changes something exactly when nothing, or a network with another normal
      form, is stored under the name.  Then it stores the normal form with its plan and
      counts one more application; other names are never touched. */
  lemma ReconcileStores(st: State, n: Network, other: string)
    ensures var t := ReconciledState(st, n);
      if n.name in st.networks && Normalise(st.networks[n.name].network) == Normalise(n) then t == st
      else
        && n.name in t.networks && n.name in t.plans
        && t.networks[n.name].network == Normalise(n) && t.networks[n.name].present
        && t.networks[n.name].lastApplied == (if n.name in st.networks then st.networks[n.name].lastApplied + 1 else 1)
        && t.plans[n.name] == PlanOver(Normalise(n), Normalise(n).links)
    ensures var t := ReconciledState(st, n);
      other != n.name ==>
        && (other in t.networks <==> other in st.networks) && (other in t.plans <==> other in st.plans)
        && (other in st.networks ==> t.networks[other] == st.networks[other])
        && (other in st.plans ==> t.plans[other] == st.plans[other])
  {
    NormaliseFixed(n);
  }

  /** What a dry run reports. */
  lemma DiffExact(current: Option<Network>, n: Network)
    ensures DiffOf(current, n).NoChange? <==> current.Some? && Normalise(current.value) == Normalise(n)
    ensures DiffOf(current, n).Change? ==>
      && DiffOf(current, n).after == Normalise(n)
      && (DiffOf(current, n).before.None? <==> current.None?)
      && (current.Some? ==> DiffOf(current, n).before == Some(Normalise(current.value)))
  {}

  /** A reconcile followed by a dry run finds nothing to change, whatever was stored. */
  lemma ReconcileThenDryRun(st: State, n: Network)
    ensures DiffOf(CurrentOf(ReconciledState(st, n), n.name), n) == NoChange
  {
    NormaliseFixed(n);
  }

  datatype Call = ReconcileCall(network: Network) | DeleteCall(name: string)

  function NameOf(call: Call): string {
    match call case ReconcileCall(n) => n.name case DeleteCall(name) => name
  }

  function AfterCall(st: State, call: Call): State {
    match call
    case ReconcileCall(n) => ReconciledState(st, n)
    case DeleteCall(name) => State(st.networks - {name}, st.plans - (if name in st.networks then {name} else {}))
  }

  function RunAll<S, C>(s: S, calls: seq<C>, step: (S, C) -> S): S {
    if calls == [] then s
    else step(RunAll(s, calls[..|calls| - 1], step), calls[|calls| - 1])
  }

  /** Calls that leave what is looked at alone, in any number. */
  lemma {:induction false} RunAllSkips<S(!new), C(!new), V>(s: S, calls: seq<C>, k: nat, step: (S, C) -> S, look: S -> V, skips: C -> bool)
    requires k <= |calls| && forall j :: k <= j < |calls| ==> skips(calls[j])
    requires forall t, c :: skips(c) ==> look(step(t, c)) == look(t)
    ensures look(RunAll(s, calls, step)) == look(RunAll(s, calls[..k], step))
  {
    var last := |calls| - 1;
    if k == |calls| {
      assert calls[..k] == calls;
    } else {
      RunAllSkips(s, calls[..last], k, step, look, skips);
      assert calls[..last][..k] == calls[..k];
    }
  }

  function AfterCalls(st: State, calls: seq<Call>): State {
    RunAll(st, calls, AfterCall)
  }

  /** What the call asked for is what is stored under its name. */
  predicate Achieved(call: Call, current: Option<Network>) {
    match call
    case ReconcileCall(n) => current.Some? && Normalise(current.value) == Normalise(n)
    case DeleteCall(_) => current == None
  }

  lemma CallAchieves(st: State, call: Call)
    ensures Achieved(call, CurrentOf(AfterCall(st, call), NameOf(call)))
  {
    if call.ReconcileCall? {
      NormaliseFixed(call.network);
    }
  }

  lemma OthersUntouched(st: State, call: Call, name: string)
    requires NameOf(call) != name
    ensures CurrentOf(AfterCall(st, call), name) == CurrentOf(st, name)
  {}

  /** After any sequence of reconciles and deletes, the last call under a name decides: the
      network given is what a dry run finds, or there is none. */
  lemma LastCallHolds(st: State, calls: seq<Call>, k: nat)
    requires k < |calls| && forall j :: k < j < |calls| ==> NameOf(calls[j]) != NameOf(calls[k])
    ensures Achieved(calls[k], CurrentOf(AfterCalls(st, calls), NameOf(calls[k])))
  {
    var name := NameOf(calls[k]);
    var look := (s: State) => CurrentOf(s, name);
    var skips := (call: Call) => NameOf(call) != name;
    forall s, call | skips(call) ensures look(AfterCall(s, call)) == look(s) {
      OthersUntouched(s, call, name);
    }
    RunAllSkips(st, calls, k + 1, AfterCall, look, skips);
    assert calls[..k + 1][..k] == calls[..k];
    CallAchieves(AfterCalls(st, calls[..k]), calls[k]);
  }
}
