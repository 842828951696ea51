/** One reconcile (internal/controllers/vpc/reconciler.go): `populateSchema` starts from an empty intent,
    allocates indexes, runs the three phases, and `Update` deploys what they built. */
module Reconciler {
  import opened Wrappers
  import opened Gateway
  import opened VpcSpec
  import opened Registers
  import opened DeviceTree
  import opened Compilation
  import opened Correctness
  import opened Intent
  import opened Populate
  import Speedy

  /** The orders in which Go ranges over the bridge domains, the routing tables and, in the third
      phase, the routing tables again. */
  datatype RangeOrders = RangeOrders(bridge: seq<string>, route: seq<string>, join: seq<string>) {
    ghost predicate Of(vpc: VpcView) {
      && Orders(bridge, vpc.bridgeDomains.Keys)
      && Orders(route, vpc.routingTables.Keys)
      && Orders(join, vpc.routingTables.Keys)
    }
  }

  /** What the run learns from outside: the address allocation strategy of the organisation and the
      nodes of the topology, either of which may not be available. */
  datatype Surroundings = Surroundings(
    lib: Library, strategy: Result<GatewayAllocation>, nodes: Result<seq<NodeInfo>>)

  function IndexesOf(niInfos: map<NiName, NiInfo>): Indexes {
    map n | n in niInfos && niInfos[n].index.Some? :: niInfos[n].index.value
  }

  ghost function RegisterIndexes(names: set<NiName>, registers: RegisterMap): Indexes
    requires AllAllocated(names, registers)
  {
    IndexesOf(Allocation(names, registers))
  }

  lemma AllocationIsInput(
    vpc: VpcView, registers: RegisterMap, nodes: seq<NodeInfo>, lib: Library, a: GatewayAllocation)
    requires Distinct(registers) && AllAllocated(NiNames(vpc), registers) && lib.Valid()
    ensures var niInfos := Allocation(NiNames(vpc), registers);
      var i := Input(vpc, nodes, lib, a, IndexesOf(niInfos));
      i.Valid() && Allotted(i, niInfos)
  {
    var niInfos := Allocation(NiNames(vpc), registers);
    forall m, n | m in NiNames(vpc) && n in NiNames(vpc) && niInfos[m].index == niInfos[n].index
      ensures m == n
    {
      AllocationInjective(NiNames(vpc), registers, m, n);
    }
    assert forall n :: n in NiNames(vpc) ==> Allocated(registers, n);
  }

  /** The three phases on an empty intent. Success does not depend on any order, and the intent built
      depends only on the order of the routing tables in the second phase. Which of several faults ends a
      run that does not succeed depends on the order in the third. */
  method PopulatePhases(ci: Intent, i: Input, niInfos: map<NiName, NiInfo>, orders: RangeOrders) returns (r: Outcome)
    requires i.Valid() && Allotted(i, niInfos) && orders.Of(i.vpc)
    requires ci.Valid() && ci.Config == map[]
    modifies ci.Repr
    ensures ci.Valid() && fresh(ci.Repr - old(ci.Repr))
    ensures r.Done? <==> AllOk(i)
    ensures r.Panicked? <==> RunPanics(i, orders.join)
    ensures r.Done? ==> ci.Config == Compile(i, orders.route)
  {
    hide ListOk, NiOk, Run, BridgePhase, RoutePhase, JoinPhase, Compile, ListsPanic;
    ghost var bridge, route, join;
    r, bridge := PopulateBridgeDomains(ci, i, niInfos, orders.bridge);
    if !r.Done? {
      return;
    }
    r, route := PopulateRoutingTables(ci, i, niInfos, orders.route);
    if !r.Done? {
      return;
    }
    ListsOkIffJoinsOk(i);
    r, join := PopulateJoins(ci, i, niInfos, orders.join);
    if r.Done? {
      PhasesAreCompile(i, orders.route, Phases(bridge, route, join));
    }
  }

  lemma PhasesAreCompile(i: Input, order: seq<string>, p: Phases)
    requires i.Valid() && p.Of(i, order) && Orders(order, RoutingTablesOf(i).Keys)
    ensures Run(i.ix, Run(i.ix, Run(i.ix, map[], p.bridge), p.route), p.join) == Compile(i, order)
  {
    RunConcat(i.ix, map[], p.bridge, p.route);
    RunConcat(i.ix, map[], p.bridge + p.route, p.join);
    RunIsCompile(i, order, p);
  }

  /** The input of a run whose indexes have been allocated. */
  ghost function InputOf(cr: Vpc, s: Surroundings, registers: RegisterMap): (i: Input)
    requires s.lib.Valid() && s.strategy.Ok? && s.nodes.Ok?
    requires Distinct(registers) && AllAllocated(NiNames(View(cr)), registers)
    ensures i.Valid() && i.vpc == View(cr) && Allotted(i, Allocation(NiNames(View(cr)), registers))
  {
    AllocationIsInput(View(cr), registers, s.nodes.value, s.lib, s.strategy.value);
    Input(View(cr), s.nodes.value, s.lib, s.strategy.value, RegisterIndexes(NiNames(View(cr)), registers))
  }

  /** It is made of what the resource declares, the last declaration of each name, and of what the run has
      learned; each network instance has the index its register holds. */
  lemma InputReads(cr: Vpc, s: Surroundings, registers: RegisterMap)
    requires s.lib.Valid() && s.strategy.Ok? && s.nodes.Ok?
    requires Distinct(registers) && AllAllocated(NiNames(View(cr)), registers)
    ensures var i := InputOf(cr, s, registers);
      && i.nodes == s.nodes.value && i.lib == s.lib && i.allocation == s.strategy.value
      && i.vpc.defaultTunnel == cr.defaultTunnel
      && i.vpc.bridgeDomains.Keys == (set x | x in cr.bridgeDomains :: x.name)
      && i.vpc.routingTables.Keys == (set x | x in cr.routingTables :: x.name)
      && (forall k :: LastBridgeDomain(cr.bridgeDomains, k) ==>
           i.vpc.bridgeDomains[cr.bridgeDomains[k].name] == cr.bridgeDomains[k])
      && (forall k :: LastRoutingTable(cr.routingTables, k) ==>
           i.vpc.routingTables[cr.routingTables[k].name] == cr.routingTables[k])
      && (forall ni :: ni in i.ix <==>
           if ni.BdNi? then ni.name in i.vpc.bridgeDomains else ni.name in i.vpc.routingTables)
      && (forall ni :: ni in i.ix ==> ni in registers && registers[ni].ready && registers[ni].ni == Some(i.ix[ni]))
  {
    BridgeDomainsExact(cr.bridgeDomains);
    RoutingTablesExact(cr.routingTables);
    var names := NiNames(View(cr));
    forall ni | ni in names
      ensures Allocated(registers, ni)
    {
    }
    assert forall ni :: ni in names <==>
      if ni.BdNi? then ni.name in View(cr).bridgeDomains else ni.name in View(cr).routingTables;
  }

  /** `populateSchema` from the point where the empty intent is in place. */
  method FillIntent(ci: Intent, api: ApiServer, cr: Vpc, s: Surroundings, orders: RangeOrders)
    returns (r: Outcome, ghost indexed: bool)
    requires s.lib.Valid() && orders.Of(View(cr)) && Distinct(api.registers)
    requires ci.Valid() && ci.Config == map[] && api !in ci.Repr
    modifies ci.Repr, api
    ensures Distinct(api.registers) && ci.Valid() && fresh(ci.Repr - old(ci.Repr))
    ensures indexed ==> s.strategy.Ok? && AllAllocated(NiNames(View(cr)), api.registers)
    ensures s.strategy.Ok? && AllAllocated(NiNames(View(cr)), old(api.registers)) ==>
      Up(api.up, old(api.calls), api.calls) ==> indexed
    ensures r.Done? <==> indexed && s.nodes.Ok? && AllOk(InputOf(cr, s, api.registers))
    ensures r.Panicked? <==> indexed && s.nodes.Ok? && RunPanics(InputOf(cr, s, api.registers), orders.join)
    ensures r.Done? ==> ci.Config == Compile(InputOf(cr, s, api.registers), orders.route)
  {
    indexed := false;
    if s.strategy.Err? {
      return Failed(s.strategy.error), indexed;
    }
    var vpc := GetView(cr);
    var niInfos, _ := AllocateNiIndexes(api, vpc);
    if niInfos.Err? {
      return Failed(niInfos.error), indexed;
    }
    indexed := true;
    if s.nodes.Err? {
      return Failed(s.nodes.error), indexed;
    }
    var i := Input(vpc, s.nodes.value, s.lib, s.strategy.value, IndexesOf(niInfos.value));
    assert i == InputOf(cr, s, api.registers);
    r := PopulatePhases(ci, i, niInfos.value, orders);
  }

  class Application {
    var intents: map<string, Intent>
    const api: ApiServer
    const speedyHandler: Speedy.Handler
    /** The configuration last handed to `Deploy`, per VPC. */
    ghost var handed: map<string, FabricConfig>

    constructor (api: ApiServer, speedyHandler: Speedy.Handler)
      ensures this.api == api && this.speedyHandler == speedyHandler
      ensures intents == map[] && handed == map[]
    {
      this.api, this.speedyHandler := api, speedyHandler;
      intents, handed := map[], map[];
    }

    /** The intent is built from scratch: whatever earlier runs left behind under any name is neither
        read nor, except for this resource, changed. */
    method PopulateSchema(cr: Vpc, crName: string, s: Surroundings, orders: RangeOrders)
      returns (r: Outcome, ghost indexed: bool)
      requires s.lib.Valid() && orders.Of(View(cr)) && Distinct(api.registers)
      modifies this`intents, api
      ensures Distinct(api.registers)
      ensures crName in intents && fresh(intents[crName]) && intents == old(intents)[crName := intents[crName]]
      ensures intents[crName].Valid()
      ensures indexed ==> s.strategy.Ok? && AllAllocated(NiNames(View(cr)), api.registers)
      ensures s.strategy.Ok? && AllAllocated(NiNames(View(cr)), old(api.registers)) ==>
        Up(api.up, old(api.calls), api.calls) ==> indexed
      ensures r.Done? <==> indexed && s.nodes.Ok? && AllOk(InputOf(cr, s, api.registers))
      ensures r.Panicked? <==> indexed && s.nodes.Ok? && RunPanics(InputOf(cr, s, api.registers), orders.join)
      ensures r.Done? ==> intents[crName].Config == Compile(InputOf(cr, s, api.registers), orders.route)
    {
      var ci := new Intent();
      intents := intents[crName := ci];
      r, indexed := FillIntent(ci, api, cr, s, orders);
    }

    /** `Update`; the booleans say which of the library's steps succeed. `Deploy` is called exactly when all
        before it succeeds, and what it is handed is the compile of the current spec alone. */
    method Update(
      cr: Vpc, crName: string, s: Surroundings, orders: RangeOrders,
      listed: bool, validated: bool, deleted: bool, deploys: bool, listedAgain: bool)
      returns (r: Outcome, ghost indexed: bool, ghost reached: bool)
      requires s.lib.Valid() && orders.Of(View(cr)) && Distinct(api.registers)
      modifies this`intents, this`handed, api, speedyHandler
      ensures Distinct(api.registers)
      ensures speedyHandler.speedy == Speedy.AfterInit(old(speedyHandler.speedy), crName)
      ensures crName in intents && intents == old(intents)[crName := intents[crName]]
      ensures indexed ==> s.strategy.Ok? && AllAllocated(NiNames(View(cr)), api.registers)
      ensures s.strategy.Ok? && AllAllocated(NiNames(View(cr)), old(api.registers)) ==>
        Up(api.up, old(api.calls), api.calls) ==> indexed
      ensures reached <==>
        indexed && s.nodes.Ok? && AllOk(InputOf(cr, s, api.registers)) && listed && validated && deleted
      ensures r.Done? <==> reached && deploys && listedAgain
      ensures r.Panicked? <==> indexed && s.nodes.Ok? && RunPanics(InputOf(cr, s, api.registers), orders.join)
      ensures handed ==
        if reached then old(handed)[crName := Compile(InputOf(cr, s, api.registers), orders.route)] else old(handed)
    {
      reached := false;
      speedyHandler.Init(crName);
      r, indexed := PopulateSchema(cr, crName, s, orders);
      if !r.Done? {
        return;
      }
      if !listed || !validated || !deleted {
        return Failed(ApiFailure), indexed, reached;
      }
      reached := true;
      handed := handed[crName := intents[crName].Config];
      if !deploys || !listedAgain {
        return Failed(ApiFailure), indexed, reached;
      }
    }

    /** `Delete` populates once more and leaves the devices alone; true unless that fails. */
    method Delete(cr: Vpc, crName: string, s: Surroundings, orders: RangeOrders)
      returns (r: Outcome, gone: bool, ghost indexed: bool)
      requires s.lib.Valid() && orders.Of(View(cr)) && Distinct(api.registers)
      modifies this`intents, api, speedyHandler
      ensures Distinct(api.registers)
      ensures speedyHandler.speedy == Speedy.AfterInit(old(speedyHandler.speedy), crName)
      ensures crName in intents && intents == old(intents)[crName := intents[crName]]
      ensures indexed ==> s.strategy.Ok? && AllAllocated(NiNames(View(cr)), api.registers)
      ensures r.Done? <==> indexed && s.nodes.Ok? && AllOk(InputOf(cr, s, api.registers))
      ensures gone == r.Done?
    {
      speedyHandler.Init(crName);
      r, indexed := PopulateSchema(cr, crName, s, orders);
      gone := r.Done?;
    }

    /** `FinalDelete`, once the intent has been destroyed. The resource is no longer tracked, and other
        counters stay. */
    method FinalDelete(crName: string)
      modifies speedyHandler
      ensures crName !in speedyHandler.speedy
      ensures speedyHandler.speedy.Keys == old(speedyHandler.speedy).Keys - {crName}
      ensures forall name :: name in speedyHandler.speedy ==>
        speedyHandler.speedy[name] == old(speedyHandler.speedy)[name]
    {
      speedyHandler.Delete(crName);
    }

    method FinalUpdate(crName: string)
      modifies this`intents
      ensures intents == old(intents) - {crName}
    {
      intents := intents - {crName};
    }
  }
}
