/** The frame property for the runs of two VPCs: one declares a bridge domain, anywhere in its list,
    that the other does not and that no routing table lists. */
module FrameOfRuns {
  import opened Wrappers
  import opened VpcSpec
  import opened Registers
  import opened DeviceTree
  import opened Compilation
  import opened Reconciler
  import opened Frame

  /** Two runs in the same surroundings. The bridge domain is added between them, or removed. */
  datatype TwoRuns = TwoRuns(
    before: seq<BridgeDomain>, bd: BridgeDomain, after: seq<BridgeDomain>,
    routingTables: seq<RoutingTable>, defaultTunnel: Option<string>,
    s: Surroundings, registers: RegisterMap, registersWith: RegisterMap)
  {
    function Without(): Vpc {
      Vpc(before + after, routingTables, defaultTunnel)
    }

    function With(): Vpc {
      Vpc(before + [bd] + after, routingTables, defaultTunnel)
    }

    /** The name is new and unlisted, and what each run reads is there: the allocation of its own network
        instances, made by one registry. */
    ghost predicate Valid() {
      && bd.name !in BridgeDomains(before + after) && Unlisted(View(Without()), bd.name)
      && s.lib.Valid() && s.strategy.Ok? && s.nodes.Ok?
      && Distinct(registers) && AllAllocated(NiNames(View(Without())), registers)
      && Distinct(registersWith) && AllAllocated(NiNames(View(With())), registersWith)
      && (Later(registers, registersWith) || Later(registersWith, registers))
    }

    ghost function Input(): Input
      requires Valid()
    {
      InputOf(Without(), s, registers)
    }

    ghost function InputWith(): Input
      requires Valid()
    {
      InputOf(With(), s, registersWith)
    }
  }

  /** Every run has such a partner: the registry allocates a new index for the new name. */
  lemma PartnerExists(t: TwoRuns, index: nat)
    requires t.bd.name !in BridgeDomains(t.before + t.after) && Unlisted(View(t.Without()), t.bd.name)
    requires t.s.lib.Valid() && t.s.strategy.Ok? && t.s.nodes.Ok?
    requires Distinct(t.registers) && AllAllocated(NiNames(View(t.Without())), t.registers)
    requires BdNi(t.bd.name) !in t.registers
    requires forall n :: n in t.registers ==> t.registers[n].ni != Some(index)
    ensures t.(registersWith := t.registers[BdNi(t.bd.name) := Register(true, Some(index))]).Valid()
  {
    var ni := BdNi(t.bd.name);
    var registersWith := t.registers[ni := Register(true, Some(index))];
    InsertBridgeDomain(t.before, t.bd, t.after);
    assert NiNames(View(t.With())) <= NiNames(View(t.Without())) + {ni};
    forall n | n in NiNames(View(t.Without()))
      ensures Allocated(registersWith, n)
    {
      assert Allocated(t.registers, n);
    }
  }

  /** The inputs of the two runs differ in the bridge domain and its index only. */
  lemma InputsDifferByOne(t: TwoRuns)
    requires t.Valid()
    ensures t.InputWith() == Frame.With(t.Input(), t.bd, t.InputWith().ix)
    ensures Keeps(t.Input(), t.InputWith().ix)
    ensures t.bd.name !in BridgeDomainsOf(t.Input()) && Unlisted(t.Input().vpc, t.bd.name)
    ensures BdNi(t.bd.name) in NiNames(t.InputWith().vpc)
  {
    InsertBridgeDomain(t.before, t.bd, t.after);
    assert BdNi(t.bd.name) in BdNames(View(t.With()));
    forall ni | ni in NiNames(View(t.Without()))
      ensures ni in NiNames(View(t.With())) && t.registersWith[ni] == t.registers[ni]
    {
      assert Allocated(t.registers, ni) && Allocated(t.registersWith, ni);
    }
  }

  /** The run with the bridge domain succeeds iff the one without does and the new selections are in
      order. What they leave on the devices differs in what the new bridge domain adds: its network
      instance, its tunnel, the subinterfaces only it claims, and devices only it selects on. */
  lemma RunsUndisturbed(t: TwoRuns, order: seq<string>)
    requires t.Valid() && Orders(order, RoutingTables(t.routingTables).Keys)
    ensures var i, b, ni := t.Input(), t.InputWith(), BdNi(t.bd.name);
      var c, e := Compile(i, order), Compile(b, order);
      && ni in NiNames(b.vpc)
      && (AllOk(b) <==> AllOk(i) && NiOk(b, ni))
      && (forall device :: device in e <==> device in c || Itfces(b, ni, device) != map[])
      && (forall device, n :: n != ni ==> SameInstance(c, e, device, n))
      && (forall device, k :: SubAt(GetDevice(e, device), k) ==
           SubWith(b, ni, device, k, SubAt(GetDevice(c, device), k)))
      && (forall device, x :: x != b.ix[ni] ==> SameTunnel(c, e, device, x))
  {
    hide Compile, AllOk, NiOk, Itfces, SameInstance, SameTunnel, SubAt, SubWith;
    var i, b, ni := t.Input(), t.InputWith(), BdNi(t.bd.name);
    var c, e := Compile(i, order), Compile(b, order);
    InputsDifferByOne(t);
    SuccessUnchanged(i, t.bd, b.ix);
    forall device
      ensures device in e <==> device in c || Itfces(b, ni, device) != map[]
    {
      DevicesUnchanged(i, t.bd, b.ix, order, device);
    }
    forall device, n | n != ni
      ensures SameInstance(c, e, device, n)
    {
      OtherInstancesUnchanged(i, t.bd, b.ix, order, device, n);
    }
    forall device, k
      ensures SubAt(GetDevice(e, device), k) == SubWith(b, ni, device, k, SubAt(GetDevice(c, device), k))
    {
      SubinterfacesUnchanged(i, t.bd, b.ix, order, device, k);
    }
    forall device, x: nat | x != b.ix[ni]
      ensures SameTunnel(c, e, device, x)
    {
      TunnelsUnchanged(i, t.bd, b.ix, order, device, x);
    }
  }
}
