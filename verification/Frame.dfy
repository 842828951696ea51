/** Changing a VPC by one bridge domain that no routing table lists disturbs nothing else. */
module Frame {
  import opened Wrappers
  import opened VpcSpec
  import opened Registers
  import opened DeviceTree
  import opened Compilation
  import opened Correctness
  import opened Properties
  import IrbGateways

  ghost predicate Unlisted(vpc: VpcView, name: string) {
    forall rt, j :: rt in vpc.routingTables && 0 <= j < |vpc.routingTables[rt].bridgeDomains| ==>
      vpc.routingTables[rt].bridgeDomains[j].name != name
  }

  /** The input with one more bridge domain, and the allocation for it. */
  function With(i: Input, bd: BridgeDomain, ix: Indexes): Input {
    i.(vpc := i.vpc.(bridgeDomains := i.vpc.bridgeDomains[bd.name := bd]), ix := ix)
  }

  /** The network instances there were have the same indexes in both allocations. */
  ghost predicate Keeps(i: Input, ix: Indexes) {
    forall ni :: ni in NiNames(i.vpc) ==> Index(ix, ni) == Index(i.ix, ni)
  }

  lemma SameSelection(i: Input, bd: BridgeDomain, ix: Indexes, ni: NiName, device: string)
    requires bd.name !in BridgeDomainsOf(i) && ni != BdNi(bd.name)
    ensures ni in NiNames(i.vpc) <==> ni in NiNames(With(i, bd, ix).vpc)
    ensures Itfces(With(i, bd, ix), ni, device) == Itfces(i, ni, device)
    ensures TunnelOf(With(i, bd, ix).vpc, ni) == TunnelOf(i.vpc, ni)
  {
    var a, b := i.vpc, With(i, bd, ix).vpc;
    assert ni in NiNames(a) <==> (if ni.BdNi? then ni.name in a.bridgeDomains else ni.name in a.routingTables);
    assert ni in NiNames(b) <==> (if ni.BdNi? then ni.name in b.bridgeDomains else ni.name in b.routingTables);
    if ni in NiNames(a) {
      assert SelectorsOf(b, ni) == SelectorsOf(a, ni);
      assert Selection(With(i, bd, ix), ni, device) == Selection(i, ni, device);
    }
  }

  lemma SameJoins(i: Input, bd: BridgeDomain, ix: Indexes, rt: string, j: int, device: string)
    requires bd.name !in BridgeDomainsOf(i) && Unlisted(i.vpc, bd.name)
    ensures Joins(With(i, bd, ix), rt, j, device) <==> Joins(i, rt, j, device)
  {
    if rt in RoutingTablesOf(i) && 0 <= j < |RoutingTablesOf(i)[rt].bridgeDomains| {
      SameSelection(i, bd, ix, BdNi(Entry(i, rt, j).name), device);
    }
  }

  lemma SameIrb(i: Input, bd: BridgeDomain, ix: Indexes, ni: NiName, device: string)
    requires bd.name !in BridgeDomainsOf(i) && Unlisted(i.vpc, bd.name)
    ensures HasIrb(With(i, bd, ix), ni, device) <==> HasIrb(i, ni, device)
    ensures !HasIrb(i, BdNi(bd.name), device)
  {
    forall rt, j
      ensures Joins(With(i, bd, ix), rt, j, device) <==> Joins(i, rt, j, device)
    {
      SameJoins(i, bd, ix, rt, j, device);
    }
    if HasIrb(i, ni, device) {
      var rt, j :| Joins(i, rt, j, device) && (ni == RtNi(rt) || ni == BdNi(Entry(i, rt, j).name));
      assert Joins(With(i, bd, ix), rt, j, device) && Entry(With(i, bd, ix), rt, j) == Entry(i, rt, j);
    }
    if HasIrb(With(i, bd, ix), ni, device) {
      var rt, j :| Joins(With(i, bd, ix), rt, j, device) &&
        (ni == RtNi(rt) || ni == BdNi(Entry(With(i, bd, ix), rt, j).name));
      assert Joins(i, rt, j, device) && Entry(With(i, bd, ix), rt, j) == Entry(i, rt, j);
    }
  }

  lemma {:induction false} SameLastJoin(i: Input, bd: BridgeDomain, ix: Indexes, rt: string, n: nat, device: string)
    requires bd.name !in BridgeDomainsOf(i) && Unlisted(i.vpc, bd.name)
    ensures LastJoin(With(i, bd, ix), rt, n, device) == LastJoin(i, rt, n, device)
  {
    if n > 0 {
      SameLastJoin(i, bd, ix, rt, n - 1, device);
      SameJoins(i, bd, ix, rt, n - 1, device);
    }
  }

  lemma {:induction false} SameClaimant(
    i: Input, bd: BridgeDomain, ix: Indexes, order: seq<string>, device: string, name: string, vlan: nat)
    requires bd.name !in BridgeDomainsOf(i)
    ensures LastClaimant(With(i, bd, ix), order, device, name, vlan) == LastClaimant(i, order, device, name, vlan)
  {
    if |order| > 0 {
      SameClaimant(i, bd, ix, order[..|order| - 1], device, name, vlan);
      SameSelection(i, bd, ix, RtNi(order[|order| - 1]), device);
    }
  }

  ghost predicate SameInstance(c: FabricConfig, e: FabricConfig, device: string, ni: NiName) {
    && (ni in GetDevice(c, device).nis <==> ni in GetDevice(e, device).nis)
    && GetNi(GetDevice(c, device), ni) == GetNi(GetDevice(e, device), ni)
  }

  ghost predicate SameTunnel(c: FabricConfig, e: FabricConfig, device: string, x: nat) {
    var d, f := GetDevice(c, device).vxlans, GetDevice(e, device).vxlans;
    && (x in d <==> x in f)
    && (x in d ==> d[x] == f[x])
  }

  /** Every network instance other than the new one is the same, on every device. */
  lemma OtherInstancesUnchanged(i: Input, bd: BridgeDomain, ix: Indexes, order: seq<string>, device: string, ni: NiName)
    requires Keeps(i, ix)
    requires i.Valid() && With(i, bd, ix).Valid() && bd.name !in BridgeDomainsOf(i) && Unlisted(i.vpc, bd.name)
    requires ni != BdNi(bd.name)
    ensures SameInstance(Compile(i, order), Compile(With(i, bd, ix), order), device, ni)
  {
    DeviceOf(i, order, device);
    DeviceOf(With(i, bd, ix), order, device);
    SameSelection(i, bd, ix, ni, device);
    SameIrb(i, bd, ix, ni, device);
    SameInterfaces(i, bd, ix, ni, device);
  }

  lemma SameInterfaces(i: Input, bd: BridgeDomain, ix: Indexes, ni: NiName, device: string)
    requires Keeps(i, ix)
    requires bd.name !in BridgeDomainsOf(i) && Unlisted(i.vpc, bd.name) && ni != BdNi(bd.name)
    ensures NiInterfaces(With(i, bd, ix), ni, device) == NiInterfaces(i, ni, device)
    ensures NiVxlans(With(i, bd, ix), ni) == NiVxlans(i, ni)
  {
    SameSelection(i, bd, ix, ni, device);
    SameIrb(i, bd, ix, ni, device);
  }

  /** A subinterface, or one that a bridge domain adds where there is none. */
  function SubWith(i: Input, ni: NiName, device: string, k: SubKey, sub: Option<Subinterface>): Option<Subinterface> {
    if sub.None? && k.itfce != IRB0 && Claims(i, ni, device, k.itfce, k.index) then Some(BridgedSub(k.index)) else sub
  }

  /** Every subinterface there was is the same. The only new ones are those the new bridge domain claims
      and nothing else did, and they are bridged. */
  lemma SubinterfacesUnchanged(i: Input, bd: BridgeDomain, ix: Indexes, order: seq<string>, device: string, k: SubKey)
    requires Keeps(i, ix)
    requires i.Valid() && With(i, bd, ix).Valid() && bd.name !in BridgeDomainsOf(i) && Unlisted(i.vpc, bd.name)
    requires Orders(order, RoutingTablesOf(i).Keys)
    ensures SubAt(GetDevice(Compile(With(i, bd, ix), order), device), k) ==
      SubWith(With(i, bd, ix), BdNi(bd.name), device, k, SubAt(GetDevice(Compile(i, order), device), k))
  {
    DeviceOf(i, order, device);
    DeviceOf(With(i, bd, ix), order, device);
    if k.itfce == IRB0 {
      IrbUnchanged(i, bd, ix, order, device, k.index);
    } else {
      EthernetUnchanged(i, bd, ix, order, device, k.itfce, k.index);
    }
  }

  lemma EthernetUnchanged(
    i: Input, bd: BridgeDomain, ix: Indexes, order: seq<string>, device: string, name: string, vlan: nat)
    requires i.Valid() && With(i, bd, ix).Valid() && bd.name !in BridgeDomainsOf(i) && name != IRB0
    requires Orders(order, RoutingTablesOf(i).Keys)
    ensures var d, e := CompileDevice(i, order, device), CompileDevice(With(i, bd, ix), order, device);
      SubAt(e, SubKey(name, vlan)) ==
        if SubAt(d, SubKey(name, vlan)).None? && Claims(With(i, bd, ix), BdNi(bd.name), device, name, vlan) then
          Some(BridgedSub(vlan))
        else SubAt(d, SubKey(name, vlan))
  {
    EthernetSpec(i, order, device, name, vlan);
    EthernetSpec(With(i, bd, ix), order, device, name, vlan);
    SameClaims(i, bd, ix, device, name, vlan);
    SameEthernet(i, bd, ix, order, device, name, vlan);
  }

  ghost predicate Claimed(i: Input, device: string, name: string, vlan: nat) {
    exists ni :: ni in NiNames(i.vpc) && Claims(i, ni, device, name, vlan)
  }

  lemma SameClaims(i: Input, bd: BridgeDomain, ix: Indexes, device: string, name: string, vlan: nat)
    requires bd.name !in BridgeDomainsOf(i)
    ensures Claimed(With(i, bd, ix), device, name, vlan) <==>
      Claimed(i, device, name, vlan) || Claims(With(i, bd, ix), BdNi(bd.name), device, name, vlan)
  {
    assert BdNi(bd.name) in BdNames(With(i, bd, ix).vpc);
    forall ni | ni != BdNi(bd.name)
      ensures ni in NiNames(i.vpc) <==> ni in NiNames(With(i, bd, ix).vpc)
      ensures Claims(With(i, bd, ix), ni, device, name, vlan) <==> Claims(i, ni, device, name, vlan)
    {
      SameSelection(i, bd, ix, ni, device);
    }
    assert BdNi(bd.name) !in NiNames(i.vpc);
  }

  lemma SameEthernet(
    i: Input, bd: BridgeDomain, ix: Indexes, order: seq<string>, device: string, name: string, vlan: nat)
    requires i.Valid() && bd.name !in BridgeDomainsOf(i) && Orders(order, RoutingTablesOf(i).Keys)
    ensures EthernetSub(With(i, bd, ix), order, device, name, vlan) == EthernetSub(i, order, device, name, vlan)
    ensures !Claimed(i, device, name, vlan) ==> EthernetSub(i, order, device, name, vlan) == BridgedSub(vlan)
  {
    SameClaimant(i, bd, ix, order, device, name, vlan);
    LastClaimantExists(i, order, device, name, vlan);
    match LastClaimant(i, order, device, name, vlan) {
      case None =>
      case Some(rt) =>
        SameSelection(i, bd, ix, RtNi(rt), device);
        assert RtNi(rt) in NiNames(i.vpc);
    }
  }

  lemma IrbUnchanged(i: Input, bd: BridgeDomain, ix: Indexes, order: seq<string>, device: string, x: nat)
    requires Keeps(i, ix)
    requires i.Valid() && With(i, bd, ix).Valid() && bd.name !in BridgeDomainsOf(i) && Unlisted(i.vpc, bd.name)
    ensures SubAt(CompileDevice(With(i, bd, ix), order, device), SubKey(IRB0, x)) ==
      SubAt(CompileDevice(i, order, device), SubKey(IRB0, x))
  {
    hide CompileDevice, HasIrb, IrbSub, SubAt, Keeps;
    IrbSpec(i, order, device, x);
    IrbSpec(With(i, bd, ix), order, device, x);
    if ni :| ni in IrbNis(i, device) && i.ix[ni] == x {
      SameLegOwner(i, bd, ix, ni, device);
      SameLeg(i, bd, ix, ni, device);
      IrbGateways.LegIs(i, order, ni, device);
      IrbGateways.LegIs(With(i, bd, ix), order, ni, device);
    } else {
      forall ni | ni in IrbNis(With(i, bd, ix), device)
        ensures ix[ni] != x
      {
        SameLegOwner(i, bd, ix, ni, device);
      }
    }
  }

  lemma SameLegOwner(i: Input, bd: BridgeDomain, ix: Indexes, ni: NiName, device: string)
    requires Keeps(i, ix)
    requires i.Valid() && With(i, bd, ix).Valid() && bd.name !in BridgeDomainsOf(i) && Unlisted(i.vpc, bd.name)
    requires ni in IrbNis(i, device) || ni in IrbNis(With(i, bd, ix), device)
    ensures ni in IrbNis(i, device) && ni in IrbNis(With(i, bd, ix), device)
    ensures ni in NiNames(i.vpc) && ni in NiNames(With(i, bd, ix).vpc) && ix[ni] == i.ix[ni]
    ensures HasIrb(i, ni, device) && HasIrb(With(i, bd, ix), ni, device)
  {
    hide HasIrb;
    SameIrb(i, bd, ix, ni, device);
    SameSelection(i, bd, ix, ni, device);
    assert Index(ix, ni) == Index(i.ix, ni);
  }

  lemma SameLeg(i: Input, bd: BridgeDomain, ix: Indexes, ni: NiName, device: string)
    requires i.Valid() && bd.name !in BridgeDomainsOf(i) && Unlisted(i.vpc, bd.name)
    requires HasIrb(i, ni, device) || HasIrb(With(i, bd, ix), ni, device)
    ensures ni != BdNi(bd.name) && HasIrb(i, ni, device) && HasIrb(With(i, bd, ix), ni, device)
    ensures IrbSub(With(i, bd, ix), ni, device) == IrbSub(i, ni, device)
  {
    hide HasIrb, Joins;
    SameIrb(i, bd, ix, ni, device);
    if ni.RtNi? && ni.name in RoutingTablesOf(i) {
      SameLastJoin(i, bd, ix, ni.name, |RoutingTablesOf(i)[ni.name].bridgeDomains|, device);
    }
  }

  /** Every tunnel subinterface except the new bridge domain's own is the same. */
  lemma TunnelsUnchanged(i: Input, bd: BridgeDomain, ix: Indexes, order: seq<string>, device: string, x: nat)
    requires Keeps(i, ix)
    requires i.Valid() && With(i, bd, ix).Valid() && bd.name !in BridgeDomainsOf(i) && Unlisted(i.vpc, bd.name)
    requires x != ix[BdNi(bd.name)]
    ensures SameTunnel(Compile(i, order), Compile(With(i, bd, ix), order), device, x)
  {
    hide CompileDevice, Compile, OnDevice, TunnelOf, Keeps;
    DeviceOf(i, order, device);
    DeviceOf(With(i, bd, ix), order, device);
    VxlanSpec(i, order, device, x);
    VxlanSpec(With(i, bd, ix), order, device, x);
    forall ni | ni in VxlanNis(i, device) || (ni in VxlanNis(With(i, bd, ix), device) && ni != BdNi(bd.name))
      ensures ni in VxlanNis(i, device) && ni in VxlanNis(With(i, bd, ix), device)
      ensures ix[ni] == i.ix[ni] && VxlanConfig(ix, ni) == VxlanConfig(i.ix, ni)
    {
      SameTunnelOwner(i, bd, ix, ni, device);
    }
  }

  lemma SameTunnelOwner(i: Input, bd: BridgeDomain, ix: Indexes, ni: NiName, device: string)
    requires Keeps(i, ix)
    requires i.Valid() && With(i, bd, ix).Valid() && bd.name !in BridgeDomainsOf(i) && Unlisted(i.vpc, bd.name)
    requires ni in VxlanNis(i, device) || (ni in VxlanNis(With(i, bd, ix), device) && ni != BdNi(bd.name))
    ensures ni in VxlanNis(i, device) && ni in VxlanNis(With(i, bd, ix), device)
    ensures ix[ni] == i.ix[ni] && VxlanConfig(ix, ni) == VxlanConfig(i.ix, ni)
  {
    hide HasIrb;
    SameSelection(i, bd, ix, ni, device);
    SameIrb(i, bd, ix, ni, device);
    assert Index(ix, ni) == Index(i.ix, ni);
  }

  /** Every device that was configured still is, and the others only if the new bridge domain selects
      something there. */
  lemma DevicesUnchanged(i: Input, bd: BridgeDomain, ix: Indexes, order: seq<string>, device: string)
    requires i.Valid() && With(i, bd, ix).Valid() && bd.name !in BridgeDomainsOf(i)
    ensures device in Compile(With(i, bd, ix), order) <==>
      device in Compile(i, order) || Itfces(With(i, bd, ix), BdNi(bd.name), device) != map[]
  {
    hide Compile, Itfces;
    var b := With(i, bd, ix);
    ConfiguredIff(i, order, device);
    ConfiguredIff(b, order, device);
    assert BdNi(bd.name) in BdNames(b.vpc) && BdNi(bd.name) !in NiNames(i.vpc);
    forall ni | ni != BdNi(bd.name)
      ensures ni in NiNames(i.vpc) <==> ni in NiNames(b.vpc)
      ensures Itfces(b, ni, device) == Itfces(i, ni, device)
    {
      SameSelection(i, bd, ix, ni, device);
    }
  }

  /** A run with the bridge domain succeeds iff one without does and the new bridge domain's own
      selections are in order. */
  lemma SuccessUnchanged(i: Input, bd: BridgeDomain, ix: Indexes)
    requires bd.name !in BridgeDomainsOf(i) && Unlisted(i.vpc, bd.name)
    ensures BdNi(bd.name) in NiNames(With(i, bd, ix).vpc)
    ensures AllOk(With(i, bd, ix)) <==> AllOk(i) && NiOk(With(i, bd, ix), BdNi(bd.name))
  {
    hide NiOk, JoinOk, Itfces;
    var b := With(i, bd, ix);
    assert BdNi(bd.name) in BdNames(b.vpc) && BdNi(bd.name) !in NiNames(i.vpc);
    forall ni | ni != BdNi(bd.name)
      ensures ni in NiNames(i.vpc) <==> ni in NiNames(b.vpc)
      ensures ni in NiNames(i.vpc) ==> (NiOk(i, ni) <==> NiOk(b, ni))
    {
      SameOk(i, bd, ix, ni);
    }
    forall rt, j, device
      ensures Joins(b, rt, j, device) <==> Joins(i, rt, j, device)
      ensures Joins(i, rt, j, device) ==> (JoinOk(b, Entry(b, rt, j)) <==> JoinOk(i, Entry(i, rt, j)))
    {
      SameJoinOk(i, bd, ix, rt, j, device);
    }
  }

  lemma SameOk(i: Input, bd: BridgeDomain, ix: Indexes, ni: NiName)
    requires bd.name !in BridgeDomainsOf(i) && ni != BdNi(bd.name)
    ensures ni in NiNames(i.vpc) <==> ni in NiNames(With(i, bd, ix).vpc)
    ensures ni in NiNames(i.vpc) ==> (NiOk(i, ni) <==> NiOk(With(i, bd, ix), ni))
  {
    SameSelection(i, bd, ix, ni, "");
    if ni in NiNames(i.vpc) {
      assert SelectorsOf(With(i, bd, ix).vpc, ni) == SelectorsOf(i.vpc, ni);
      forall device
        ensures OwnOk(With(i, bd, ix), ni, device) <==> OwnOk(i, ni, device)
      {
        assert Selection(With(i, bd, ix), ni, device) == Selection(i, ni, device);
      }
    }
  }

  lemma SameJoinOk(i: Input, bd: BridgeDomain, ix: Indexes, rt: string, j: int, device: string)
    requires bd.name !in BridgeDomainsOf(i) && Unlisted(i.vpc, bd.name)
    ensures Joins(With(i, bd, ix), rt, j, device) <==> Joins(i, rt, j, device)
    ensures Joins(i, rt, j, device) ==>
      (JoinOk(With(i, bd, ix), Entry(With(i, bd, ix), rt, j)) <==> JoinOk(i, Entry(i, rt, j)))
  {
    SameJoins(i, bd, ix, rt, j, device);
  }
}
