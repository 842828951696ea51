/** The compiled fabric in terms of what the VPC declares and the library answers: the selectors of each
    bridge domain and routing table, the lists of the routing tables, the tunnels, and the fields of every
    part of the configuration one by one. */
module Declared {
  import opened Wrappers
  import opened Decimal
  import opened Gateway
  import opened VpcSpec
  import opened Registers
  import opened DeviceTree
  import opened Compilation
  import opened Correctness
  import opened Properties
  import opened IrbGateways

  // ---------- what the VPC declares ----------

  /** Selectors pick an interface on a device: an SRL node has its name, and they validate to selectors by
      which the library selects it. */
  ghost predicate Picks(i: Input, selectors: Selectors, device: string, name: string, s: SelectedItfce) {
    && NodeInfo(device, "srl") in i.nodes
    && i.lib.validate(selectors).Ok?
    && var selected := i.lib.select(device, i.lib.validate(selectors).value);
      selected.Ok? && name in selected.value && selected.value[name] == s
  }

  ghost predicate BdPicks(i: Input, bd: string, device: string, name: string, s: SelectedItfce) {
    bd in i.vpc.bridgeDomains && Picks(i, i.vpc.bridgeDomains[bd].selectors, device, name, s)
  }

  ghost predicate RtPicks(i: Input, rt: string, device: string, name: string, s: SelectedItfce) {
    rt in i.vpc.routingTables && Picks(i, i.vpc.routingTables[rt].selectors, device, name, s)
  }

  ghost predicate NiPicks(i: Input, ni: NiName, device: string, name: string, s: SelectedItfce) {
    match ni
    case BdNi(bd) => BdPicks(i, bd, device, name, s)
    case RtNi(rt) => RtPicks(i, rt, device, name, s)
  }

  /** Entry j of the list of a routing table names a bridge domain that picks something on the device. */
  ghost predicate Lists(i: Input, rt: string, j: int, bd: string, device: string) {
    && rt in i.vpc.routingTables && 0 <= j < |i.vpc.routingTables[rt].bridgeDomains|
    && i.vpc.routingTables[rt].bridgeDomains[j].name == bd
    && exists name, s :: BdPicks(i, bd, device, name, s)
  }

  /** A network instance is routed to on a device: as the routing table, or as the listed bridge domain. */
  ghost predicate TakesPart(i: Input, ni: NiName, device: string) {
    exists rt, j, bd :: Lists(i, rt, j, bd, device) && (ni == RtNi(rt) || ni == BdNi(bd))
  }

  /** Its own tunnel is vxlan, or it names none and that of the defaults is. */
  predicate IsVxlan(own: Option<string>, default: Option<string>) {
    own == Some("vxlan") || (own.None? && default == Some("vxlan"))
  }

  predicate UsesVxlan(i: Input, ni: NiName) {
    match ni
    case BdNi(bd) => bd in i.vpc.bridgeDomains && IsVxlan(i.vpc.bridgeDomains[bd].tunnel, i.vpc.defaultTunnel)
    case RtNi(rt) => rt in i.vpc.routingTables && IsVxlan(i.vpc.routingTables[rt].tunnel, i.vpc.defaultTunnel)
  }

  // ---------- the compiler's own notions, in these terms ----------

  lemma PicksIff(i: Input, ni: NiName, device: string, name: string, s: SelectedItfce)
    ensures NiPicks(i, ni, device, name, s) <==>
      name in Itfces(i, ni, device) && Itfces(i, ni, device)[name] == s
    ensures NiPicks(i, ni, device, name, s) ==> ni in NiNames(i.vpc)
  {
    SrlIff(i, device);
    match ni {
      case BdNi(bd) => assert ni in NiNames(i.vpc) <==> bd in i.vpc.bridgeDomains;
      case RtNi(rt) => assert ni in NiNames(i.vpc) <==> rt in i.vpc.routingTables;
    }
  }

  lemma PicksSome(i: Input, ni: NiName, device: string)
    ensures Itfces(i, ni, device) != map[] <==> exists name, s :: NiPicks(i, ni, device, name, s)
  {
    hide NiPicks, Itfces;
    if name :| name in Itfces(i, ni, device) {
      PicksIff(i, ni, device, name, Itfces(i, ni, device)[name]);
    }
    if name, s :| NiPicks(i, ni, device, name, s) {
      PicksIff(i, ni, device, name, s);
    }
  }

  lemma ClaimsIff(i: Input, ni: NiName, device: string, name: string, vlan: nat)
    ensures Claims(i, ni, device, name, vlan) <==>
      exists s :: NiPicks(i, ni, device, name, s) && s.outerVlan == vlan
  {
    hide NiPicks, Itfces;
    if name in Itfces(i, ni, device) {
      PicksIff(i, ni, device, name, Itfces(i, ni, device)[name]);
    }
    if s :| NiPicks(i, ni, device, name, s) && s.outerVlan == vlan {
      PicksIff(i, ni, device, name, s);
    }
  }

  lemma ListsIff(i: Input, rt: string, j: int, bd: string, device: string)
    ensures Lists(i, rt, j, bd, device) <==> Joins(i, rt, j, device) && Entry(i, rt, j).name == bd
  {
    PicksSome(i, BdNi(bd), device);
    if name, s :| BdPicks(i, bd, device, name, s) {
      assert NiPicks(i, BdNi(bd), device, name, s);
    }
    if name, s :| NiPicks(i, BdNi(bd), device, name, s) {
      assert BdPicks(i, bd, device, name, s);
    }
  }

  lemma TakesPartIff(i: Input, ni: NiName, device: string)
    ensures TakesPart(i, ni, device) <==> HasIrb(i, ni, device)
  {
    hide Lists, Itfces;
    if rt, j :| Joins(i, rt, j, device) && (ni == RtNi(rt) || ni == BdNi(Entry(i, rt, j).name)) {
      ListsIff(i, rt, j, Entry(i, rt, j).name, device);
    }
    if rt, j, bd :| Lists(i, rt, j, bd, device) && (ni == RtNi(rt) || ni == BdNi(bd)) {
      ListsIff(i, rt, j, bd, device);
    }
  }

  lemma VxlanIff(i: Input, ni: NiName)
    ensures UsesVxlan(i, ni) <==> TunnelOf(i.vpc, ni) == VXLAN
  {
    assert VXLAN == "vxlan";
    assert "" != "vxlan";
  }

  // ---------- devices and network instances ----------

  /** A device is configured iff some bridge domain or routing table picks an interface there. */
  lemma ConfiguredIff(i: Input, order: seq<string>, device: string)
    requires i.Valid()
    ensures device in Compile(i, order) <==>
      || (exists bd, name, s :: BdPicks(i, bd, device, name, s))
      || (exists rt, name, s :: RtPicks(i, rt, device, name, s))
  {
    hide Compile, Itfces, Picks;
    Properties.ConfiguredIff(i, order, device);
    if bd, name, s :| BdPicks(i, bd, device, name, s) {
      assert NiPicks(i, BdNi(bd), device, name, s);
      PicksIff(i, BdNi(bd), device, name, s);
    }
    if rt, name, s :| RtPicks(i, rt, device, name, s) {
      assert NiPicks(i, RtNi(rt), device, name, s);
      PicksIff(i, RtNi(rt), device, name, s);
    }
    if ni :| ni in NiNames(i.vpc) && Itfces(i, ni, device) != map[] {
      PicksSome(i, ni, device);
      var name, s :| NiPicks(i, ni, device, name, s);
      assert BdPicks(i, ni.name, device, name, s) || RtPicks(i, ni.name, device, name, s);
    }
  }

  /** A network instance is on a device iff it picks an interface there or takes part in routing there. */
  lemma InstanceIff(i: Input, order: seq<string>, device: string, ni: NiName)
    requires i.Valid()
    ensures ni in GetDevice(Compile(i, order), device).nis <==>
      (exists name, s :: NiPicks(i, ni, device, name, s)) || TakesPart(i, ni, device)
  {
    hide Compile, Itfces, NiPicks, TakesPart, HasIrb;
    DeviceOf(i, order, device);
    PicksSome(i, ni, device);
    TakesPartIff(i, ni, device);
    if name, s :| NiPicks(i, ni, device, name, s) {
      PicksIff(i, ni, device, name, s);
    }
    if HasIrb(i, ni, device) {
      var w := HasIrbFacts(i, ni, device);
    }
    assert ni in CompileDevice(i, order, device).nis <==> ni in NisOn(i, device);
  }

  /** Its fields. A bridge domain becomes a mac-vrf that learns addresses, a routing table an ip-vrf that
      forwards packets. The EVPN instance is enabled, with two equal-cost paths. */
  lemma InstanceFields(i: Input, order: seq<string>, device: string, ni: NiName)
    requires i.Valid() && ni in GetDevice(Compile(i, order), device).nis
    ensures ni in i.ix
    ensures var x := GetDevice(Compile(i, order), device).nis[ni];
      && x.niType == Some(if ni.BdNi? then MacVrf else IpVrf)
      && x.macLearning == ni.BdNi? && x.ipForwarding == ni.RtNi?
      && x.bgpEvpn == Some(BgpEvpn(true, i.ix[ni], 2, "vxlan0." + Itoa(i.ix[ni])))
      && x.bgpVpn == Some(RouteTarget("target:65555:" + Itoa(i.ix[ni]), "target:65555:" + Itoa(i.ix[ni])))
  {
    InstanceIs(i, order, device, ni);
    DottedIs(i.ix[ni]);
    hide Compile;
  }

  lemma DottedIs(index: nat)
    ensures Dotted(VXLAN0, index) == "vxlan0." + Itoa(index)
    ensures Dotted(IRB0, index) == "irb0." + Itoa(index)
  {
    assert "vxlan0" + ['.'] == "vxlan0.";
    assert "irb0" + ['.'] == "irb0.";
  }

  /** Its lists: the interfaces it picks, each with its VLAN, its IRB leg if it takes part in routing, and its
      tunnel if that is vxlan. */
  lemma InstanceLists(i: Input, order: seq<string>, device: string, ni: NiName, entry: string)
    requires i.Valid() && ni in GetDevice(Compile(i, order), device).nis && ni in i.ix
    ensures var x := GetDevice(Compile(i, order), device).nis[ni];
      && (entry in x.interfaces <==>
           || (exists name, s :: NiPicks(i, ni, device, name, s) && entry == name + "." + Itoa(s.outerVlan))
           || (TakesPart(i, ni, device) && entry == "irb0." + Itoa(i.ix[ni])))
      && x.vxlanInterfaces == if UsesVxlan(i, ni) then {"vxlan0." + Itoa(i.ix[ni])} else {}
  {
    InstanceIs(i, order, device, ni);
    ListsAre(i, device, ni, entry);
    hide Compile, CompileDevice, NiInterfaces, NiVxlans, TakesPart, UsesVxlan, NiPicks;
  }

  lemma ListsAre(i: Input, device: string, ni: NiName, entry: string)
    requires ni in i.ix
    ensures entry in NiInterfaces(i, ni, device) <==>
      || (exists name, s :: NiPicks(i, ni, device, name, s) && entry == name + "." + Itoa(s.outerVlan))
      || (TakesPart(i, ni, device) && entry == "irb0." + Itoa(i.ix[ni]))
    ensures NiVxlans(i, ni) == if UsesVxlan(i, ni) then {"vxlan0." + Itoa(i.ix[ni])} else {}
  {
    hide HasIrb, TakesPart, TunnelOf, UsesVxlan, NiPicks, Itfces, Itoa;
    DottedIs(i.ix[ni]);
    TakesPartIff(i, ni, device);
    VxlanIff(i, ni);
    EntryIs(i, ni, device, entry);
  }

  lemma EntryIs(i: Input, ni: NiName, device: string, entry: string)
    ensures var m := Itfces(i, ni, device);
      (exists name :: name in m && entry == Dotted(name, m[name].outerVlan))
      <==> exists name, s :: NiPicks(i, ni, device, name, s) && entry == name + "." + Itoa(s.outerVlan)
  {
    hide NiPicks, Itfces;
    if name :| name in Itfces(i, ni, device) && entry == Dotted(name, Itfces(i, ni, device)[name].outerVlan) {
      PicksIff(i, ni, device, name, Itfces(i, ni, device)[name]);
    }
    if name, s :| NiPicks(i, ni, device, name, s) && entry == name + "." + Itoa(s.outerVlan) {
      PicksIff(i, ni, device, name, s);
    }
  }

  /** A tunnel subinterface belongs to a network instance on the device that uses vxlan, under its index:
      bridged or routed like it, with the index as VNI and the system address as source. */
  lemma TunnelIff(i: Input, order: seq<string>, device: string, x: nat)
    requires i.Valid()
    ensures var d := GetDevice(Compile(i, order), device);
      && (x in d.vxlans <==> exists ni :: ni in d.nis && UsesVxlan(i, ni) && ni in i.ix && i.ix[ni] == x)
      && forall ni :: ni in d.nis && ni in i.ix && i.ix[ni] == x && x in d.vxlans ==>
           d.vxlans[x] == VxlanInterface(if ni.BdNi? then Bridged else Routed, x, true)
  {
    DeviceOf(i, order, device);
    VxlanSpec(i, order, device, x);
    forall ni | ni in NisOn(i, device)
      ensures UsesVxlan(i, ni) <==> TunnelOf(i.vpc, ni) == VXLAN
      ensures i.ix[ni] == x && x in CompileDevice(i, order, device).vxlans ==>
        CompileDevice(i, order, device).vxlans[x] == VxlanInterface(if ni.BdNi? then Bridged else Routed, x, true)
    {
      VxlanIff(i, ni);
      TunnelIs(i, order, device, ni);
    }
    hide Compile, UsesVxlan, TunnelOf, OnDevice;
  }

  // ---------- subinterfaces ----------

  /** An interface other than irb0 has a subinterface under a VLAN iff some network instance picks it with
      that VLAN. */
  lemma EthernetIff(i: Input, order: seq<string>, device: string, name: string, vlan: nat)
    requires i.Valid() && name != "irb0"
    ensures SubAt(GetDevice(Compile(i, order), device), SubKey(name, vlan)).Some? <==>
      exists ni, s :: NiPicks(i, ni, device, name, s) && s.outerVlan == vlan
  {
    hide Compile, CompileDevice, Itfces, NiPicks, EthernetSub;
    DeviceOf(i, order, device);
    EthernetSpec(i, order, device, name, vlan);
    if ni :| ni in NiNames(i.vpc) && Claims(i, ni, device, name, vlan) {
      ClaimsIff(i, ni, device, name, vlan);
      var s :| NiPicks(i, ni, device, name, s) && s.outerVlan == vlan;
    }
    if ni, s :| NiPicks(i, ni, device, name, s) && s.outerVlan == vlan {
      PicksIff(i, ni, device, name, s);
      ClaimsIff(i, ni, device, name, vlan);
    }
  }

  /** If no routing table picks it, it is bridged and carries nothing but the VLAN. */
  lemma BridgedIs(i: Input, order: seq<string>, device: string, name: string, vlan: nat)
    requires i.Valid() && Orders(order, i.vpc.routingTables.Keys) && name != "irb0"
    requires SubAt(GetDevice(Compile(i, order), device), SubKey(name, vlan)).Some?
    requires forall rt, s :: RtPicks(i, rt, device, name, s) ==> s.outerVlan != vlan
    ensures SubAt(GetDevice(Compile(i, order), device), SubKey(name, vlan))
      == Some(Subinterface(Some(Bridged), Some(vlan), None, None, None))
  {
    hide Compile, CompileDevice, Itfces, NiPicks;
    DeviceOf(i, order, device);
    EthernetSpec(i, order, device, name, vlan);
    LastClaimantExists(i, order, device, name, vlan);
    match LastClaimant(i, order, device, name, vlan) {
      case None =>
      case Some(rt) =>
        ClaimsIff(i, RtNi(rt), device, name, vlan);
        var s :| NiPicks(i, RtNi(rt), device, name, s) && s.outerVlan == vlan;
        RoutedPick(i, rt, device, name, s);
    }
  }

  /** The addresses of a list of prefixes, as an interface carries them: none for no prefixes. */
  ghost function Carried(i: Input, link: nat, prefixes: seq<string>): Option<IpConfig> {
    if prefixes == [] then None
    else Some(IpConfig(map p | p in Normalised(i, link, prefixes) :: Address(p, None), None))
  }

  ghost function Normalised(i: Input, link: nat, prefixes: seq<string>): set<string> {
    set p | p in prefixes && Normalise(i.lib.text, link, i.allocation, p).Ok? ::
      Normalise(i.lib.text, link, i.allocation, p).value
  }

  /** Otherwise it is routed, with the addresses the last routing table to pick it gives: the point-to-point
      length is 31 for IPv4 and 127 for IPv6, and no address is anycast. */
  lemma RoutedIs(i: Input, order: seq<string>, k: nat, device: string, name: string, s: SelectedItfce)
    requires i.Valid() && AllOk(i) && k < |order| && name != "irb0"
    requires RtPicks(i, order[k], device, name, s)
    requires forall l, t :: k < l < |order| && RtPicks(i, order[l], device, name, t) ==> t.outerVlan != s.outerVlan
    ensures SubAt(GetDevice(Compile(i, order), device), SubKey(name, s.outerVlan)) == Some(Subinterface(
      Some(Routed), Some(s.outerVlan), Carried(i, 31, s.ipv4Prefixes), Carried(i, 127, s.ipv6Prefixes), None))
  {
    hide Compile, CompileDevice, Itfces, NiPicks, RtPicks, AllOk, Carried;
    RoutedPick(i, order[k], device, name, s);
    PicksIff(i, RtNi(order[k]), device, name, s);
    LastPickIs(i, order, k, device, name, s);
    DeviceOf(i, order, device);
    EthernetSpec(i, order, device, name, s.outerVlan);
    PickedOk(i, order[k], device, name, s);
    CarriedIs(i, s);
  }

  lemma {:induction false} LastPickIs(
    i: Input, order: seq<string>, k: nat, device: string, name: string, s: SelectedItfce)
    requires k < |order| && RtPicks(i, order[k], device, name, s)
    requires forall l, t :: k < l < |order| && RtPicks(i, order[l], device, name, t) ==> t.outerVlan != s.outerVlan
    ensures LastClaimant(i, order, device, name, s.outerVlan) == Some(order[k])
  {
    hide NiPicks, Itfces, RtPicks;
    var n := |order| - 1;
    ClaimsIff(i, RtNi(order[n]), device, name, s.outerVlan);
    if k < n {
      LastPickIs(i, order[..n], k, device, name, s);
      if t :| NiPicks(i, RtNi(order[n]), device, name, t) && t.outerVlan == s.outerVlan {
        RoutedPick(i, order[n], device, name, t);
      }
    } else {
      RoutedPick(i, order[k], device, name, s);
    }
  }

  lemma PickedOk(i: Input, rt: string, device: string, name: string, s: SelectedItfce)
    requires AllOk(i) && RtPicks(i, rt, device, name, s)
    ensures AddressesOk(i, s.ipv4Prefixes, s.ipv6Prefixes)
  {
    RoutedPick(i, rt, device, name, s);
    PicksIff(i, RtNi(rt), device, name, s);
    assert NiOk(i, RtNi(rt)) && OwnOk(i, RtNi(rt), device);
  }

  lemma CarriedIs(i: Input, s: SelectedItfce)
    requires AddressesOk(i, s.ipv4Prefixes, s.ipv6Prefixes)
    ensures Plain(Or(Ipv4Of(i, s.ipv4Prefixes))) == Carried(i, 31, s.ipv4Prefixes)
    ensures Plain(Or(Ipv6Of(i, s.ipv6Prefixes))) == Carried(i, 127, s.ipv6Prefixes)
  {
    NormalisedIs(i, 31, s.ipv4Prefixes);
    NormalisedIs(i, 127, s.ipv6Prefixes);
  }

  lemma NormalisedIs(i: Input, link: nat, prefixes: seq<string>)
    ensures var a := Addresses(i.lib.text, link, i.allocation, prefixes);
      a.Ok? ==> a.value == map p | p in Normalised(i, link, prefixes) :: Address(p, None)
  {
    hide Normalise;
    AddressesExact(i.lib.text, link, i.allocation, prefixes);
    if EachNormalises(i.lib.text, link, i.allocation, prefixes) {
      assert Normalised(i, link, prefixes) == Images(i.lib.text, link, i.allocation, prefixes);
    }
  }

  /** Subinterfaces of irb0 are the legs of the network instances that take part in routing, each under its
      index. That of a bridge domain is empty. */
  lemma BridgedLegIs(i: Input, order: seq<string>, device: string, ni: NiName)
    requires i.Valid() && ni in NiNames(i.vpc)
    ensures var leg := SubAt(GetDevice(Compile(i, order), device), SubKey("irb0", i.ix[ni]));
      && (leg.Some? <==> TakesPart(i, ni, device))
      && (leg.Some? && ni.BdNi? ==> leg == Some(Subinterface(None, None, None, None, None)))
  {
    hide Compile, CompileDevice, HasIrb, TakesPart;
    DeviceOf(i, order, device);
    LegIs(i, order, ni, device);
    TakesPartIff(i, ni, device);
  }

  /** That of a routing table has the gateways of the last entry of its list that takes part: IPv4 ones are
      anycast; both families learn unsolicited neighbours, populate host routes and advertise them
      dynamically; the virtual router id is 1. */
  lemma RoutedLegIs(i: Input, order: seq<string>, device: string, rt: string, j: int, bd: string)
    requires i.Valid() && AllOk(i) && Lists(i, rt, j, bd, device)
    requires forall k, b :: k > j ==> !Lists(i, rt, k, b, device)
    ensures RtNi(rt) in i.ix
    ensures var l := i.vpc.routingTables[rt].bridgeDomains[j];
      var learning := Some(Neighbors(true, {Dynamic}, {Dynamic}));
      SubAt(GetDevice(Compile(i, order), device), SubKey("irb0", i.ix[RtNi(rt)])) == Some(Subinterface(None, None,
        Some(IpConfig(map p | p in Normalised(i, 31, l.ipv4Prefixes) :: Address(p, Some(true)), learning)),
        Some(IpConfig(map p | p in Normalised(i, 127, l.ipv6Prefixes) :: Address(p, None), learning)),
        Some(1)))
  {
    hide Compile, CompileDevice, Itfces, AllOk, Normalise;
    ListsIff(i, rt, j, bd, device);
    forall k | k > j
      ensures !Joins(i, rt, k, device)
    {
      if Joins(i, rt, k, device) {
        ListsIff(i, rt, k, Entry(i, rt, k).name, device);
      }
    }
    LastWriter(i, order, rt, j, device);
    EntryGateways(i, rt, j, device);
    assert RtNi(rt) in RtNames(i.vpc);
  }

  lemma EntryGateways(i: Input, rt: string, j: int, device: string)
    requires AllOk(i) && Joins(i, rt, j, device)
    ensures V4Gateways(i, Entry(i, rt, j)) == Normalised(i, 31, Entry(i, rt, j).ipv4Prefixes)
    ensures V6Gateways(i, Entry(i, rt, j)) == Normalised(i, 127, Entry(i, rt, j).ipv6Prefixes)
  {
    hide Normalise, Itfces;
    var l := Entry(i, rt, j);
    assert JoinOk(i, l);
    AddressesExact(i.lib.text, V4_LINK, i.allocation, l.ipv4Prefixes);
    AddressesExact(i.lib.text, V6_LINK, i.allocation, l.ipv6Prefixes);
  }

  lemma RoutedPick(i: Input, rt: string, device: string, name: string, s: SelectedItfce)
    ensures NiPicks(i, RtNi(rt), device, name, s) <==> RtPicks(i, rt, device, name, s)
  {
  }

  // ---------- the runs that succeed ----------

  /** Selectors are in order: they validate, the library answers on every SRL node, and each prefix of each
      interface it selects normalises. */
  ghost predicate SelectorsOk(i: Input, selectors: Selectors) {
    && i.lib.validate(selectors).Ok?
    && (forall device :: NodeInfo(device, "srl") in i.nodes ==>
         i.lib.select(device, i.lib.validate(selectors).value).Ok?)
    && forall device, name, s :: Picks(i, selectors, device, name, s) ==>
         PrefixesOk(i, 31, s.ipv4Prefixes) && PrefixesOk(i, 127, s.ipv6Prefixes)
  }

  ghost predicate PrefixesOk(i: Input, link: nat, prefixes: seq<string>) {
    forall p :: p in prefixes ==> Normalise(i.lib.text, link, i.allocation, p).Ok?
  }

  ghost predicate EntryInOrder(i: Input, l: ListedBridgeDomain) {
    && l.ipv4Prefixes != [] && PrefixesOk(i, 31, l.ipv4Prefixes)
    && l.ipv6Prefixes != [] && PrefixesOk(i, 127, l.ipv6Prefixes)
  }

  /** A run succeeds iff the selectors of every bridge domain and routing table are in order, and every entry
      of a list that takes part in routing has prefixes of both families, all of which normalise. */
  lemma SucceedsIff(i: Input)
    ensures AllOk(i) <==>
      && (forall bd :: bd in i.vpc.bridgeDomains ==> SelectorsOk(i, i.vpc.bridgeDomains[bd].selectors))
      && (forall rt :: rt in i.vpc.routingTables ==> SelectorsOk(i, i.vpc.routingTables[rt].selectors))
      && (forall rt, j, bd, device :: Lists(i, rt, j, bd, device) ==>
           EntryInOrder(i, i.vpc.routingTables[rt].bridgeDomains[j]))
  {
    NisSucceedIff(i);
    JoinsSucceedIff(i);
  }

  lemma NisSucceedIff(i: Input)
    ensures AllNisOk(i) <==>
      && (forall bd :: bd in i.vpc.bridgeDomains ==> SelectorsOk(i, i.vpc.bridgeDomains[bd].selectors))
      && (forall rt :: rt in i.vpc.routingTables ==> SelectorsOk(i, i.vpc.routingTables[rt].selectors))
  {
    hide NiOk, SelectorsOk;
    forall bd
      ensures bd in i.vpc.bridgeDomains <==> BdNi(bd) in NiNames(i.vpc)
      ensures bd in i.vpc.bridgeDomains ==> (NiOk(i, BdNi(bd)) <==> SelectorsOk(i, i.vpc.bridgeDomains[bd].selectors))
    {
      if bd in i.vpc.bridgeDomains {
        NiSucceedsIff(i, BdNi(bd), i.vpc.bridgeDomains[bd].selectors);
      }
    }
    forall rt
      ensures rt in i.vpc.routingTables <==> RtNi(rt) in NiNames(i.vpc)
      ensures rt in i.vpc.routingTables ==> (NiOk(i, RtNi(rt)) <==> SelectorsOk(i, i.vpc.routingTables[rt].selectors))
    {
      if rt in i.vpc.routingTables {
        NiSucceedsIff(i, RtNi(rt), i.vpc.routingTables[rt].selectors);
      }
    }
    forall ni | ni in NiNames(i.vpc)
      ensures ni == BdNi(ni.name) || ni == RtNi(ni.name)
    {
    }
  }

  lemma NiSucceedsIff(i: Input, ni: NiName, selectors: Selectors)
    requires ni.BdNi? ==> ni.name in i.vpc.bridgeDomains && selectors == i.vpc.bridgeDomains[ni.name].selectors
    requires ni.RtNi? ==> ni.name in i.vpc.routingTables && selectors == i.vpc.routingTables[ni.name].selectors
    ensures ni in NiNames(i.vpc) && (NiOk(i, ni) <==> SelectorsOk(i, selectors))
  {
    assert ni in NiNames(i.vpc) && SelectorsOf(i.vpc, ni) == selectors;
    forall v4, v6
      ensures AddressesOk(i, v4, v6) <==> PrefixesOk(i, 31, v4) && PrefixesOk(i, 127, v6)
    {
      AddressesOkIff(i, v4, v6);
    }
    hide AddressesOk, PrefixesOk;
    forall device
      ensures device in SrlNames(i.nodes) <==> NodeInfo(device, "srl") in i.nodes
    {
      SrlIff(i, device);
    }
    hide SrlNames;
    if NiOk(i, ni) {
      forall device, name, s | Picks(i, selectors, device, name, s)
        ensures AddressesOk(i, s.ipv4Prefixes, s.ipv6Prefixes)
      {
        assert OwnOk(i, ni, device);
      }
      forall device | NodeInfo(device, "srl") in i.nodes
        ensures i.lib.select(device, i.lib.validate(selectors).value).Ok?
      {
        assert OwnOk(i, ni, device);
      }
    }
    if SelectorsOk(i, selectors) {
      forall device | device in SrlNames(i.nodes)
        ensures OwnOk(i, ni, device)
      {
        forall name | name in Selection(i, ni, device).value
          ensures var s := Selection(i, ni, device).value[name]; AddressesOk(i, s.ipv4Prefixes, s.ipv6Prefixes)
        {
          assert Picks(i, selectors, device, name, Selection(i, ni, device).value[name]);
        }
      }
    }
  }

  lemma SrlIff(i: Input, device: string)
    ensures device in SrlNames(i.nodes) <==> NodeInfo(device, "srl") in i.nodes
  {
    if n :| n in i.nodes && n.kind == SRL && n.name == device {
      assert n == NodeInfo(device, "srl");
    }
  }

  lemma AddressesOkIff(i: Input, v4: seq<string>, v6: seq<string>)
    ensures AddressesOk(i, v4, v6) <==> PrefixesOk(i, 31, v4) && PrefixesOk(i, 127, v6)
  {
    hide Normalise;
    AddressesExact(i.lib.text, V4_LINK, i.allocation, v4);
    AddressesExact(i.lib.text, V6_LINK, i.allocation, v6);
  }

  lemma JoinsSucceedIff(i: Input)
    ensures (forall rt, j, device :: Joins(i, rt, j, device) ==> JoinOk(i, Entry(i, rt, j))) <==>
      forall rt, j, bd, device :: Lists(i, rt, j, bd, device) ==>
        EntryInOrder(i, i.vpc.routingTables[rt].bridgeDomains[j])
  {
    hide Itfces, AddressesOk, PrefixesOk;
    forall rt, j, device | Joins(i, rt, j, device)
      ensures Lists(i, rt, j, Entry(i, rt, j).name, device)
      ensures JoinOk(i, Entry(i, rt, j)) <==> EntryInOrder(i, i.vpc.routingTables[rt].bridgeDomains[j])
    {
      ListsIff(i, rt, j, Entry(i, rt, j).name, device);
      AddressesOkIff(i, Entry(i, rt, j).ipv4Prefixes, Entry(i, rt, j).ipv6Prefixes);
    }
    forall rt, j, bd, device | Lists(i, rt, j, bd, device)
      ensures Joins(i, rt, j, device)
    {
      ListsIff(i, rt, j, bd, device);
    }
  }
}
