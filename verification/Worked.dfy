/** One VPC from its declarations to the last field of its devices. */
module Worked {
  import opened Wrappers
  import opened Decimal
  import opened Net
  import opened Gateway
  import opened VpcSpec
  import opened Registers
  import opened DeviceTree
  import opened Compilation

  // ---------- what is declared ----------

  /** Bridge domain blue and routing table red, which lists it; each picks an interface by its VLAN. */
  function Declaration(p24: string, v6: string, p31: string): Vpc {
    Vpc(
      [BridgeDomain("blue", None, [InterfaceSelector([], 100, [], [])])],
      [RoutingTable("red", None, [ListedBridgeDomain("blue", [p24], [v6])], [InterfaceSelector([], 200, [p31], [])])],
      Some("vxlan"))
  }

  function ByVlan(s: Selectors): map<string, SelectedItfce> {
    if |s| != 1 then map[]
    else if s[0].outerVlanId == 100 then
      map["int-1/1/1" := SelectedItfce(100, s[0].ipv4Prefixes, s[0].ipv6Prefixes)]
    else map["int-1/1/48" := SelectedItfce(s[0].outerVlanId, s[0].ipv4Prefixes, s[0].ipv6Prefixes)]
  }

  /** On a leaf and on a node of another kind, with the last address of a network as gateway. */
  function Fabric(text: AddressText, p24: string, v6: string, p31: string): Input {
    Input(View(Declaration(p24, v6, p31)),
      [NodeInfo("leaf1", "srl"), NodeInfo("server1", "linux")],
      Library(text, s => Ok(s), (device, s) => Ok(ByVlan(s))),
      Last,
      map[BdNi("blue") := 7, RtNi("red") := 8])
  }

  // ---------- what it compiles to ----------

  function Instances(): map<NiName, NetworkInstance> {
    map[
      BdNi("blue") := NetworkInstance(Some(MacVrf), true, false,
        Some(BgpEvpn(true, 7, 2, "vxlan0.7")), Some(RouteTarget("target:65555:7", "target:65555:7")),
        {"int-1/1/1.100", "irb0.7"}, {"vxlan0.7"}),
      RtNi("red") := NetworkInstance(Some(IpVrf), false, true,
        Some(BgpEvpn(true, 8, 2, "vxlan0.8")), Some(RouteTarget("target:65555:8", "target:65555:8")),
        {"int-1/1/48.200", "irb0.8"}, {"vxlan0.8"})]
  }

  function Subinterfaces(g4: string, g6: string, p31: string): map<string, map<nat, Subinterface>> {
    map[
      "int-1/1/1" := map[100 := Subinterface(Some(Bridged), Some(100), None, None, None)],
      "int-1/1/48" := map[200 := Subinterface(Some(Routed), Some(200),
        Some(IpConfig(map[p31 := Address(p31, None)], None)), None, None)],
      "irb0" := map[
        7 := Subinterface(None, None, None, None, None),
        8 := Subinterface(None, None,
          Some(IpConfig(map[g4 := Address(g4, Some(true))], Some(Neighbors(true, {Dynamic}, {Dynamic})))),
          Some(IpConfig(map[g6 := Address(g6, None)], Some(Neighbors(true, {Dynamic}, {Dynamic})))),
          Some(1))]]
  }

  function Tunnels(): map<nat, VxlanInterface> {
    map[7 := VxlanInterface(Bridged, 7, true), 8 := VxlanInterface(Routed, 8, true)]
  }

  // ---------- the proof, field by field ----------

  /** What the fabric is compiled from. */
  ghost predicate Facts(i: Input, p24: string, v6: string, p31: string) {
    && i.Valid() && i.allocation == Last && i.ix == map[BdNi("blue") := 7, RtNi("red") := 8]
    && NiNames(i.vpc) == {BdNi("blue"), RtNi("red")} && i.vpc.routingTables.Keys == {"red"}
    && i.vpc.routingTables["red"].bridgeDomains == [ListedBridgeDomain("blue", [p24], [v6])]
    && TunnelOf(i.vpc, BdNi("blue")) == VXLAN && TunnelOf(i.vpc, RtNi("red")) == VXLAN
    && SrlNames(i.nodes) == {"leaf1"}
    && Itfces(i, BdNi("blue"), "leaf1") == map["int-1/1/1" := SelectedItfce(100, [], [])]
    && Itfces(i, RtNi("red"), "leaf1") == map["int-1/1/48" := SelectedItfce(200, [p31], [])]
  }

  lemma Views(p24: string, v6: string, p31: string)
    ensures var vpc := View(Declaration(p24, v6, p31));
      && vpc.bridgeDomains == map["blue" := BridgeDomain("blue", None, [InterfaceSelector([], 100, [], [])])]
      && vpc.routingTables == map["red" := RoutingTable("red", None, [ListedBridgeDomain("blue", [p24], [v6])],
                                    [InterfaceSelector([], 200, [p31], [])])]
      && NiNames(vpc) == {BdNi("blue"), RtNi("red")}
  {
    var cr := Declaration(p24, v6, p31);
    OneBridgeDomain(cr.bridgeDomains[0]);
    OneRoutingTable(cr.routingTables[0]);
    var vpc := View(cr);
    assert BdNames(vpc) == {BdNi("blue")} && RtNames(vpc) == {RtNi("red")};
  }

  lemma OneBridgeDomain(x: BridgeDomain)
    ensures BridgeDomains([x]) == map[x.name := x]
  {
    assert [x][..0] == [];
  }

  lemma OneRoutingTable(x: RoutingTable)
    ensures RoutingTables([x]) == map[x.name := x]
  {
    assert [x][..0] == [];
  }

  lemma FabricFacts(text: AddressText, p24: string, v6: string, p31: string)
    ensures Facts(Fabric(text, p24, v6, p31), p24, v6, p31)
  {
    hide View, Declaration;
    var i := Fabric(text, p24, v6, p31);
    Views(p24, v6, p31);
    NamesDiffer();
    assert i.nodes[0] in i.nodes;
    assert SrlNames(i.nodes) == {"leaf1"};
    assert VXLAN == "vxlan";
    Tunnelled(p24, v6, p31);
  }

  lemma Tunnelled(p24: string, v6: string, p31: string)
    ensures var vpc := View(Declaration(p24, v6, p31));
      TunnelOf(vpc, BdNi("blue")) == TunnelOf(vpc, RtNi("red")) == "vxlan"
  {
    Views(p24, v6, p31);
  }

  lemma OneJoin(i: Input, p24: string, v6: string, p31: string)
    requires Facts(i, p24, v6, p31)
    ensures Joins(i, "red", 0, "leaf1") && Entry(i, "red", 0) == ListedBridgeDomain("blue", [p24], [v6])
    ensures HasIrb(i, BdNi("blue"), "leaf1") && HasIrb(i, RtNi("red"), "leaf1")
    ensures LastJoin(i, "red", 1, "leaf1") == Some(0)
  {
    hide Itfces, TunnelOf, SrlNames, NiNames;
    assert "red" in i.vpc.routingTables && "int-1/1/1" in Itfces(i, BdNi("blue"), "leaf1");
    assert i.vpc.routingTables["red"].bridgeDomains[0] == ListedBridgeDomain("blue", [p24], [v6]);
    assert Joins(i, "red", 0, "leaf1") && Entry(i, "red", 0).name == "blue";
  }

  lemma TwoInstances(i: Input, p24: string, v6: string, p31: string)
    requires Facts(i, p24, v6, p31)
    ensures HasIrb(i, BdNi("blue"), "leaf1") && HasIrb(i, RtNi("red"), "leaf1")
    ensures NisOn(i, "leaf1") == IrbNis(i, "leaf1") == VxlanNis(i, "leaf1") == {BdNi("blue"), RtNi("red")}
  {
    OneJoin(i, p24, v6, p31);
    hide Itfces, TunnelOf, SrlNames, NiNames, HasIrb, Joins, LastJoin;
  }

  lemma Texts()
    ensures Dotted(VXLAN0, 7) == "vxlan0.7" && Dotted(VXLAN0, 8) == "vxlan0.8"
    ensures Dotted(IRB0, 7) == "irb0.7" && Dotted(IRB0, 8) == "irb0.8"
    ensures Dotted("int-1/1/1", 100) == "int-1/1/1.100" && Dotted("int-1/1/48", 200) == "int-1/1/48.200"
    ensures TargetOf(7) == "target:65555:7" && TargetOf(8) == "target:65555:8"
  {
    assert Itoa(7) == "7" && Itoa(8) == "8" && Itoa(1) == "1" && Itoa(2) == "2";
    assert Itoa(10) == "10" && Itoa(20) == "20";
    assert Itoa(100) == "100" && Itoa(200) == "200";
  }

  lemma InstancesAre(i: Input, p24: string, v6: string, p31: string, order: seq<string>)
    requires Facts(i, p24, v6, p31)
    ensures CompileDevice(i, order, "leaf1").nis == Instances()
  {
    assert i.Valid();
    hide *;
    TwoInstances(i, p24, v6, p31);
    BlueIs(i, p24, v6, p31);
    RedIs(i, p24, v6, p31);
    InstanceNames();
    TwoConfigs(i, order, Instances());
  }

  lemma InstanceNames()
    ensures Instances().Keys == {BdNi("blue"), RtNi("red")}
  {
  }

  lemma TwoConfigs(i: Input, order: seq<string>, m: map<NiName, NetworkInstance>)
    requires i.Valid() && NisOn(i, "leaf1") == {BdNi("blue"), RtNi("red")} && m.Keys == {BdNi("blue"), RtNi("red")}
    requires forall ni :: ni in m ==> m[ni] == NiConfig(i.ix, ni, NiInterfaces(i, ni, "leaf1"), NiVxlans(i, ni))
    ensures CompileDevice(i, order, "leaf1").nis == m
  {
    hide Input.Valid, NisOn, NiConfig, NiInterfaces, NiVxlans;
  }

  lemma BlueIs(i: Input, p24: string, v6: string, p31: string)
    requires Facts(i, p24, v6, p31) && HasIrb(i, BdNi("blue"), "leaf1")
    ensures NiConfig(i.ix, BdNi("blue"), NiInterfaces(i, BdNi("blue"), "leaf1"), NiVxlans(i, BdNi("blue")))
      == Instances()[BdNi("blue")]
  {
    Texts();
    hide Itfces, HasIrb, TunnelOf, Dotted, TargetOf, SrlNames, NiNames;
    var m := Itfces(i, BdNi("blue"), "leaf1");
    assert "int-1/1/1" in m && (set name | name in m :: Dotted(name, m[name].outerVlan)) == {"int-1/1/1.100"};
    assert NiInterfaces(i, BdNi("blue"), "leaf1") == {"int-1/1/1.100", "irb0.7"};
  }

  lemma RedIs(i: Input, p24: string, v6: string, p31: string)
    requires Facts(i, p24, v6, p31) && HasIrb(i, RtNi("red"), "leaf1")
    ensures NiConfig(i.ix, RtNi("red"), NiInterfaces(i, RtNi("red"), "leaf1"), NiVxlans(i, RtNi("red")))
      == Instances()[RtNi("red")]
  {
    Texts();
    hide Itfces, HasIrb, TunnelOf, Dotted, TargetOf, SrlNames, NiNames;
    var m := Itfces(i, RtNi("red"), "leaf1");
    assert "int-1/1/48" in m && (set name | name in m :: Dotted(name, m[name].outerVlan)) == {"int-1/1/48.200"};
    assert NiInterfaces(i, RtNi("red"), "leaf1") == {"int-1/1/48.200", "irb0.8"};
  }

  lemma TunnelsAre(i: Input, p24: string, v6: string, p31: string, order: seq<string>)
    requires Facts(i, p24, v6, p31)
    ensures CompileDevice(i, order, "leaf1").vxlans == Tunnels()
  {
    TwoInstances(i, p24, v6, p31);
    TwoTunnels(i);
    hide VxlansOf, VxlanNis, NisOn, IrbNis, HasIrb, Itfces, TunnelOf, SrlNames, NiNames;
  }

  lemma TwoTunnels(i: Input)
    requires i.Valid() && i.ix == map[BdNi("blue") := 7, RtNi("red") := 8]
    ensures VxlansOf(i, {BdNi("blue"), RtNi("red")}) == Tunnels()
  {
    hide Input.Valid;
    assert BdNi("blue") in {BdNi("blue"), RtNi("red")} && RtNi("red") in {BdNi("blue"), RtNi("red")};
  }

  lemma LegsAre(i: Input, p24: string, v6: string, p31: string, g4: string, g6: string, order: seq<string>)
    requires Facts(i, p24, v6, p31)
    requires Addresses(i.lib.text, V4_LINK, Last, [p24]) == Ok(map[g4 := Address(g4, None)])
    requires Addresses(i.lib.text, V6_LINK, Last, [v6]) == Ok(map[g6 := Address(g6, None)])
    ensures SubinterfacesOf(i, order, "leaf1", "irb0") == Subinterfaces(g4, g6, p31)["irb0"]
  {
    TwoInstances(i, p24, v6, p31);
    LegIsLast(i, p24, v6, p31, g4, g6);
    TwoLegs(i, order, Subinterfaces(g4, g6, p31)["irb0"]);
  }

  lemma TwoLegs(i: Input, order: seq<string>, legs: map<nat, Subinterface>)
    requires i.Valid() && i.ix == map[BdNi("blue") := 7, RtNi("red") := 8]
    requires IrbNis(i, "leaf1") == {BdNi("blue"), RtNi("red")} && legs.Keys == {7, 8}
    requires IrbSub(i, BdNi("blue"), "leaf1") == legs[7] && IrbSub(i, RtNi("red"), "leaf1") == legs[8]
    ensures SubinterfacesOf(i, order, "leaf1", "irb0") == legs
  {
    hide Input.Valid, IrbNis, IrbSub;
    var m := SubinterfacesOf(i, order, "leaf1", "irb0");
    assert BdNi("blue") in IrbNis(i, "leaf1") && RtNi("red") in IrbNis(i, "leaf1");
    assert m.Keys == {7, 8};
  }

  lemma LegIsLast(i: Input, p24: string, v6: string, p31: string, g4: string, g6: string)
    requires Facts(i, p24, v6, p31)
    requires Addresses(i.lib.text, V4_LINK, Last, [p24]) == Ok(map[g4 := Address(g4, None)])
    requires Addresses(i.lib.text, V6_LINK, Last, [v6]) == Ok(map[g6 := Address(g6, None)])
    ensures IrbSub(i, RtNi("red"), "leaf1") == Subinterfaces(g4, g6, p31)["irb0"][8]
    ensures IrbSub(i, BdNi("blue"), "leaf1") == Subinterfaces(g4, g6, p31)["irb0"][7]
  {
    OneJoin(i, p24, v6, p31);
    GatewaysAre(i, ListedBridgeDomain("blue", [p24], [v6]), g4, g6);
    hide Itfces, HasIrb, Addresses, LastJoin, NiNames, SrlNames, TunnelOf, GatewaySub;
    assert "red" in RoutingTablesOf(i) && |RoutingTablesOf(i)["red"].bridgeDomains| == 1;
  }

  lemma GatewaysAre(i: Input, l: ListedBridgeDomain, g4: string, g6: string)
    requires |l.ipv4Prefixes| == 1 && Addresses(i.lib.text, V4_LINK, i.allocation, l.ipv4Prefixes)
      == Ok(map[g4 := Address(g4, None)])
    requires |l.ipv6Prefixes| == 1 && Addresses(i.lib.text, V6_LINK, i.allocation, l.ipv6Prefixes)
      == Ok(map[g6 := Address(g6, None)])
    ensures GatewaySub(i, l) == Subinterface(None, None,
          Some(IpConfig(map[g4 := Address(g4, Some(true))], Some(Neighbors(true, {Dynamic}, {Dynamic})))),
          Some(IpConfig(map[g6 := Address(g6, None)], Some(Neighbors(true, {Dynamic}, {Dynamic})))),
          Some(1))
  {
    hide Addresses;
    assert Anycast(map[g4 := Address(g4, None)]) == map[g4 := Address(g4, Some(true))];
  }

  lemma EthernetsAre(i: Input, p24: string, v6: string, p31: string, g4: string, g6: string)
    requires Facts(i, p24, v6, p31)
    requires Addresses(i.lib.text, V4_LINK, Last, [p31]) == Ok(map[p31 := Address(p31, None)])
    ensures EthernetNames(i, "leaf1") == {"int-1/1/1", "int-1/1/48"}
    ensures SubinterfacesOf(i, ["red"], "leaf1", "int-1/1/1") == Subinterfaces(g4, g6, p31)["int-1/1/1"]
    ensures SubinterfacesOf(i, ["red"], "leaf1", "int-1/1/48") == Subinterfaces(g4, g6, p31)["int-1/1/48"]
  {
    NamesDiffer();
    VlansAre(i, p24, v6, p31);
    SubsAre(i, p24, v6, p31);
    hide Facts, Itfces, Addresses, EthernetVlans, EthernetNames, EthernetSub;
    OneVlan(i, ["red"], "int-1/1/1", 100);
    OneVlan(i, ["red"], "int-1/1/48", 200);
  }

  lemma OneVlan(i: Input, order: seq<string>, name: string, vlan: nat)
    requires i.Valid() && name != IRB0 && EthernetVlans(i, "leaf1", name) == {vlan}
    ensures SubinterfacesOf(i, order, "leaf1", name) == map[vlan := EthernetSub(i, order, "leaf1", name, vlan)]
  {
    hide Input.Valid, EthernetVlans, EthernetSub, IrbNis;
  }

  lemma VlansAre(i: Input, p24: string, v6: string, p31: string)
    requires Facts(i, p24, v6, p31)
    ensures EthernetNames(i, "leaf1") == {"int-1/1/1", "int-1/1/48"}
    ensures EthernetVlans(i, "leaf1", "int-1/1/1") == {100} && EthernetVlans(i, "leaf1", "int-1/1/48") == {200}
  {
    NamesDiffer();
    hide Itfces, SrlNames, TunnelOf;
    assert BdNi("blue") in NiNames(i.vpc) && RtNi("red") in NiNames(i.vpc);
    assert "int-1/1/1" in Itfces(i, BdNi("blue"), "leaf1") && "int-1/1/48" in Itfces(i, RtNi("red"), "leaf1");
  }

  lemma SubsAre(i: Input, p24: string, v6: string, p31: string)
    requires Facts(i, p24, v6, p31)
    requires Addresses(i.lib.text, V4_LINK, Last, [p31]) == Ok(map[p31 := Address(p31, None)])
    ensures EthernetSub(i, ["red"], "leaf1", "int-1/1/1", 100)
      == Subinterface(Some(Bridged), Some(100), None, None, None)
    ensures EthernetSub(i, ["red"], "leaf1", "int-1/1/48", 200)
      == Subinterface(Some(Routed), Some(200), Some(IpConfig(map[p31 := Address(p31, None)], None)), None, None)
  {
    NamesDiffer();
    hide Itfces, SrlNames, TunnelOf, NiNames, Addresses;
    assert ["red"][..0] == [];
    assert LastClaimant(i, ["red"], "leaf1", "int-1/1/1", 100) == None;
    assert LastClaimant(i, ["red"], "leaf1", "int-1/1/48", 200) == Some("red");
  }

  lemma NamesDiffer()
    ensures "int-1/1/1" != "int-1/1/48" && "int-1/1/1" != "irb0" && "int-1/1/48" != "irb0"
  {
    assert |"int-1/1/1"| != |"int-1/1/48"|;
    assert "int-1/1/1"[1] != "irb0"[1] && "int-1/1/48"[1] != "irb0"[1];
  }

  lemma FabricIs(i: Input, p24: string, v6: string, p31: string, g4: string, g6: string)
    requires Facts(i, p24, v6, p31)
    requires Addresses(i.lib.text, V4_LINK, Last, [p24]) == Ok(map[g4 := Address(g4, None)])
    requires Addresses(i.lib.text, V6_LINK, Last, [v6]) == Ok(map[g6 := Address(g6, None)])
    requires Addresses(i.lib.text, V4_LINK, Last, [p31]) == Ok(map[p31 := Address(p31, None)])
    ensures Compile(i, ["red"]) == map["leaf1" := DeviceConfig(Instances(), Subinterfaces(g4, g6, p31), Tunnels())]
  {
    InstancesAre(i, p24, v6, p31, ["red"]);
    TunnelsAre(i, p24, v6, p31, ["red"]);
    InterfacesAre(i, p24, v6, p31, g4, g6);
    TwoInstances(i, p24, v6, p31);
    OneDevice(i, ["red"]);
  }

  lemma OneDevice(i: Input, order: seq<string>)
    requires i.Valid() && SrlNames(i.nodes) == {"leaf1"} && NisOn(i, "leaf1") == {BdNi("blue"), RtNi("red")}
    ensures Compile(i, order) == map["leaf1" := CompileDevice(i, order, "leaf1")]
  {
    hide CompileDevice, NisOn, Input.Valid;
    assert BdNi("blue") in NisOn(i, "leaf1");
  }

  lemma InterfacesAre(i: Input, p24: string, v6: string, p31: string, g4: string, g6: string)
    requires Facts(i, p24, v6, p31)
    requires Addresses(i.lib.text, V4_LINK, Last, [p24]) == Ok(map[g4 := Address(g4, None)])
    requires Addresses(i.lib.text, V6_LINK, Last, [v6]) == Ok(map[g6 := Address(g6, None)])
    requires Addresses(i.lib.text, V4_LINK, Last, [p31]) == Ok(map[p31 := Address(p31, None)])
    ensures CompileDevice(i, ["red"], "leaf1").interfaces == Subinterfaces(g4, g6, p31)
  {
    assert i.Valid();
    InterfaceNames(g4, g6, p31);
    hide *;
    LegsAre(i, p24, v6, p31, g4, g6, ["red"]);
    EthernetsAre(i, p24, v6, p31, g4, g6);
    TwoInstances(i, p24, v6, p31);
    ThreeInterfaces(i, ["red"], Subinterfaces(g4, g6, p31));
  }

  lemma InterfaceNames(g4: string, g6: string, p31: string)
    ensures Subinterfaces(g4, g6, p31).Keys == {"int-1/1/1", "int-1/1/48", "irb0"}
  {
  }

  lemma ThreeInterfaces(i: Input, order: seq<string>, m: map<string, map<nat, Subinterface>>)
    requires i.Valid() && IrbNis(i, "leaf1") == {BdNi("blue"), RtNi("red")}
    requires EthernetNames(i, "leaf1") == {"int-1/1/1", "int-1/1/48"}
    requires m.Keys == {"int-1/1/1", "int-1/1/48", "irb0"}
    requires SubinterfacesOf(i, order, "leaf1", "int-1/1/1") == m["int-1/1/1"]
    requires SubinterfacesOf(i, order, "leaf1", "int-1/1/48") == m["int-1/1/48"]
    requires SubinterfacesOf(i, order, "leaf1", "irb0") == m["irb0"]
    ensures CompileDevice(i, order, "leaf1").interfaces == m
  {
    hide Input.Valid, IrbNis, EthernetNames, SubinterfacesOf;
    assert BdNi("blue") in IrbNis(i, "leaf1");
  }

  lemma OneAddress(text: AddressText, link: nat, allocation: GatewayAllocation, p: string, g: string)
    requires Normalise(text, link, allocation, p) == Ok(g)
    ensures Addresses(text, link, allocation, [p]) == Ok(map[g := Address(g, None)])
  {
    assert [p][..0] == [];
  }

  /** With 100.112.2.0/24, 2a02:1800:82:7000::/64 and 100.112.10.1/31 as prefixes, the gateways are
      100.112.2.255/24 and 2a02:1800:82:7000::ffff/64, and the /31 stays as it is. */
  lemma WorkedExample() returns (text: AddressText, i: Input)
    ensures text.Faithful() && i.Valid()
    ensures var p24, p31 := text.Cidr([100, 112, 2, 0], 24), text.Cidr([100, 112, 10, 1], 31);
      var v6 := text.Cidr([42, 2, 24, 0, 0, 130, 112, 0, 0, 0, 0, 0, 0, 0, 0, 0], 64);
      var g4 := text.Cidr([100, 112, 2, 255], 24);
      var g6 := text.Cidr([42, 2, 24, 0, 0, 130, 112, 0, 0, 0, 0, 0, 0, 0, 255, 255], 64);
      && i == Fabric(text, p24, v6, p31)
      && Compile(i, ["red"]) == map["leaf1" := DeviceConfig(Instances(), Subinterfaces(g4, g6, p31), Tunnels())]
  {
    text := FaithfulExists();
    var p24, p31 := text.Cidr([100, 112, 2, 0], 24), text.Cidr([100, 112, 10, 1], 31);
    var v6 := text.Cidr([42, 2, 24, 0, 0, 130, 112, 0, 0, 0, 0, 0, 0, 0, 0, 0], 64);
    var g4 := text.Cidr([100, 112, 2, 255], 24);
    var g6 := text.Cidr([42, 2, 24, 0, 0, 130, 112, 0, 0, 0, 0, 0, 0, 0, 255, 255], 64);
    i := Fabric(text, p24, v6, p31);
    hide Fabric, Instances, Subinterfaces, Tunnels, Compile;
    hide Addresses, Normalise;
    GatewayTexts(text);
    FabricFacts(text, p24, v6, p31);
    FabricText(text, p24, v6, p31);
    FabricIs(i, p24, v6, p31, g4, g6);
  }

  lemma GatewayTexts(text: AddressText)
    requires text.Faithful()
    ensures var p24, p31 := text.Cidr([100, 112, 2, 0], 24), text.Cidr([100, 112, 10, 1], 31);
      var v6 := text.Cidr([42, 2, 24, 0, 0, 130, 112, 0, 0, 0, 0, 0, 0, 0, 0, 0], 64);
      var g4 := text.Cidr([100, 112, 2, 255], 24);
      var g6 := text.Cidr([42, 2, 24, 0, 0, 130, 112, 0, 0, 0, 0, 0, 0, 0, 255, 255], 64);
      && Addresses(text, V4_LINK, Last, [p24]) == Ok(map[g4 := Address(g4, None)])
      && Addresses(text, V6_LINK, Last, [v6]) == Ok(map[g6 := Address(g6, None)])
      && Addresses(text, V4_LINK, Last, [p31]) == Ok(map[p31 := Address(p31, None)])
  {
    hide Addresses, Normalise;
    LastOfV4Text(text, 100, 112, 2);
    OneAddress(text, V4_LINK, Last, text.Cidr([100, 112, 2, 0], 24), text.Cidr([100, 112, 2, 255], 24));
    V6GatewayText(text);
    LinkKept(text, [100, 112, 10, 1]);
    OneAddress(text, V4_LINK, Last, text.Cidr([100, 112, 10, 1], 31), text.Cidr([100, 112, 10, 1], 31));
  }

  lemma V6GatewayText(text: AddressText)
    requires text.Faithful()
    ensures var v6 := text.Cidr([42, 2, 24, 0, 0, 130, 112, 0, 0, 0, 0, 0, 0, 0, 0, 0], 64);
      var g6 := text.Cidr([42, 2, 24, 0, 0, 130, 112, 0, 0, 0, 0, 0, 0, 0, 255, 255], 64);
      Addresses(text, V6_LINK, Last, [v6]) == Ok(map[g6 := Address(g6, None)])
  {
    hide Addresses, Normalise;
    var start: IP := [42, 2, 24, 0, 0, 130, 112, 0];
    LastOfV6Text(text, start);
    assert start + [0, 0, 0, 0, 0, 0, 0, 0] == [42, 2, 24, 0, 0, 130, 112, 0, 0, 0, 0, 0, 0, 0, 0, 0];
    assert start + [0, 0, 0, 0, 0, 0, 255, 255] == [42, 2, 24, 0, 0, 130, 112, 0, 0, 0, 0, 0, 0, 0, 255, 255];
    OneAddress(text, V6_LINK, Last, text.Cidr(start + [0, 0, 0, 0, 0, 0, 0, 0], 64),
      text.Cidr(start + [0, 0, 0, 0, 0, 0, 255, 255], 64));
  }

  lemma FabricText(text: AddressText, p24: string, v6: string, p31: string)
    ensures Fabric(text, p24, v6, p31).lib.text == text
  {
  }

  lemma LinkKept(text: AddressText, ip: IP)
    requires text.Faithful() && |ip| == 4
    ensures Normalise(text, V4_LINK, Last, text.Cidr(ip, 31)) == Ok(text.Cidr(ip, 31))
  {
    NormaliseExact(text, V4_LINK, Last, text.Cidr(ip, 31));
    assert text.parse(text.Cidr(ip, 31)) == Some(CidrParts(ip, 31));
  }
}
