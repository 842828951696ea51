/** The gateways of a routing table on a device. Each entry of its list that joins there overwrites the
    ones before it, so the last one decides. */
module IrbGateways {
  import opened Wrappers
  import opened Net
  import opened Gateway
  import opened VpcSpec
  import opened Registers
  import opened DeviceTree
  import opened Compilation
  import opened Correctness
  import opened Properties

  ghost function V4Gateways(i: Input, l: ListedBridgeDomain): set<string>
  {
    if EachNormalises(i.lib.text, V4_LINK, i.allocation, l.ipv4Prefixes) then
      Images(i.lib.text, V4_LINK, i.allocation, l.ipv4Prefixes)
    else {}
  }

  ghost function V6Gateways(i: Input, l: ListedBridgeDomain): set<string>
  {
    if EachNormalises(i.lib.text, V6_LINK, i.allocation, l.ipv6Prefixes) then
      Images(i.lib.text, V6_LINK, i.allocation, l.ipv6Prefixes)
    else {}
  }

  /** The IRB subinterface of a routing table on a device, as configured. */
  ghost function LegOf(i: Input, order: seq<string>, rt: string, device: string): Option<Subinterface>
    requires i.Valid()
  {
    SubAt(GetDevice(Compile(i, order), device), SubKey(IRB0, Index(i.ix, RtNi(rt))))
  }

  ghost predicate LastToJoin(i: Input, rt: string, j: int, device: string) {
    Joins(i, rt, j, device) && forall k :: k > j ==> !Joins(i, rt, k, device)
  }

  lemma LastJoinIs(i: Input, rt: string, j: int, device: string)
    requires LastToJoin(i, rt, j, device)
    ensures LastJoin(i, rt, |RoutingTablesOf(i)[rt].bridgeDomains|, device) == Some(j)
  {
  }

  /** An IRB leg with the given gateways: the IPv4 ones anycast, both families learning. */
  ghost function Leg(v4: set<string>, v6: set<string>): Subinterface {
    Subinterface(None, None,
      Some(IpConfig(map p | p in v4 :: Address(p, Some(true)), Some(LEARNING))),
      Some(IpConfig(map p | p in v6 :: Address(p, None), Some(LEARNING))),
      Some(1))
  }

  /** The addresses of the leg are exactly the normalised prefixes of the last entry to join. */
  lemma LastWriter(i: Input, order: seq<string>, rt: string, j: int, device: string)
    requires i.Valid() && AllOk(i) && LastToJoin(i, rt, j, device)
    ensures LegOf(i, order, rt, device) == Some(Leg(V4Gateways(i, Entry(i, rt, j)), V6Gateways(i, Entry(i, rt, j))))
  {
    JoinFacts(i, rt, j, device);
    DeviceOf(i, order, device);
    LegIs(i, order, RtNi(rt), device);
    LastJoinIs(i, rt, j, device);
    assert JoinOk(i, Entry(i, rt, j));
    GatewaySubIs(i, Entry(i, rt, j));
  }

  lemma GatewaySubIs(i: Input, l: ListedBridgeDomain)
    requires JoinOk(i, l)
    ensures GatewaySub(i, l) == Leg(V4Gateways(i, l), V6Gateways(i, l))
  {
    V4Is(i, l);
    V6Is(i, l);
    AnycastEntries(V4Gateways(i, l));
  }

  lemma V4Is(i: Input, l: ListedBridgeDomain)
    requires l.ipv4Prefixes != [] && Ipv4Of(i, l.ipv4Prefixes).Ok?
    ensures Ipv4Of(i, l.ipv4Prefixes) == Ok(Some(Entries(V4Gateways(i, l))))
  {
    AddressesExact(i.lib.text, V4_LINK, i.allocation, l.ipv4Prefixes);
  }

  lemma V6Is(i: Input, l: ListedBridgeDomain)
    requires l.ipv6Prefixes != [] && Ipv6Of(i, l.ipv6Prefixes).Ok?
    ensures Ipv6Of(i, l.ipv6Prefixes) == Ok(Some(Entries(V6Gateways(i, l))))
  {
    AddressesExact(i.lib.text, V6_LINK, i.allocation, l.ipv6Prefixes);
  }

  lemma AnycastEntries(keys: set<string>)
    ensures Anycast(Entries(keys)) == map p | p in keys :: Address(p, Some(true))
  {
  }

  lemma LegIs(i: Input, order: seq<string>, ni: NiName, device: string)
    requires i.Valid() && ni in NiNames(i.vpc)
    ensures SubAt(CompileDevice(i, order, device), SubKey(IRB0, i.ix[ni])) ==
      if HasIrb(i, ni, device) then Some(IrbSub(i, ni, device)) else None
  {
    IrbSpec(i, order, device, i.ix[ni]);
    if HasIrb(i, ni, device) {
      assert ni in IrbNis(i, device);
    }
    forall m | m in IrbNis(i, device) && i.ix[m] == i.ix[ni]
      ensures m == ni
    {
      SameIndexSameNi(i, m, ni);
    }
  }

  /** All gateways of an entry are configured on a device. */
  ghost predicate Kept(i: Input, order: seq<string>, rt: string, k: int, device: string)
    requires i.Valid() && Joins(i, rt, k, device)
  {
    var leg := LegOf(i, order, rt, device);
    && leg.Some? && leg.value.ipv4.Some? && leg.value.ipv6.Some?
    && V4Gateways(i, Entry(i, rt, k)) <= leg.value.ipv4.value.address.Keys
    && V6Gateways(i, Entry(i, rt, k)) <= leg.value.ipv6.value.address.Keys
  }

  /** Of the entries that join on a device, one keeps its gateways iff the last one has them too. */
  lemma KeptIff(i: Input, order: seq<string>, rt: string, k: int, last: int, device: string)
    requires i.Valid() && AllOk(i) && Joins(i, rt, k, device) && LastToJoin(i, rt, last, device)
    ensures Kept(i, order, rt, k, device) <==>
      && V4Gateways(i, Entry(i, rt, k)) <= V4Gateways(i, Entry(i, rt, last))
      && V6Gateways(i, Entry(i, rt, k)) <= V6Gateways(i, Entry(i, rt, last))
  {
    hide LegOf, AllOk;
    LastWriter(i, order, rt, last, device);
    LegKeys(V4Gateways(i, Entry(i, rt, last)), V6Gateways(i, Entry(i, rt, last)));
  }

  lemma LegKeys(v4: set<string>, v6: set<string>)
    ensures Leg(v4, v6).ipv4.value.address.Keys == v4 && Leg(v4, v6).ipv6.value.address.Keys == v6
  {
  }

  /** The IPv4 addresses of the leg of a routing table. */
  ghost function LegIpv4(i: Input, order: seq<string>, rt: string, device: string): Option<set<string>>
    requires i.Valid()
  {
    var leg := LegOf(i, order, rt, device);
    if leg.Some? && leg.value.ipv4.Some? then Some(leg.value.ipv4.value.address.Keys) else None
  }

  lemma LegIpv4Is(i: Input, order: seq<string>, rt: string, last: int, device: string)
    requires i.Valid() && AllOk(i) && LastToJoin(i, rt, last, device)
    ensures LegIpv4(i, order, rt, device) == Some(V4Gateways(i, Entry(i, rt, last)))
  {
    hide LegOf, AllOk, V4Gateways, V6Gateways;
    LastWriter(i, order, rt, last, device);
    LegKeys(V4Gateways(i, Entry(i, rt, last)), V6Gateways(i, Entry(i, rt, last)));
  }

  /** There is a leg, without this address. */
  ghost predicate NotOnLeg(i: Input, order: seq<string>, rt: string, device: string, address: string)
    requires i.Valid()
  {
    var addresses := LegIpv4(i, order, rt, device);
    addresses.Some? && address !in addresses.value
  }

  /** So a gateway to be allocated in a network of its own is lost as soon as a later entry joins on the
      same device and asks only for gateways in other networks. */
  lemma OtherNetworksAreLost(i: Input, order: seq<string>, rt: string, k: int, last: int, device: string, p: string)
    requires i.Valid() && i.lib.text.Faithful()
    requires AllOk(i) && Joins(i, rt, k, device) && LastToJoin(i, rt, last, device)
    requires p in Entry(i, rt, k).ipv4Prefixes && AllocatesGateway(i.lib.text, V4_LINK, p)
    requires forall q :: q in Entry(i, rt, last).ipv4Prefixes ==>
      && AllocatesGateway(i.lib.text, V4_LINK, q)
      && ParseCIDR(i.lib.text, q).value.1 != ParseCIDR(i.lib.text, p).value.1
    ensures Normalise(i.lib.text, V4_LINK, i.allocation, p).Ok?
    ensures NotOnLeg(i, order, rt, device, Normalise(i.lib.text, V4_LINK, i.allocation, p).value)
    ensures !Kept(i, order, rt, k, device)
  {
    var l, m := Entry(i, rt, k), Entry(i, rt, last);
    KeptIff(i, order, rt, k, last, device);
    LegIpv4Is(i, order, rt, last, device);
    hide LegIpv4, LegOf, Kept;
    assert JoinOk(i, l) && JoinOk(i, m);
    AddressesExact(i.lib.text, V4_LINK, i.allocation, l.ipv4Prefixes);
    AddressesExact(i.lib.text, V4_LINK, i.allocation, m.ipv4Prefixes);
    var g := Normalise(i.lib.text, V4_LINK, i.allocation, p);
    assert g.value in V4Gateways(i, l);
    if g.value in V4Gateways(i, m) {
      var q :| q in m.ipv4Prefixes && Normalise(i.lib.text, V4_LINK, i.allocation, q).value == g.value;
      GatewaysNeverCollide(i.lib.text, V4_LINK, i.allocation, p, q);
    }
  }

  // ---------- an input that loses a gateway ----------

  /** The shape of examples/multus.yaml: one routing table lists two bridge domains, with one prefix
      each, whose interfaces are on the same leaf. */
  function TwoBridgeDomains(text: AddressText, p: string, q: string, v6: string): Input {
    Input(
      VpcView(
        map["multus-sriov1" := BridgeDomain("multus-sriov1", None, []),
            "multus-sriov2" := BridgeDomain("multus-sriov2", None, [])],
        map["multus" := RoutingTable("multus", None,
              [ListedBridgeDomain("multus-sriov1", [p], [v6]), ListedBridgeDomain("multus-sriov2", [q], [v6])], [])],
        Some(VXLAN)),
      [NodeInfo("leaf1", SRL)],
      Library(text, s => Ok(s), (device, s) => Ok(map["int-1/1/1" := SelectedItfce(100, [], [])])),
      First,
      map[BdNi("multus-sriov1") := 1, BdNi("multus-sriov2") := 2, RtNi("multus") := 3])
  }

  /** The run succeeds, in every order, and the gateway of the first bridge domain is not on the leg. */
  lemma FirstGatewayLost(text: AddressText, p: string, q: string, v6: string, order: seq<string>)
    requires text.Faithful() && Normalise(text, V6_LINK, First, v6).Ok?
    requires AllocatesGateway(text, V4_LINK, p) && Normalise(text, V4_LINK, First, p).Ok?
    requires AllocatesGateway(text, V4_LINK, q) && Normalise(text, V4_LINK, First, q).Ok?
    requires ParseCIDR(text, p).value.1 != ParseCIDR(text, q).value.1
    ensures var i := TwoBridgeDomains(text, p, q, v6);
      && i.Valid() && AllOk(i) && Joins(i, "multus", 0, "leaf1")
      && NotOnLeg(i, order, "multus", "leaf1", Normalise(text, V4_LINK, First, p).value)
  {
    var i := TwoBridgeDomains(text, p, q, v6);
    ExampleSelects(text, p, q, v6);
    ExampleOk(text, p, q, v6);
    ExampleValid(text, p, q, v6);
    OtherNetworksAreLost(i, order, "multus", 0, 1, "leaf1", p);
  }

  lemma LastGatewayThere(text: AddressText, p: string, q: string, v6: string, order: seq<string>)
    requires text.Faithful() && Normalise(text, V6_LINK, First, v6).Ok?
    requires Normalise(text, V4_LINK, First, p).Ok? && Normalise(text, V4_LINK, First, q).Ok?
    ensures TwoBridgeDomains(text, p, q, v6).Valid()
    ensures LegIpv4(TwoBridgeDomains(text, p, q, v6), order, "multus", "leaf1") ==
      Some({Normalise(text, V4_LINK, First, q).value})
  {
    var i := TwoBridgeDomains(text, p, q, v6);
    ExampleSelects(text, p, q, v6);
    ExampleOk(text, p, q, v6);
    ExampleValid(text, p, q, v6);
    hide TwoBridgeDomains, LegIpv4, AllOk, LastToJoin, Normalise;
    LegIpv4Is(i, order, "multus", 1, "leaf1");
    OneGatewayIs(i, Entry(i, "multus", 1), q);
  }

  lemma OneGatewayIs(i: Input, l: ListedBridgeDomain, q: string)
    requires l.ipv4Prefixes == [q] && Normalise(i.lib.text, V4_LINK, i.allocation, q).Ok?
    ensures V4Gateways(i, l) == {Normalise(i.lib.text, V4_LINK, i.allocation, q).value}
  {
    hide Normalise;
  }

  lemma ExampleSelects(text: AddressText, p: string, q: string, v6: string)
    ensures var i := TwoBridgeDomains(text, p, q, v6);
      && i.lib.text == text && i.allocation == First
      && SrlNames(i.nodes) == {"leaf1"}
      && NiNames(i.vpc) == {BdNi("multus-sriov1"), BdNi("multus-sriov2"), RtNi("multus")}
      && Joins(i, "multus", 0, "leaf1") && LastToJoin(i, "multus", 1, "leaf1")
      && Entry(i, "multus", 0) == ListedBridgeDomain("multus-sriov1", [p], [v6])
      && Entry(i, "multus", 1) == ListedBridgeDomain("multus-sriov2", [q], [v6])
  {
    var i := TwoBridgeDomains(text, p, q, v6);
    assert i.nodes[0] in i.nodes;
    assert BdNi("multus-sriov1") in NiNames(i.vpc) && BdNi("multus-sriov2") in NiNames(i.vpc);
    assert "int-1/1/1" in Itfces(i, BdNi("multus-sriov1"), "leaf1");
    assert "int-1/1/1" in Itfces(i, BdNi("multus-sriov2"), "leaf1");
  }

  lemma ExampleValid(text: AddressText, p: string, q: string, v6: string)
    requires text.Faithful()
    ensures TwoBridgeDomains(text, p, q, v6).Valid()
  {
    ExampleSelects(text, p, q, v6);
    assert "int-1/1/1" != IRB0;
  }

  lemma ExampleOk(text: AddressText, p: string, q: string, v6: string)
    requires text.Faithful() && Normalise(text, V6_LINK, First, v6).Ok?
    requires Normalise(text, V4_LINK, First, p).Ok? && Normalise(text, V4_LINK, First, q).Ok?
    ensures AllOk(TwoBridgeDomains(text, p, q, v6))
  {
    var i := TwoBridgeDomains(text, p, q, v6);
    ExampleSelects(text, p, q, v6);
    ExampleJoinOk(i, ListedBridgeDomain("multus-sriov1", [p], [v6]));
    ExampleJoinOk(i, ListedBridgeDomain("multus-sriov2", [q], [v6]));
    forall ni | ni in NiNames(i.vpc)
      ensures NiOk(i, ni)
    {
      ExampleNiOk(text, p, q, v6, ni);
    }
    forall rt, j, device | Joins(i, rt, j, device)
      ensures JoinOk(i, Entry(i, rt, j))
    {
      ExampleEntries(text, p, q, v6, rt, j, device);
    }
  }

  lemma ExampleEntries(text: AddressText, p: string, q: string, v6: string, rt: string, j: int, device: string)
    requires Joins(TwoBridgeDomains(text, p, q, v6), rt, j, device)
    ensures Entry(TwoBridgeDomains(text, p, q, v6), rt, j)
      in {ListedBridgeDomain("multus-sriov1", [p], [v6]), ListedBridgeDomain("multus-sriov2", [q], [v6])}
  {
  }

  lemma ExampleNiOk(text: AddressText, p: string, q: string, v6: string, ni: NiName)
    requires text.Faithful() && ni in NiNames(TwoBridgeDomains(text, p, q, v6).vpc)
    ensures NiOk(TwoBridgeDomains(text, p, q, v6), ni)
  {
  }

  lemma ExampleJoinOk(i: Input, l: ListedBridgeDomain)
    requires |l.ipv4Prefixes| == 1 && |l.ipv6Prefixes| == 1
    requires Normalise(i.lib.text, V4_LINK, i.allocation, l.ipv4Prefixes[0]).Ok?
    requires Normalise(i.lib.text, V6_LINK, i.allocation, l.ipv6Prefixes[0]).Ok?
    ensures JoinOk(i, l)
  {
    AddressesExact(i.lib.text, V4_LINK, i.allocation, l.ipv4Prefixes);
    AddressesExact(i.lib.text, V6_LINK, i.allocation, l.ipv6Prefixes);
  }

  /** 100.112.2.0/24 and 100.112.3.0/24, with 2a02:1800:82:7000::/64: the gateway 100.112.2.1 is lost and
      100.112.3.1 is the only IPv4 one. */
  lemma GatewayIsLost() returns (text: AddressText, i: Input)
    ensures text.Faithful()
    ensures i == TwoBridgeDomains(text, text.Cidr([100, 112, 2, 0], 24), text.Cidr([100, 112, 3, 0], 24),
                   text.Cidr([42, 2, 24, 0, 0, 130, 112, 0, 0, 0, 0, 0, 0, 0, 0, 0], 64))
    ensures i.Valid() && AllOk(i) && Joins(i, "multus", 0, "leaf1")
    ensures forall order :: NotOnLeg(i, order, "multus", "leaf1", text.Cidr([100, 112, 2, 1], 24))
    ensures forall order :: LegIpv4(i, order, "multus", "leaf1") == Some({text.Cidr([100, 112, 3, 1], 24)})
  {
    text := FaithfulExists();
    var p, q := text.Cidr([100, 112, 2, 0], 24), text.Cidr([100, 112, 3, 0], 24);
    var v6 := text.Cidr([42, 2, 24, 0, 0, 130, 112, 0, 0, 0, 0, 0, 0, 0, 0, 0], 64);
    i := TwoBridgeDomains(text, p, q, v6);
    V4NetworkGetsGateway(text, 100, 112, 2);
    V4NetworkGetsGateway(text, 100, 112, 3);
    V6PrefixNormalises(text, [42, 2, 24, 0, 0, 130, 112, 0, 0, 0, 0, 0, 0, 0, 0, 0]);
    assert [100, 112, 2, 0][2] != [100, 112, 3, 0][2];
    FirstGatewayLost(text, p, q, v6, []);
    forall order
      ensures NotOnLeg(i, order, "multus", "leaf1", text.Cidr([100, 112, 2, 1], 24))
      ensures LegIpv4(i, order, "multus", "leaf1") == Some({text.Cidr([100, 112, 3, 1], 24)})
    {
      FirstGatewayLost(text, p, q, v6, order);
      LastGatewayThere(text, p, q, v6, order);
    }
  }
}
