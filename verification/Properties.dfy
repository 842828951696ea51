/** What holds of every compiled fabric. By `Reconciler.PopulatePhases` the configuration of a successful
    run is `Compile` of its input, so each lemma here is a statement about every such run. */
module Properties {
  import opened Wrappers
  import opened Decimal
  import opened VpcSpec
  import opened Registers
  import opened DeviceTree
  import opened Compilation
  import opened Correctness

  // ---------- which devices, and what the lookups find ----------

  /** A device is configured iff it is an SRL node on which the selectors of some bridge domain or
      routing table pick an interface. */
  lemma ConfiguredIff(i: Input, order: seq<string>, device: string)
    requires i.Valid()
    ensures device in Compile(i, order) <==> exists ni :: ni in NiNames(i.vpc) && Itfces(i, ni, device) != map[]
    ensures device in Compile(i, order) ==> device in SrlNames(i.nodes)
  {
    if device in Compile(i, order) {
      var ni :| ni in NisOn(i, device);
      if Itfces(i, ni, device) == map[] {
        var rt, j :| Joins(i, rt, j, device) && (ni == RtNi(rt) || ni == BdNi(Entry(i, rt, j).name));
        JoinFacts(i, rt, j, device);
      }
    }
    if ni :| ni in NiNames(i.vpc) && Itfces(i, ni, device) != map[] {
      assert ni in NisOn(i, device);
    }
  }

  /** Devices without configuration are those on which the declarative configuration is empty. */
  lemma DeviceOf(i: Input, order: seq<string>, device: string)
    requires i.Valid()
    ensures GetDevice(Compile(i, order), device) == CompileDevice(i, order, device)
  {
    if device !in Compile(i, order) {
      if ni :| ni in NisOn(i, device) {
        var w := OnDeviceWrite(i, ni, device);
      }
      forall ni, name | ni in NiNames(i.vpc)
        ensures name !in Itfces(i, ni, device)
      {
        assert ni !in NisOn(i, device);
      }
      forall ni | ni in NiNames(i.vpc)
        ensures ni !in IrbNis(i, device)
      {
        assert ni !in NisOn(i, device);
      }
      EmptySpec(i, order, device);
    }
  }

  lemma EmptySpec(i: Input, order: seq<string>, device: string)
    requires i.Valid() && NisOn(i, device) == {} && IrbNis(i, device) == {}
    requires forall ni, name :: ni in NiNames(i.vpc) ==> name !in Itfces(i, ni, device)
    ensures CompileDevice(i, order, device) == EMPTY_DEVICE
  {
    assert EthernetNames(i, device) == {};
    assert VxlanNis(i, device) == {};
    assert VxlansOf(i, {}) == map[];
  }

  /** A tunnel subinterface exists under an index iff it is that of a network instance on the device
      whose tunnel is vxlan. */
  lemma VxlanSpec(i: Input, order: seq<string>, device: string, x: nat)
    requires i.Valid()
    ensures x in CompileDevice(i, order, device).vxlans <==> exists ni :: ni in VxlanNis(i, device) && i.ix[ni] == x
    ensures forall ni :: ni in VxlanNis(i, device) ==>
      CompileDevice(i, order, device).vxlans[i.ix[ni]] == VxlanConfig(i.ix, ni)
  {
    VxlansOfSpec(i, VxlanNis(i, device));
    forall ni | ni in VxlanNis(i, device)
      ensures i.ix[ni] in VxlansOf(i, VxlanNis(i, device))
    {
      assert Index(i.ix, ni) == i.ix[ni];
    }
  }

  // ---------- referential integrity ----------

  ghost predicate NamesSubinterface(d: DeviceConfig, entry: string) {
    exists k :: SubAt(d, k).Some? && entry == Dotted(k.itfce, k.index)
  }

  ghost predicate NamesTunnel(d: DeviceConfig, entry: string) {
    exists x :: x in d.vxlans && entry == Dotted(VXLAN0, x)
  }

  /** Every reference of every network instance resolves; the EVPN reference to a tunnel resolves
      exactly where the tunnel of the network instance is vxlan. */
  lemma ReferencesResolve(i: Input, order: seq<string>, device: string, ni: NiName)
    requires i.Valid() && device in Compile(i, order) && ni in Compile(i, order)[device].nis
    ensures var d := Compile(i, order)[device];
      && (forall e :: e in d.nis[ni].interfaces ==> NamesSubinterface(d, e))
      && (forall e :: e in d.nis[ni].vxlanInterfaces ==> NamesTunnel(d, e))
      && d.nis[ni].bgpEvpn.Some?
      && (NamesTunnel(d, d.nis[ni].bgpEvpn.value.vxlanInterface) <==> TunnelOf(i.vpc, ni) == VXLAN)
  {
    InterfacesResolve(i, order, device, ni);
    TunnelResolvesIff(i, order, device, ni);
  }

  lemma TunnelResolvesIff(i: Input, order: seq<string>, device: string, ni: NiName)
    requires i.Valid() && ni in NisOn(i, device)
    ensures NamesTunnel(CompileDevice(i, order, device), Dotted(VXLAN0, i.ix[ni])) <==> TunnelOf(i.vpc, ni) == VXLAN
  {
    NamesTunnelIff(CompileDevice(i, order, device), i.ix[ni]);
    VxlanSpec(i, order, device, i.ix[ni]);
    if TunnelOf(i.vpc, ni) == VXLAN {
      assert ni in VxlanNis(i, device);
    }
  }

  lemma NamesTunnelIff(d: DeviceConfig, x: nat)
    ensures NamesTunnel(d, Dotted(VXLAN0, x)) <==> x in d.vxlans
  {
    if y :| y in d.vxlans && Dotted(VXLAN0, x) == Dotted(VXLAN0, y) {
      JoinedInjective(VXLAN0, x, VXLAN0, y, '.');
    }
  }

  lemma InterfacesResolve(i: Input, order: seq<string>, device: string, ni: NiName)
    requires i.Valid() && ni in NisOn(i, device)
    ensures forall e :: e in NiInterfaces(i, ni, device) ==> NamesSubinterface(CompileDevice(i, order, device), e)
  {
    var d, m := CompileDevice(i, order, device), Itfces(i, ni, device);
    forall name | name in m
      ensures NamesSubinterface(d, Dotted(name, m[name].outerVlan))
    {
      var vlan := m[name].outerVlan;
      ClaimIsWrite(i, ni, device, name, vlan);
      EthernetSpec(i, order, device, name, vlan);
      assert SubAt(d, SubKey(name, vlan)).Some?;
    }
    if HasIrb(i, ni, device) {
      IrbSpec(i, order, device, i.ix[ni]);
      assert ni in IrbNis(i, device);
      assert SubAt(d, SubKey(IRB0, i.ix[ni])).Some?;
    }
  }

  /** Not so between the steps of a run: the first interface of a network instance leaves its EVPN
      reference dangling. */
  lemma FirstWriteDangles(ix: Indexes, w: Write)
    requires !w.kind.Vxlan?
    ensures var d := Run(ix, map[], [w])[w.device];
      d.nis[w.ni].bgpEvpn.Some? && !NamesTunnel(d, d.nis[w.ni].bgpEvpn.value.vxlanInterface)
  {
    RunAppend(ix, map[], [], w);
    assert [] + [w] == [w];
  }

  // ---------- attachment ----------

  ghost predicate Attached(d: DeviceConfig, ni: NiName, k: SubKey) {
    ni in d.nis && Dotted(k.itfce, k.index) in d.nis[ni].interfaces
  }

  ghost predicate AttachedTunnel(d: DeviceConfig, ni: NiName, x: nat) {
    ni in d.nis && Dotted(VXLAN0, x) in d.nis[ni].vxlanInterfaces
  }

  /** A network instance refers to exactly the subinterfaces it claims and to its own IRB leg. */
  lemma AttachedIff(i: Input, order: seq<string>, device: string, ni: NiName, k: SubKey)
    requires i.Valid()
    ensures Attached(CompileDevice(i, order, device), ni, k) <==>
      ni in NiNames(i.vpc) &&
      if k.itfce == IRB0 then HasIrb(i, ni, device) && i.ix[ni] == k.index else Claims(i, ni, device, k.itfce, k.index)
  {
    var d, m := CompileDevice(i, order, device), Itfces(i, ni, device);
    if ni in NisOn(i, device) {
      assert IRB0 !in m;
      if Dotted(k.itfce, k.index) in NiInterfaces(i, ni, device) {
        if HasIrb(i, ni, device) && Dotted(k.itfce, k.index) == Dotted(IRB0, i.ix[ni]) {
          JoinedInjective(k.itfce, k.index, IRB0, i.ix[ni], '.');
        } else {
          var name :| name in m && Dotted(k.itfce, k.index) == Dotted(name, m[name].outerVlan);
          JoinedInjective(k.itfce, k.index, name, m[name].outerVlan, '.');
        }
      }
    }
  }

  /** No interface and VLAN of a device is claimed by two network instances. */
  ghost predicate ClaimsUnique(i: Input, device: string) {
    forall m, n, name, vlan :: Claims(i, m, device, name, vlan) && Claims(i, n, device, name, vlan) ==> m == n
  }

  /** Every subinterface is attached to some network instance, and to only one exactly if claims are
      unique. */
  lemma AttachmentUniqueIff(i: Input, order: seq<string>, device: string)
    requires i.Valid()
    ensures var d := CompileDevice(i, order, device);
      && (forall k :: SubAt(d, k).Some? ==> exists ni :: Attached(d, ni, k))
      && ((forall k, m, n :: SubAt(d, k).Some? && Attached(d, m, k) && Attached(d, n, k) ==> m == n)
          <==> ClaimsUnique(i, device))
  {
    OwnersExist(i, order, device);
    if ClaimsUnique(i, device) {
      UniqueClaimsAttachOnce(i, order, device);
    } else {
      var m, n, name, vlan :| Claims(i, m, device, name, vlan) && Claims(i, n, device, name, vlan) && m != n;
      ClaimAttaches(i, order, device, m, name, vlan);
      ClaimAttaches(i, order, device, n, name, vlan);
    }
  }

  lemma OwnersExist(i: Input, order: seq<string>, device: string)
    requires i.Valid()
    ensures var d := CompileDevice(i, order, device); forall k :: SubAt(d, k).Some? ==> exists ni :: Attached(d, ni, k)
  {
    var d := CompileDevice(i, order, device);
    forall k | SubAt(d, k).Some?
      ensures exists ni :: Attached(d, ni, k)
    {
      var ni := Owner(i, order, device, k);
    }
  }

  lemma UniqueClaimsAttachOnce(i: Input, order: seq<string>, device: string)
    requires i.Valid() && ClaimsUnique(i, device)
    ensures var d := CompileDevice(i, order, device);
      forall k, m, n :: Attached(d, m, k) && Attached(d, n, k) ==> m == n
  {
    var d := CompileDevice(i, order, device);
    forall k, m, n | Attached(d, m, k) && Attached(d, n, k)
      ensures m == n
    {
      AttachedIff(i, order, device, m, k);
      AttachedIff(i, order, device, n, k);
    }
  }

  lemma ClaimAttaches(i: Input, order: seq<string>, device: string, ni: NiName, name: string, vlan: nat)
    requires i.Valid() && Claims(i, ni, device, name, vlan)
    ensures SubAt(CompileDevice(i, order, device), SubKey(name, vlan)).Some?
    ensures Attached(CompileDevice(i, order, device), ni, SubKey(name, vlan))
  {
    ClaimIsWrite(i, ni, device, name, vlan);
    EthernetSpec(i, order, device, name, vlan);
    AttachedIff(i, order, device, ni, SubKey(name, vlan));
  }

  lemma Owner(i: Input, order: seq<string>, device: string, k: SubKey) returns (ni: NiName)
    requires i.Valid() && SubAt(CompileDevice(i, order, device), k).Some?
    ensures Attached(CompileDevice(i, order, device), ni, k)
  {
    if k.itfce == IRB0 {
      IrbSpec(i, order, device, k.index);
      ni :| ni in IrbNis(i, device) && i.ix[ni] == k.index;
    } else {
      EthernetSpec(i, order, device, k.itfce, k.index);
      ni :| ni in NiNames(i.vpc) && Claims(i, ni, device, k.itfce, k.index);
    }
    AttachedIff(i, order, device, ni, k);
  }

  /** A tunnel subinterface always belongs to exactly one network instance. */
  lemma TunnelsAttachedOnce(i: Input, order: seq<string>, device: string, x: nat)
    requires i.Valid() && x in CompileDevice(i, order, device).vxlans
    ensures var d := CompileDevice(i, order, device);
      && (exists ni :: AttachedTunnel(d, ni, x))
      && forall m, n :: AttachedTunnel(d, m, x) && AttachedTunnel(d, n, x) ==> m == n
  {
    var d := CompileDevice(i, order, device);
    VxlanSpec(i, order, device, x);
    var owner :| owner in VxlanNis(i, device) && i.ix[owner] == x;
    AttachedTunnelIff(i, order, device, owner, x);
    forall m | AttachedTunnel(d, m, x)
      ensures m == owner
    {
      AttachedTunnelIff(i, order, device, m, x);
    }
  }

  lemma AttachedTunnelIff(i: Input, order: seq<string>, device: string, ni: NiName, x: nat)
    requires i.Valid()
    ensures AttachedTunnel(CompileDevice(i, order, device), ni, x) <==> ni in VxlanNis(i, device) && i.ix[ni] == x
  {
    if ni in VxlanNis(i, device) && Dotted(VXLAN0, x) == Dotted(VXLAN0, i.ix[ni]) {
      JoinedInjective(VXLAN0, x, VXLAN0, i.ix[ni], '.');
    }
  }

  // ---------- agreement across the fabric ----------

  /** One network instance has the same identity on every device: EVI, route targets and, wherever its
      tunnel reaches, VNI. What it exports on one device is what it imports on every other. */
  lemma SameIdentityEverywhere(i: Input, order: seq<string>, a: string, b: string, ni: NiName)
    requires i.Valid()
    requires a in Compile(i, order) && ni in Compile(i, order)[a].nis
    requires b in Compile(i, order) && ni in Compile(i, order)[b].nis
    ensures var x, y := Compile(i, order)[a], Compile(i, order)[b];
      && x.nis[ni].bgpEvpn == y.nis[ni].bgpEvpn && x.nis[ni].bgpVpn == y.nis[ni].bgpVpn
      && x.nis[ni].bgpVpn.Some?
      && x.nis[ni].bgpVpn.value.importRt == y.nis[ni].bgpVpn.value.exportRt == "target:65555:" + Itoa(i.ix[ni])
      && x.nis[ni].bgpEvpn.Some? && x.nis[ni].bgpEvpn.value.evi == i.ix[ni]
      && (i.ix[ni] in x.vxlans <==> i.ix[ni] in y.vxlans)
      && (i.ix[ni] in x.vxlans ==> x.vxlans[i.ix[ni]].vni == y.vxlans[i.ix[ni]].vni == i.ix[ni])
  {
    InstanceIs(i, order, a, ni);
    InstanceIs(i, order, b, ni);
    TunnelIs(i, order, a, ni);
    TunnelIs(i, order, b, ni);
    hide Compile;
  }

  lemma InstanceIs(i: Input, order: seq<string>, device: string, ni: NiName)
    requires i.Valid() && device in Compile(i, order) && ni in Compile(i, order)[device].nis
    ensures ni in NisOn(i, device) && Compile(i, order)[device] == CompileDevice(i, order, device)
    ensures Compile(i, order)[device].nis[ni] == NiConfig(i.ix, ni, NiInterfaces(i, ni, device), NiVxlans(i, ni))
    ensures TargetOf(i.ix[ni]) == "target:65555:" + Itoa(i.ix[ni])
  {
    assert "target:65555" + [':'] == "target:65555:";
  }

  lemma TunnelIs(i: Input, order: seq<string>, device: string, ni: NiName)
    requires i.Valid() && ni in NisOn(i, device)
    ensures var vxlans := CompileDevice(i, order, device).vxlans;
      && (i.ix[ni] in vxlans <==> TunnelOf(i.vpc, ni) == VXLAN)
      && (i.ix[ni] in vxlans ==> vxlans[i.ix[ni]] == VxlanConfig(i.ix, ni))
  {
    VxlanSpec(i, order, device, i.ix[ni]);
    if TunnelOf(i.vpc, ni) == VXLAN {
      assert ni in VxlanNis(i, device);
    }
    if i.ix[ni] in CompileDevice(i, order, device).vxlans {
      var m :| m in VxlanNis(i, device) && i.ix[m] == i.ix[ni];
      assert m == ni;
    }
  }

  /** Two network instances share none of them, on any pair of devices: their tunnel subinterfaces, where
      both have one, have different VNIs. */
  lemma DistinctIdentities(i: Input, order: seq<string>, a: string, b: string, m: NiName, n: NiName)
    requires i.Valid() && m != n
    requires a in Compile(i, order) && m in Compile(i, order)[a].nis
    requires b in Compile(i, order) && n in Compile(i, order)[b].nis
    ensures var x, y := Compile(i, order)[a].nis[m], Compile(i, order)[b].nis[n];
      && x.bgpEvpn.value.evi != y.bgpEvpn.value.evi
      && x.bgpEvpn.value.vxlanInterface != y.bgpEvpn.value.vxlanInterface
      && x.bgpVpn.value.importRt != y.bgpVpn.value.importRt
      && x.bgpVpn.value.exportRt != y.bgpVpn.value.exportRt
      && x.bgpVpn.value.importRt != y.bgpVpn.value.exportRt
      && x.vxlanInterfaces * y.vxlanInterfaces == {}
    ensures var x, y := Compile(i, order)[a].vxlans, Compile(i, order)[b].vxlans;
      i.ix[m] in x && i.ix[n] in y ==> x[i.ix[m]].vni != y[i.ix[n]].vni
  {
    if TargetOf(i.ix[m]) == TargetOf(i.ix[n]) {
      JoinedInjective("target:65555", i.ix[m], "target:65555", i.ix[n], ':');
    }
    if Dotted(VXLAN0, i.ix[m]) == Dotted(VXLAN0, i.ix[n]) {
      JoinedInjective(VXLAN0, i.ix[m], VXLAN0, i.ix[n], '.');
    }
  }

  // ---------- bridged purity ----------

  /** A subinterface is typed routed iff some routing table claims it; one typed bridged carries no IP
      configuration, whatever prefixes its selectors or an overlapping claim mention. */
  lemma BridgedPurity(i: Input, order: seq<string>, device: string, k: SubKey)
    requires i.Valid() && Orders(order, RoutingTablesOf(i).Keys)
    requires SubAt(CompileDevice(i, order, device), k).Some?
    ensures var sub := SubAt(CompileDevice(i, order, device), k).value;
      && (sub.siType == Some(Bridged) ==> sub.ipv4.None? && sub.ipv6.None? && sub.virtualRouterId.None?)
      && (sub.siType.None? <==> k.itfce == IRB0)
      && (sub.siType == Some(Routed) <==>
            k.itfce != IRB0 && exists ni :: ni in RtNames(i.vpc) && Claims(i, ni, device, k.itfce, k.index))
  {
    if k.itfce == IRB0 {
      IrbSpec(i, order, device, k.index);
    } else {
      EthernetSpec(i, order, device, k.itfce, k.index);
      LastClaimantExists(i, order, device, k.itfce, k.index);
      if ni :| ni in RtNames(i.vpc) && Claims(i, ni, device, k.itfce, k.index) {
        assert ni.name in RoutingTablesOf(i).Keys;
      }
      match LastClaimant(i, order, device, k.itfce, k.index) {
        case None =>
        case Some(rt) =>
          assert rt in RoutingTablesOf(i).Keys;
          assert RtNi(rt) in RtNames(i.vpc);
      }
    }
  }

  // ---------- confluence ----------

  /** Two routing tables that claim one interface and VLAN give it different addresses. */
  ghost predicate Conflict(i: Input, r: string, s: string, device: string, name: string, vlan: nat)
  {
    && Claims(i, RtNi(r), device, name, vlan)
    && Claims(i, RtNi(s), device, name, vlan)
    && RoutedSub(i, Itfces(i, RtNi(r), device)[name]) != RoutedSub(i, Itfces(i, RtNi(s), device)[name])
  }

  ghost predicate Confluent(i: Input)
    requires i.Valid()
  {
    forall o, p :: Orders(o, RoutingTablesOf(i).Keys) && Orders(p, RoutingTablesOf(i).Keys) ==>
      Compile(i, o) == Compile(i, p)
  }

  /** The result is independent of every iteration order iff no two routing tables conflict. Overlaps
      between bridge domains, and between a bridge domain and a routing table, are harmless. */
  lemma ConfluentIff(i: Input)
    requires i.Valid()
    ensures Confluent(i) <==> forall r, s, device, name, vlan :: !Conflict(i, r, s, device, name, vlan)
  {
    if r, s, device, name, vlan :| Conflict(i, r, s, device, name, vlan) {
      ConflictSeparates(i, r, s, device, name, vlan);
    } else {
      forall o, p | Orders(o, RoutingTablesOf(i).Keys) && Orders(p, RoutingTablesOf(i).Keys)
        ensures Compile(i, o) == Compile(i, p)
      {
        OrderInvisible(i, o, p);
      }
    }
  }

  lemma OrderInvisible(i: Input, o: seq<string>, p: seq<string>)
    requires i.Valid() && Orders(o, RoutingTablesOf(i).Keys) && Orders(p, RoutingTablesOf(i).Keys)
    requires forall r, s, device, name, vlan :: !Conflict(i, r, s, device, name, vlan)
    ensures Compile(i, o) == Compile(i, p)
  {
    hide CompileDevice, Conflict;
    forall device | device in SrlNames(i.nodes)
      ensures CompileDevice(i, o, device) == CompileDevice(i, p, device)
    {
      DeviceInvisible(i, o, p, device);
    }
  }

  lemma DeviceInvisible(i: Input, o: seq<string>, p: seq<string>, device: string)
    requires i.Valid() && Orders(o, RoutingTablesOf(i).Keys) && Orders(p, RoutingTablesOf(i).Keys)
    requires forall r, s, name, vlan :: !Conflict(i, r, s, device, name, vlan)
    ensures CompileDevice(i, o, device) == CompileDevice(i, p, device)
  {
    hide SubinterfacesOf, Conflict;
    forall name
      ensures SubinterfacesOf(i, o, device, name) == SubinterfacesOf(i, p, device, name)
    {
      SubinterfacesInvisible(i, o, p, device, name);
    }
  }

  lemma SubinterfacesInvisible(i: Input, o: seq<string>, p: seq<string>, device: string, name: string)
    requires i.Valid() && Orders(o, RoutingTablesOf(i).Keys) && Orders(p, RoutingTablesOf(i).Keys)
    requires forall r, s, vlan :: !Conflict(i, r, s, device, name, vlan)
    ensures SubinterfacesOf(i, o, device, name) == SubinterfacesOf(i, p, device, name)
  {
    forall vlan: nat
      ensures EthernetSub(i, o, device, name, vlan) == EthernetSub(i, p, device, name, vlan)
    {
      ClaimantInvisible(i, o, p, device, name, vlan);
    }
  }

  lemma ClaimantInvisible(i: Input, o: seq<string>, p: seq<string>, device: string, name: string, vlan: nat)
    requires Orders(o, RoutingTablesOf(i).Keys) && Orders(p, RoutingTablesOf(i).Keys)
    requires forall r, s :: !Conflict(i, r, s, device, name, vlan)
    ensures EthernetSub(i, o, device, name, vlan) == EthernetSub(i, p, device, name, vlan)
  {
    assert forall rt :: rt in o <==> rt in p;
    LastClaimantExists(i, o, device, name, vlan);
    LastClaimantExists(i, p, device, name, vlan);
    match (LastClaimant(i, o, device, name, vlan), LastClaimant(i, p, device, name, vlan)) {
      case (Some(r), Some(s)) => assert !Conflict(i, r, s, device, name, vlan);
      case (Some(r), None) =>
      case (None, Some(s)) =>
      case (None, None) =>
    }
  }

  /** Ranging last over one or the other of two conflicting routing tables gives different fabrics. */
  lemma ConflictSeparates(i: Input, r: string, s: string, device: string, name: string, vlan: nat)
    requires i.Valid() && Conflict(i, r, s, device, name, vlan)
    ensures !Confluent(i)
  {
    hide CompileDevice, Compile, Itfces, SubAt, RoutedSub;
    ClaimIsWrite(i, RtNi(r), device, name, vlan);
    ClaimIsWrite(i, RtNi(s), device, name, vlan);
    var o := OrderEndingIn(RoutingTablesOf(i).Keys, r);
    var p := OrderEndingIn(RoutingTablesOf(i).Keys, s);
    EthernetSpec(i, o, device, name, vlan);
    EthernetSpec(i, p, device, name, vlan);
    DeviceOf(i, o, device);
    DeviceOf(i, p, device);
    assert SubAt(CompileDevice(i, o, device), SubKey(name, vlan)) !=
      SubAt(CompileDevice(i, p, device), SubKey(name, vlan));
  }

  lemma {:induction false} OrderOf(names: set<string>) returns (order: seq<string>)
    ensures Orders(order, names)
    decreases names
  {
    if names == {} {
      order := [];
    } else {
      var n :| n in names;
      var rest := OrderOf(names - {n});
      order := rest + [n];
    }
  }

  lemma OrderEndingIn(names: set<string>, last: string) returns (order: seq<string>)
    requires last in names
    ensures Orders(order, names) && |order| > 0 && order[|order| - 1] == last
  {
    var rest := OrderOf(names - {last});
    order := rest + [last];
  }
}
