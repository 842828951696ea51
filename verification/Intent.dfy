/** The intent of one VPC as the controller builds it: a child per device, each holding the device tree
    that `srlPopulateSchema` changes in place. */
module Intent {
  import opened Wrappers
  import opened Decimal
  import opened Gateway
  import opened Registers
  import opened DeviceTree
  import opened Compilation

  /** A network instance keeps its kind, so it never has the fields of the other one. */
  ghost predicate KindsKept(d: DeviceConfig) {
    forall ni :: ni in d.nis ==> (ni.BdNi? ==> !d.nis[ni].ipForwarding) && (ni.RtNi? ==> !d.nis[ni].macLearning)
  }

  class Device {
    var networkInstances: map<NiName, NetworkInstance>
    var interfaces: map<string, map<nat, Subinterface>>
    var vxlans: map<nat, VxlanInterface>

    constructor ()
      ensures Config() == EMPTY_DEVICE
    {
      networkInstances, interfaces, vxlans := map[], map[], map[];
    }

    ghost function Config(): DeviceConfig
      reads this
    {
      DeviceConfig(networkInstances, interfaces, vxlans)
    }

    method GetOrCreateNetworkInstance(name: NiName) returns (ni: NetworkInstance)
      modifies this`networkInstances
      ensures ni == GetNi(old(Config()), name)
      ensures networkInstances == old(networkInstances)[name := ni]
    {
      if name !in networkInstances {
        networkInstances := networkInstances[name := EMPTY_NI];
      }
      ni := networkInstances[name];
    }

    method GetOrCreateSubinterface(itfce: string, index: nat) returns (si: Subinterface)
      modifies this`interfaces
      ensures si == GetSub(old(Config()), SubKey(itfce, index))
      ensures interfaces == PutSub(old(interfaces), SubKey(itfce, index), si)
    {
      if itfce !in interfaces {
        interfaces := interfaces[itfce := map[]];
      }
      if index !in interfaces[itfce] {
        var subinterfaces: map<nat, Subinterface> := interfaces[itfce][index := EMPTY_SUB];
        interfaces := interfaces[itfce := subinterfaces];
      }
      si := interfaces[itfce][index];
      assert PutSub(old(interfaces), SubKey(itfce, index), si)[itfce] == interfaces[itfce];
    }
  }

  class Intent {
    ghost var Config: FabricConfig
    ghost var Repr: set<object>
    var children: map<string, Device>

    /** `Config` is what the children hold; they are separate objects. */
    ghost predicate Valid()
      reads this, Repr
    {
      && this in Repr
      && Config.Keys == children.Keys
      && (forall name :: name in children ==> children[name] in Repr)
      && (forall a, b :: a in children && b in children && a != b ==> children[a] != children[b])
      && (forall name :: name in children ==> Config[name] == children[name].Config() && KindsKept(Config[name]))
    }

    constructor ()
      ensures Valid() && Config == map[] && fresh(Repr)
    {
      children, Config, Repr := map[], map[], {this};
    }

    /** Keeps a child that is already there. */
    method AddChild(name: string)
      requires Valid()
      modifies this
      ensures Valid() && name in children && fresh(Repr - old(Repr))
      ensures Config == old(Config)[name := GetDevice(old(Config), name)]
      ensures name in old(children) ==> children[name] in old(Repr)
      ensures name !in old(children) ==> fresh(children[name])
    {
      if name !in children {
        var d := new Device();
        children, Config, Repr := children[name := d], Config[name := EMPTY_DEVICE], Repr + {d};
      }
      assert Config == old(Config)[name := GetDevice(old(Config), name)];
    }
  }

  /** An interface as handed to `srlPopulateSchema`. */
  datatype ItfceInfo = ItfceInfo(
    name: string, kind: ItfceKind, outerVlan: nat, ipv4Prefixes: seq<string>, ipv6Prefixes: seq<string>)

  function WriteOf(i: Input, device: string, info: ItfceInfo, ni: NiName): Write
  {
    Write(device, info.kind, info.name, info.outerVlan, ni,
      Or(Ipv4Of(i, info.ipv4Prefixes)), Or(Ipv6Of(i, info.ipv6Prefixes)))
  }

  /** The IRB leg of a routing table needs at least one prefix of each family: without one the pointer
      followed is nil. */
  predicate LacksFamily(info: ItfceInfo, ni: NiName)
  {
    info.kind.Irb? && ni.RtNi? && (info.ipv4Prefixes == [] || info.ipv6Prefixes == [])
  }

  /** The call succeeds. */
  predicate Writable(i: Input, info: ItfceInfo, ni: NiName)
  {
    AddressesOk(i, info.ipv4Prefixes, info.ipv6Prefixes) && !LacksFamily(info, ni)
  }

  /** The call panics: a prefix that does not normalise is reported before any pointer is followed. */
  predicate Panics(i: Input, info: ItfceInfo, ni: NiName)
  {
    AddressesOk(i, info.ipv4Prefixes, info.ipv6Prefixes) && LacksFamily(info, ni)
  }

  /** The device once the common fields of the network instance are written. */
  function Header(ix: Indexes, d: DeviceConfig, ni: NiName): DeviceConfig {
    d.(nis := d.nis[ni := NiConfig(ix, ni, GetNi(d, ni).interfaces, GetNi(d, ni).vxlanInterfaces)])
  }

  /** The device after a call: the whole write, or the part done before the error or the panic. */
  function Left(ix: Indexes, d: DeviceConfig, w: Write, r: Outcome): DeviceConfig {
    match r
    case Done => ApplyDevice(ix, d, w)
    case Failed(_) => Header(ix, d, w.ni)
    case Panicked => Header(ix, d, w.ni).(interfaces := PutSub(d.interfaces, Key(ix, w), GetSub(d, Key(ix, w))))
  }

  /** What a call leaves that does not succeed: the network instance, with the lists it had, and after a
      panic the subinterface, empty if it is new. Everything else on the device is as before. */
  lemma PartLeft(ix: Indexes, d: DeviceConfig, w: Write, r: Outcome)
    requires !r.Done?
    ensures var x := Left(ix, d, w, r);
      && x.nis.Keys == d.nis.Keys + {w.ni} && x.vxlans == d.vxlans
      && (forall ni :: ni in d.nis && ni != w.ni ==> x.nis[ni] == d.nis[ni])
      && x.nis[w.ni].interfaces == GetNi(d, w.ni).interfaces
      && x.nis[w.ni].vxlanInterfaces == GetNi(d, w.ni).vxlanInterfaces
      && x.nis[w.ni].bgpEvpn.Some? && x.nis[w.ni].bgpEvpn.value.evi == Index(ix, w.ni)
      && (r.Failed? ==> x.interfaces == d.interfaces)
      && (r.Panicked? ==>
           forall k :: SubAt(x, k) ==
             if k == Key(ix, w) && SubAt(d, k).None? then Some(Subinterface(None, None, None, None, None))
             else SubAt(d, k))
  {
  }

  method MarkAnycast(a: map<string, Address>) returns (r: map<string, Address>)
    ensures r == Anycast(a)
  {
    r := a;
    var rest := a.Keys;
    while rest != {}
      invariant rest <= a.Keys && r.Keys == a.Keys
      invariant forall k :: k in a ==> r[k] == if k in rest then a[k] else a[k].(anycastGw := Some(true))
      decreases rest
    {
      var k :| k in rest;
      r := r[k := r[k].(anycastGw := Some(true))];
      rest := rest - {k};
    }
  }

  method Ipv4Addresses(i: Input, prefixes: seq<string>) returns (r: Result<Option<map<string, Address>>>)
    ensures r == Ipv4Of(i, prefixes)
  {
    if |prefixes| > 0 {
      var a := GetAddresses(i.lib.text, V4_LINK, i.allocation, prefixes);
      if a.Err? {
        return Err(a.error);
      }
      return Ok(Some(a.value));
    }
    return Ok(None);
  }

  method Ipv6Addresses(i: Input, prefixes: seq<string>) returns (r: Result<Option<map<string, Address>>>)
    ensures r == Ipv6Of(i, prefixes)
  {
    if |prefixes| > 0 {
      var a := GetAddresses(i.lib.text, V6_LINK, i.allocation, prefixes);
      if a.Err? {
        return Err(a.error);
      }
      return Ok(Some(a.value));
    }
    return Ok(None);
  }

  /** The first part of `srlPopulateSchema`: the fields every call writes in the network instance. */
  method PopulateNi(d: Device, i: Input, niInfo: NiInfo) returns (ni: NetworkInstance)
    requires KindsKept(d.Config())
    requires niInfo.name in i.ix && niInfo.index == Some(i.ix[niInfo.name])
    modifies d`networkInstances
    ensures ni == NiConfig(i.ix, niInfo.name,
              GetNi(old(d.Config()), niInfo.name).interfaces, GetNi(old(d.Config()), niInfo.name).vxlanInterfaces)
    ensures d.networkInstances == old(d.networkInstances)[niInfo.name := ni]
  {
    var index := niInfo.index.value;
    ni := d.GetOrCreateNetworkInstance(niInfo.name);
    if niInfo.name.BdNi? {
      ni := ni.(niType := Some(MacVrf), macLearning := true);
    } else {
      ni := ni.(niType := Some(IpVrf), ipForwarding := true);
    }
    ni := ni.(bgpEvpn := Some(BgpEvpn(true, index, 2, Dotted(VXLAN0, index))));
    ni := ni.(bgpVpn := Some(RouteTarget(TargetOf(index), TargetOf(index))));
    d.networkInstances := d.networkInstances[niInfo.name := ni];
  }

  /** The last part: the interface itself, by kind, and the reference to it in the network instance. It
      panics iff the IRB leg of a routing table lacks a family. */
  method PopulateItfce(
    d: Device, info: ItfceInfo, niInfo: NiInfo, header: NetworkInstance,
    ipv4: Option<map<string, Address>>, ipv6: Option<map<string, Address>>, ghost ix: Indexes, ghost w: Write)
    returns (r: Outcome)
    requires niInfo.name in ix && niInfo.index == Some(ix[niInfo.name])
    requires w == Write(w.device, info.kind, info.name, info.outerVlan, niInfo.name, ipv4, ipv6)
    requires niInfo.name in d.networkInstances && header == d.networkInstances[niInfo.name]
    requires header == NiConfig(ix, niInfo.name, header.interfaces, header.vxlanInterfaces)
    modifies d
    ensures !r.Failed?
    ensures r.Panicked? <==> info.kind.Irb? && niInfo.name.RtNi? && (ipv4.None? || ipv6.None?)
    ensures d.Config() == Left(ix, old(d.Config()), w, r)
  {
    var name, index, ni := niInfo.name, niInfo.index.value, header;
    match info.kind {
      case Ethernet =>
        var si := d.GetOrCreateSubinterface(info.name, info.outerVlan);
        if name.BdNi? {
          si := si.(siType := Some(Bridged), vlanId := Some(info.outerVlan));
        } else {
          si := si.(siType := Some(Routed), vlanId := Some(info.outerVlan), ipv4 := Plain(ipv4), ipv6 := Plain(ipv6));
        }
        d.interfaces := PutSub(d.interfaces, SubKey(info.name, info.outerVlan), si);
        ni := ni.(interfaces := ni.interfaces + {Dotted(info.name, info.outerVlan)});
      case Irb =>
        var si := d.GetOrCreateSubinterface(info.name, index);
        if name.RtNi? {
          if ipv4.None? {
            HeaderTwice(ix, old(d.Config()), name);
            return Panicked;
          }
          var gateways := MarkAnycast(ipv4.value);
          if ipv6.None? {
            HeaderTwice(ix, old(d.Config()), name);
            return Panicked;
          }
          si := si.(ipv4 := Some(IpConfig(gateways, Some(LEARNING))),
                    ipv6 := Some(IpConfig(ipv6.value, Some(LEARNING))));
          si := si.(virtualRouterId := Some(1));
        }
        d.interfaces := PutSub(d.interfaces, SubKey(info.name, index), si);
        ni := ni.(interfaces := ni.interfaces + {Dotted(info.name, index)});
      case Vxlan =>
        var siType := if name.BdNi? then Bridged else Routed;
        d.vxlans := d.vxlans[index := VxlanInterface(siType, index, true)];
        ni := ni.(vxlanInterfaces := ni.vxlanInterfaces + {Dotted(info.name, index)});
    }
    if !info.kind.Vxlan? {
      PutSubTwice(old(d.interfaces), Key(ix, w), GetSub(old(d.Config()), Key(ix, w)),
        WriteSub(GetSub(old(d.Config()), Key(ix, w)), w));
    }
    d.networkInstances := d.networkInstances[name := ni];
    return Done;
  }

  lemma PutSubTwice(interfaces: map<string, map<nat, Subinterface>>, k: SubKey, a: Subinterface, b: Subinterface)
    ensures PutSub(PutSub(interfaces, k, a), k, b) == PutSub(interfaces, k, b)
  {
    var sub := if k.itfce in interfaces then interfaces[k.itfce] else map[];
    assert sub[k.index := a][k.index := b] == sub[k.index := b];
  }

  /** Writing the common fields again changes nothing. */
  lemma HeaderTwice(ix: Indexes, d: DeviceConfig, ni: NiName)
    requires ni in d.nis && d.nis[ni] == NiConfig(ix, ni, d.nis[ni].interfaces, d.nis[ni].vxlanInterfaces)
    ensures Header(ix, d, ni) == d
  {
    assert d.nis[ni := d.nis[ni]] == d.nis;
  }

  /** The part of `srlPopulateSchema` that works on the device. */
  method PopulateDevice(d: Device, i: Input, device: string, info: ItfceInfo, niInfo: NiInfo) returns (r: Outcome)
    requires KindsKept(d.Config())
    requires niInfo.name in i.ix && niInfo.index == Some(i.ix[niInfo.name])
    modifies d
    ensures KindsKept(d.Config())
    ensures r.Done? <==> Writable(i, info, niInfo.name)
    ensures r.Panicked? <==> Panics(i, info, niInfo.name)
    ensures d.Config() == Left(i.ix, old(d.Config()), WriteOf(i, device, info, niInfo.name), r)
  {
    hide Addresses, PutSub, WriteSub, Anycast;
    var ni := PopulateNi(d, i, niInfo);
    var ipv4 := Ipv4Addresses(i, info.ipv4Prefixes);
    if ipv4.Err? {
      return Failed(ipv4.error);
    }
    var ipv6 := Ipv6Addresses(i, info.ipv6Prefixes);
    if ipv6.Err? {
      return Failed(ipv6.error);
    }
    ghost var w := WriteOf(i, device, info, niInfo.name);
    r := PopulateItfce(d, info, niInfo, ni, ipv4.value, ipv6.value, i.ix, w);
    HeaderFirst(i.ix, old(d.Config()), w, r);
  }

  /** Writing the common fields first makes no difference to the whole call. */
  lemma HeaderFirst(ix: Indexes, d: DeviceConfig, w: Write, r: Outcome)
    ensures Left(ix, Header(ix, d, w.ni), w, r) == Left(ix, d, w, r)
  {
  }

  /** A successful call is the write applied to the fabric. */
  lemma DoneIsApply(ix: Indexes, c: FabricConfig, w: Write)
    ensures c[w.device := Left(ix, GetDevice(c, w.device), w, Done)] == Apply(ix, c, w)
  {
  }

  /** `srlPopulateSchema`: a successful call is one write, a failed one leaves the part named by `Left`,
      and every other device is left alone. */
  method SrlPopulateSchema(ci: Intent, i: Input, device: string, info: ItfceInfo, niInfo: NiInfo) returns (r: Outcome)
    requires ci.Valid()
    requires niInfo.name in i.ix && niInfo.index == Some(i.ix[niInfo.name])
    modifies ci.Repr
    ensures ci.Valid() && fresh(ci.Repr - old(ci.Repr))
    ensures r.Done? <==> Writable(i, info, niInfo.name)
    ensures r.Panicked? <==> Panics(i, info, niInfo.name)
    ensures ci.Config ==
      old(ci.Config)[device := Left(i.ix, GetDevice(old(ci.Config), device), WriteOf(i, device, info, niInfo.name), r)]
    ensures r.Done? ==> ci.Config == Apply(i.ix, old(ci.Config), WriteOf(i, device, info, niInfo.name))
  {
    ghost var before := ci.Config;
    ci.AddChild(device);
    r := PopulateChild(ci, i, device, info, niInfo);
    UpdateTwice(before, device, GetDevice(before, device), ci.Config[device]);
    DoneIsApply(i.ix, before, WriteOf(i, device, info, niInfo.name));
  }

  /** Working on one child keeps the intent valid and changes no other child. */
  method PopulateChild(ci: Intent, i: Input, device: string, info: ItfceInfo, niInfo: NiInfo) returns (r: Outcome)
    requires ci.Valid() && device in ci.children
    requires niInfo.name in i.ix && niInfo.index == Some(i.ix[niInfo.name])
    modifies ci`Config, ci.children[device]
    ensures ci.Valid()
    ensures r.Done? <==> Writable(i, info, niInfo.name)
    ensures r.Panicked? <==> Panics(i, info, niInfo.name)
    ensures ci.Config ==
      old(ci.Config)[device := Left(i.ix, old(ci.Config)[device], WriteOf(i, device, info, niInfo.name), r)]
  {
    var d := ci.children[device];
    r := PopulateDevice(d, i, device, info, niInfo);
    ci.Config := ci.Config[device := d.Config()];
  }

  lemma UpdateTwice(c: FabricConfig, device: string, x: DeviceConfig, y: DeviceConfig)
    ensures c[device := x][device := y] == c[device := y]
  {
  }
}
