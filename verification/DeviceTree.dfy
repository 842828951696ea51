/** The SR Linux configuration of a device, as far as the controller writes it, and the effect of one
    `srlPopulateSchema` call on it. */
module DeviceTree {
  import opened Wrappers
  import opened Decimal
  import opened Gateway
  import opened Registers

  datatype NiType = MacVrf | IpVrf

  datatype BgpEvpn = BgpEvpn(adminEnable: bool, evi: nat, ecmp: nat, vxlanInterface: string)

  datatype RouteTarget = RouteTarget(importRt: string, exportRt: string)

  datatype NetworkInstance = NetworkInstance(
    niType: Option<NiType>,
    macLearning: bool,
    ipForwarding: bool,
    bgpEvpn: Option<BgpEvpn>,
    bgpVpn: Option<RouteTarget>,
    interfaces: set<string>,
    vxlanInterfaces: set<string>)

  datatype RouteType = Dynamic

  /** The neighbour tables of an IRB address family: ARP for IPv4, neighbour discovery for IPv6. */
  datatype Neighbors = Neighbors(learnUnsolicited: bool, populate: set<RouteType>, advertise: set<RouteType>)

  datatype IpConfig = IpConfig(address: map<string, Address>, neighbors: Option<Neighbors>)

  datatype SiType = Bridged | Routed

  datatype Subinterface = Subinterface(
    siType: Option<SiType>,
    vlanId: Option<nat>,
    ipv4: Option<IpConfig>,
    ipv6: Option<IpConfig>,
    virtualRouterId: Option<nat>)

  datatype VxlanInterface = VxlanInterface(siType: SiType, vni: nat, sourceSystemIpv4: bool)

  /** Subinterfaces by interface name and index; `vxlans` are those of tunnel interface `vxlan0`. */
  datatype DeviceConfig = DeviceConfig(
    nis: map<NiName, NetworkInstance>,
    interfaces: map<string, map<nat, Subinterface>>,
    vxlans: map<nat, VxlanInterface>)

  type FabricConfig = map<string, DeviceConfig>

  const EMPTY_NI := NetworkInstance(None, false, false, None, None, {}, {})
  const EMPTY_SUB := Subinterface(None, None, None, None, None)
  const EMPTY_DEVICE := DeviceConfig(map[], map[], map[])

  const IRB0 := "irb0"
  const VXLAN0 := "vxlan0"

  const LEARNING := Neighbors(true, {Dynamic}, {Dynamic})

  /** `"target:65555:" + index` */
  function TargetOf(index: nat): string {
    Joined("target:65555", ':', index)
  }

  // ---------- one call as a write ----------

  datatype ItfceKind = Ethernet | Irb | Vxlan

  /** What a successful call of `srlPopulateSchema` writes: an interface of one kind, with its address
      maps already computed, for one network instance on one device. */
  datatype Write = Write(
    device: string,
    kind: ItfceKind,
    itfce: string,
    vlan: nat,
    ni: NiName,
    ipv4: Option<map<string, Address>>,
    ipv6: Option<map<string, Address>>)

  /** The index the registry allocated to each network instance. */
  type Indexes = map<NiName, nat>

  /** The subinterface an Ethernet or IRB write touches. */
  datatype SubKey = SubKey(itfce: string, index: nat)

  function Index(ix: Indexes, ni: NiName): nat {
    if ni in ix then ix[ni] else 0
  }

  function Key(ix: Indexes, w: Write): SubKey {
    SubKey(w.itfce, if w.kind.Ethernet? then w.vlan else Index(ix, w.ni))
  }

  /** The name under which the network instance refers to what the write created. */
  function EntryName(ix: Indexes, w: Write): string {
    Dotted(Key(ix, w).itfce, Key(ix, w).index)
  }

  /** The fields of a network instance other than its two lists are a function of its name and index. */
  function NiConfig(ix: Indexes, ni: NiName, interfaces: set<string>, vxlanInterfaces: set<string>): NetworkInstance {
    var index := Index(ix, ni);
    NetworkInstance(
      Some(if ni.BdNi? then MacVrf else IpVrf),
      ni.BdNi?,
      ni.RtNi?,
      Some(BgpEvpn(true, index, 2, Dotted(VXLAN0, index))),
      Some(RouteTarget(TargetOf(index), TargetOf(index))),
      interfaces,
      vxlanInterfaces)
  }

  function GetNi(d: DeviceConfig, ni: NiName): NetworkInstance {
    if ni in d.nis then d.nis[ni] else EMPTY_NI
  }

  function GetSub(d: DeviceConfig, k: SubKey): Subinterface {
    if k.itfce in d.interfaces && k.index in d.interfaces[k.itfce] then d.interfaces[k.itfce][k.index] else EMPTY_SUB
  }

  function PutSub(interfaces: map<string, map<nat, Subinterface>>, k: SubKey, sub: Subinterface)
    : map<string, map<nat, Subinterface>>
  {
    interfaces[k.itfce := (if k.itfce in interfaces then interfaces[k.itfce] else map[])[k.index := sub]]
  }

  function Plain(a: Option<map<string, Address>>): Option<IpConfig> {
    match a
    case None => None
    case Some(m) => Some(IpConfig(m, None))
  }

  function OrEmpty(a: Option<map<string, Address>>): map<string, Address> {
    match a
    case None => map[]
    case Some(m) => m
  }

  function Anycast(m: map<string, Address>): map<string, Address> {
    map k | k in m :: m[k].(anycastGw := Some(true))
  }

  /** What a write makes of the subinterface it finds. The IRB subinterface of a bridge domain is only
      created; that of a routing table gets its gateways and has no type. */
  function WriteSub(sub: Subinterface, w: Write): Subinterface {
    match w.kind
    case Ethernet =>
      if w.ni.BdNi? then sub.(siType := Some(Bridged), vlanId := Some(w.vlan))
      else sub.(siType := Some(Routed), vlanId := Some(w.vlan), ipv4 := Plain(w.ipv4), ipv6 := Plain(w.ipv6))
    case Irb =>
      if w.ni.BdNi? then sub
      else
        sub.(ipv4 := Some(IpConfig(Anycast(OrEmpty(w.ipv4)), Some(LEARNING))),
             ipv6 := Some(IpConfig(OrEmpty(w.ipv6), Some(LEARNING))),
             virtualRouterId := Some(1))
    case Vxlan => sub
  }

  function VxlanConfig(ix: Indexes, ni: NiName): VxlanInterface {
    VxlanInterface(if ni.BdNi? then Bridged else Routed, Index(ix, ni), true)
  }

  function ApplyDevice(ix: Indexes, d: DeviceConfig, w: Write): DeviceConfig {
    var ni := GetNi(d, w.ni);
    if w.kind.Vxlan? then
      d.(nis := d.nis[w.ni := NiConfig(ix, w.ni, ni.interfaces, ni.vxlanInterfaces + {EntryName(ix, w)})],
         vxlans := d.vxlans[Index(ix, w.ni) := VxlanConfig(ix, w.ni)])
    else
      d.(nis := d.nis[w.ni := NiConfig(ix, w.ni, ni.interfaces + {EntryName(ix, w)}, ni.vxlanInterfaces)],
         interfaces := PutSub(d.interfaces, Key(ix, w), WriteSub(GetSub(d, Key(ix, w)), w)))
  }

  function GetDevice(c: FabricConfig, device: string): DeviceConfig {
    if device in c then c[device] else EMPTY_DEVICE
  }

  function Apply(ix: Indexes, c: FabricConfig, w: Write): FabricConfig {
    c[w.device := ApplyDevice(ix, GetDevice(c, w.device), w)]
  }

  function Run(ix: Indexes, c: FabricConfig, ws: seq<Write>): FabricConfig {
    if |ws| == 0 then c else Apply(ix, Run(ix, c, ws[..|ws| - 1]), ws[|ws| - 1])
  }

  lemma RunAppend(ix: Indexes, c: FabricConfig, ws: seq<Write>, w: Write)
    ensures Run(ix, c, ws + [w]) == Apply(ix, Run(ix, c, ws), w)
  {
    assert (ws + [w])[..|ws|] == ws;
  }

  lemma {:induction false} RunConcat(ix: Indexes, c: FabricConfig, a: seq<Write>, b: seq<Write>)
    ensures Run(ix, c, a + b) == Run(ix, Run(ix, c, a), b)
  {
    if |b| == 0 {
      assert a + b == a;
    } else {
      var n := |b| - 1;
      RunConcat(ix, c, a, b[..n]);
      assert (a + b)[..|a + b| - 1] == a + b[..n];
    }
  }

  // ---------- what a run of writes amounts to ----------

  /** The writes of a run determine every device on its own. */
  function DeviceRun(ix: Indexes, ws: seq<Write>, device: string): DeviceConfig {
    if |ws| == 0 then EMPTY_DEVICE
    else
      var d := DeviceRun(ix, ws[..|ws| - 1], device);
      var w := ws[|ws| - 1];
      if w.device == device then ApplyDevice(ix, d, w) else d
  }

  lemma {:induction false} RunByDevice(ix: Indexes, ws: seq<Write>, device: string)
    ensures Run(ix, map[], ws).Keys == set w | w in ws :: w.device
    ensures GetDevice(Run(ix, map[], ws), device) == DeviceRun(ix, ws, device)
  {
    if |ws| > 0 {
      var front, w := ws[..|ws| - 1], ws[|ws| - 1];
      RunByDevice(ix, front, device);
      assert ws == front + [w];
      assert (set x | x in ws :: x.device) == (set x | x in front :: x.device) + {w.device};
    }
  }

  function NisOf(ws: seq<Write>, device: string): set<NiName> {
    set w | w in ws && w.device == device :: w.ni
  }

  function EntriesOf(ix: Indexes, ws: seq<Write>, device: string, ni: NiName): set<string> {
    set w | w in ws && w.device == device && w.ni == ni && !w.kind.Vxlan? :: EntryName(ix, w)
  }

  function VxlanEntriesOf(ix: Indexes, ws: seq<Write>, device: string, ni: NiName): set<string> {
    set w | w in ws && w.device == device && w.ni == ni && w.kind.Vxlan? :: EntryName(ix, w)
  }

  /** A network instance exists iff some write names it, and its lists collect its writes, in whatever
      order they came. */
  lemma {:induction false} NiOfRun(ix: Indexes, ws: seq<Write>, device: string, ni: NiName)
    ensures ni in DeviceRun(ix, ws, device).nis <==> ni in NisOf(ws, device)
    ensures ni in NisOf(ws, device) ==>
      DeviceRun(ix, ws, device).nis[ni] ==
        NiConfig(ix, ni, EntriesOf(ix, ws, device, ni), VxlanEntriesOf(ix, ws, device, ni))
  {
    hide ApplyDevice;
    if |ws| > 0 {
      var front, w := ws[..|ws| - 1], ws[|ws| - 1];
      NiOfRun(ix, front, device, ni);
      assert ws == front + [w];
      NisOfAppend(ix, front, w, device);
      EntriesOfAppend(ix, front, w, device, ni);
      if w.device == device && w.ni == ni && ni !in NisOf(front, device) {
        NoEntries(ix, front, device, ni);
      }
      ApplyNi(ix, DeviceRun(ix, front, device), w, ni);
    }
  }

  lemma ApplyNi(ix: Indexes, d: DeviceConfig, w: Write, ni: NiName)
    ensures w.ni != ni ==> GetNi(ApplyDevice(ix, d, w), ni) == GetNi(d, ni)
    ensures ApplyDevice(ix, d, w).nis.Keys == d.nis.Keys + {w.ni}
    ensures w.ni == ni ==> ApplyDevice(ix, d, w).nis[ni] == NiConfig(ix, ni,
        GetNi(d, ni).interfaces + (if w.kind.Vxlan? then {} else {EntryName(ix, w)}),
        GetNi(d, ni).vxlanInterfaces + (if w.kind.Vxlan? then {EntryName(ix, w)} else {}))
  {
  }

  lemma NoEntries(ix: Indexes, ws: seq<Write>, device: string, ni: NiName)
    requires ni !in NisOf(ws, device)
    ensures EntriesOf(ix, ws, device, ni) == {} && VxlanEntriesOf(ix, ws, device, ni) == {}
  {
    forall w | w in ws && w.device == device
      ensures w.ni in NisOf(ws, device)
    {
    }
  }

  lemma NisOfAppend(ix: Indexes, ws: seq<Write>, w: Write, device: string)
    ensures NisOf(ws + [w], device) == NisOf(ws, device) + if w.device == device then {w.ni} else {}
  {
    forall ni | ni in NisOf(ws, device) + if w.device == device then {w.ni} else {}
      ensures ni in NisOf(ws + [w], device)
    {
      if ni in NisOf(ws, device) {
        var x :| x in ws && x.device == device && x.ni == ni;
        assert x in ws + [w];
      } else {
        assert w in ws + [w];
      }
    }
  }

  lemma EntriesOfAppend(ix: Indexes, ws: seq<Write>, w: Write, device: string, ni: NiName)
    ensures EntriesOf(ix, ws + [w], device, ni) == EntriesOf(ix, ws, device, ni)
      + if w.device == device && w.ni == ni && !w.kind.Vxlan? then {EntryName(ix, w)} else {}
    ensures VxlanEntriesOf(ix, ws + [w], device, ni) == VxlanEntriesOf(ix, ws, device, ni)
      + if w.device == device && w.ni == ni && w.kind.Vxlan? then {EntryName(ix, w)} else {}
  {
    forall x | x in ws + [w]
      ensures x in ws || x == w
    {
    }
    assert forall x :: x in ws ==> x in ws + [w];
    assert w in ws + [w];
  }

  // ---------- subinterfaces: the last writer ----------

  function SubAt(d: DeviceConfig, k: SubKey): Option<Subinterface> {
    if k.itfce in d.interfaces && k.index in d.interfaces[k.itfce] then Some(d.interfaces[k.itfce][k.index]) else None
  }

  predicate Writes(ix: Indexes, w: Write, device: string, k: SubKey) {
    w.device == device && !w.kind.Vxlan? && Key(ix, w) == k
  }

  function LastWrite(ix: Indexes, ws: seq<Write>, device: string, k: SubKey): Option<Write> {
    if |ws| == 0 then None
    else if Writes(ix, ws[|ws| - 1], device, k) then Some(ws[|ws| - 1])
    else LastWrite(ix, ws[..|ws| - 1], device, k)
  }

  /** A write of the same kind may overwrite an earlier one, but a bridge domain never writes after a
      routing table. */
  predicate MayFollow(ix: Indexes, x: Write, y: Write) {
    x.device == y.device && !x.kind.Vxlan? && !y.kind.Vxlan? && Key(ix, x) == Key(ix, y) ==>
      x.kind == y.kind && (x.ni.RtNi? ==> y.ni.RtNi?)
  }

  ghost predicate AllMayFollow(ix: Indexes, a: seq<Write>, b: seq<Write>) {
    forall x, y :: x in a && y in b ==> MayFollow(ix, x, y)
  }

  ghost predicate Disciplined(ix: Indexes, ws: seq<Write>) {
    |ws| > 0 ==> Disciplined(ix, ws[..|ws| - 1]) && AllMayFollow(ix, ws[..|ws| - 1], [ws[|ws| - 1]])
  }

  lemma {:induction false} DisciplinedConcat(ix: Indexes, a: seq<Write>, b: seq<Write>)
    requires Disciplined(ix, a) && AllMayFollow(ix, a, b) && AllMayFollow(ix, b, b)
    ensures Disciplined(ix, a + b)
  {
    if |b| == 0 {
      assert a + b == a;
    } else {
      var n := |b| - 1;
      assert forall x :: x in b[..n] ==> x in b;
      DisciplinedConcat(ix, a, b[..n]);
      assert (a + b)[..|a + b| - 1] == a + b[..n];
      assert b[n] in b;
    }
  }

  /** In a disciplined run a subinterface is exactly what its last writer makes of an empty one. */
  lemma {:induction false} LastWriterDecides(ix: Indexes, ws: seq<Write>, device: string, k: SubKey)
    requires Disciplined(ix, ws)
    ensures SubAt(DeviceRun(ix, ws, device), k) ==
      match LastWrite(ix, ws, device, k)
      case None => None
      case Some(w) => Some(WriteSub(EMPTY_SUB, w))
    ensures LastWrite(ix, ws, device, k).Some? ==>
      LastWrite(ix, ws, device, k).value in ws && Writes(ix, LastWrite(ix, ws, device, k).value, device, k)
  {
    if |ws| > 0 {
      var front, w := ws[..|ws| - 1], ws[|ws| - 1];
      LastWriterDecides(ix, front, device, k);
      assert forall x :: x in front ==> x in ws;
      if Writes(ix, w, device, k) {
        match LastWrite(ix, front, device, k) {
          case None =>
          case Some(x) =>
            assert w in [w] && MayFollow(ix, x, w);
            WriteSubTwice(x, w);
        }
      }
    }
  }

  lemma WriteSubTwice(x: Write, y: Write)
    requires x.kind == y.kind && (x.ni.RtNi? ==> y.ni.RtNi?)
    ensures WriteSub(WriteSub(EMPTY_SUB, x), y) == WriteSub(EMPTY_SUB, y)
  {
  }

  /** Every interface the run created has a subinterface. */
  lemma {:induction false} NoEmptyInterface(ix: Indexes, ws: seq<Write>, device: string)
    ensures forall name :: name in DeviceRun(ix, ws, device).interfaces ==>
      DeviceRun(ix, ws, device).interfaces[name] != map[]
  {
    if |ws| > 0 {
      NoEmptyInterface(ix, ws[..|ws| - 1], device);
      var d, w := DeviceRun(ix, ws[..|ws| - 1], device), ws[|ws| - 1];
      var k := Key(ix, w);
      if w.device == device && !w.kind.Vxlan? {
        assert k.index in PutSub(d.interfaces, k, WriteSub(GetSub(d, k), w))[k.itfce];
      }
    }
  }

  /** Interface trees without empty interfaces are determined by their subinterfaces. */
  lemma SubinterfacesDetermine(a: DeviceConfig, b: DeviceConfig)
    requires forall k :: SubAt(a, k) == SubAt(b, k)
    requires forall name :: name in a.interfaces ==> a.interfaces[name] != map[]
    requires forall name :: name in b.interfaces ==> b.interfaces[name] != map[]
    ensures a.interfaces == b.interfaces
  {
    SubinterfacesInclude(a, b);
    SubinterfacesInclude(b, a);
    assert forall name :: name in a.interfaces ==> a.interfaces[name] == b.interfaces[name];
  }

  lemma SubinterfacesInclude(a: DeviceConfig, b: DeviceConfig)
    requires forall k :: SubAt(a, k) == SubAt(b, k)
    requires forall name :: name in a.interfaces ==> a.interfaces[name] != map[]
    ensures a.interfaces.Keys <= b.interfaces.Keys
    ensures forall name, x :: name in a.interfaces && x in a.interfaces[name] ==>
      x in b.interfaces[name] && b.interfaces[name][x] == a.interfaces[name][x]
  {
    forall name | name in a.interfaces
      ensures name in b.interfaces
      ensures forall x :: x in a.interfaces[name] ==>
        x in b.interfaces[name] && b.interfaces[name][x] == a.interfaces[name][x]
    {
      forall x | x in a.interfaces[name]
        ensures name in b.interfaces && x in b.interfaces[name] && b.interfaces[name][x] == a.interfaces[name][x]
      {
        assert SubAt(a, SubKey(name, x)) == SubAt(b, SubKey(name, x));
      }
      var x :| x in a.interfaces[name];
    }
  }

  lemma {:induction false} LastWriteConcat(ix: Indexes, a: seq<Write>, b: seq<Write>, device: string, k: SubKey)
    ensures LastWrite(ix, a + b, device, k) ==
      if LastWrite(ix, b, device, k).Some? then LastWrite(ix, b, device, k) else LastWrite(ix, a, device, k)
  {
    if |b| == 0 {
      assert a + b == a;
    } else {
      var n := |b| - 1;
      assert (a + b)[..|a + b| - 1] == a + b[..n];
      LastWriteConcat(ix, a, b[..n], device, k);
    }
  }

  /** There is a last writer iff there is a writer, and it is one of them. */
  lemma {:induction false} LastWriteExists(ix: Indexes, ws: seq<Write>, device: string, k: SubKey)
    ensures LastWrite(ix, ws, device, k).Some? <==> exists w :: w in ws && Writes(ix, w, device, k)
    ensures LastWrite(ix, ws, device, k).Some? ==>
      LastWrite(ix, ws, device, k).value in ws && Writes(ix, LastWrite(ix, ws, device, k).value, device, k)
  {
    if |ws| > 0 {
      var front, w := ws[..|ws| - 1], ws[|ws| - 1];
      assert ws == front + [w];
      LastWriteExists(ix, front, device, k);
    }
  }

  function VxlanNisOf(ws: seq<Write>, device: string): set<NiName> {
    set w | w in ws && w.device == device && w.kind.Vxlan? :: w.ni
  }

  /** Tunnel subinterfaces belong to the network instances that wrote them. */
  lemma {:induction false} VxlansOfRun(ix: Indexes, ws: seq<Write>, device: string)
    ensures forall ni :: ni in VxlanNisOf(ws, device) ==> Index(ix, ni) in DeviceRun(ix, ws, device).vxlans
    ensures forall x :: x in DeviceRun(ix, ws, device).vxlans ==>
      exists ni :: ni in VxlanNisOf(ws, device) && Index(ix, ni) == x
        && DeviceRun(ix, ws, device).vxlans[x] == VxlanConfig(ix, ni)
  {
    if |ws| > 0 {
      var front, w := ws[..|ws| - 1], ws[|ws| - 1];
      VxlansOfRun(ix, front, device);
      assert ws == front + [w];
      VxlanNisOfAppend(front, w, device);
    }
  }

  lemma VxlanNisOfAppend(ws: seq<Write>, w: Write, device: string)
    ensures VxlanNisOf(ws + [w], device) ==
      VxlanNisOf(ws, device) + if w.device == device && w.kind.Vxlan? then {w.ni} else {}
  {
    assert forall x :: x in ws + [w] <==> x in ws || x == w;
    forall ni | ni in VxlanNisOf(ws, device)
      ensures ni in VxlanNisOf(ws + [w], device)
    {
      var x :| x in ws && x.device == device && x.kind.Vxlan? && x.ni == ni;
      assert x in ws + [w];
    }
  }
}
