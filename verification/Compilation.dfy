/** What a VPC compiles to: a declarative account of the configuration of every device, read off the
    spec, and of the runs that succeed. */
module Compilation {
  import opened Wrappers
  import opened Decimal
  import opened Net
  import opened Gateway
  import opened VpcSpec
  import opened Registers
  import opened DeviceTree

  datatype NodeInfo = NodeInfo(name: string, kind: string)

  const SRL := "srl"

  /** An interface the selectors pick on a device. */
  datatype SelectedItfce = SelectedItfce(outerVlan: nat, ipv4Prefixes: seq<string>, ipv6Prefixes: seq<string>)

  /** The library functions the compiler consults: address text, the validation of selectors
      (`GetEpgAndNodeItfceInfo`) and the selection of interfaces by name (`GetSelectedItfces`). */
  datatype Library = Library(
    text: AddressText,
    validate: Selectors -> Result<Selectors>,
    select: (string, Selectors) -> Result<map<string, SelectedItfce>>)
  {
    /** No interface of a device is named like the IRB interface. */
    ghost predicate Valid() {
      forall device, s :: select(device, s).Ok? ==> IRB0 !in select(device, s).value
    }
  }

  /** Everything one run reads. */
  datatype Input = Input(vpc: VpcView, nodes: seq<NodeInfo>, lib: Library, allocation: GatewayAllocation, ix: Indexes) {
    ghost predicate Valid() {
      && lib.Valid()
      && NiNames(vpc) <= ix.Keys
      && forall m, n :: m in ix && n in ix && ix[m] == ix[n] ==> m == n
    }
  }

  function SrlNames(nodes: seq<NodeInfo>): set<string> {
    set n | n in nodes && n.kind == SRL :: n.name
  }

  function BridgeDomainsOf(i: Input): map<string, BridgeDomain> {
    i.vpc.bridgeDomains
  }

  function RoutingTablesOf(i: Input): map<string, RoutingTable> {
    i.vpc.routingTables
  }

  // ---------- selection ----------

  function SelectorsOf(vpc: VpcView, ni: NiName): Selectors
    requires ni in NiNames(vpc)
  {
    match ni
    case BdNi(bd) => vpc.bridgeDomains[bd].selectors
    case RtNi(rt) => vpc.routingTables[rt].selectors
  }

  function TunnelOf(vpc: VpcView, ni: NiName): string {
    match ni
    case BdNi(bd) => GetBridgeDomainTunnel(vpc, bd)
    case RtNi(rt) => GetRoutingTableTunnel(vpc, rt)
  }

  function Selection(i: Input, ni: NiName, device: string): Result<map<string, SelectedItfce>>
    requires ni in NiNames(i.vpc)
  {
    var s :- i.lib.validate(SelectorsOf(i.vpc, ni));
    i.lib.select(device, s)
  }

  /** The interfaces a network instance's own selectors pick on a device. */
  function Itfces(i: Input, ni: NiName, device: string): map<string, SelectedItfce> {
    if ni in NiNames(i.vpc) && device in SrlNames(i.nodes) && Selection(i, ni, device).Ok? then
      Selection(i, ni, device).value
    else map[]
  }

  // ---------- addresses ----------

  function Ipv4Of(i: Input, prefixes: seq<string>): Result<Option<map<string, Address>>>
  {
    if |prefixes| == 0 then Ok(None)
    else var m :- Addresses(i.lib.text, V4_LINK, i.allocation, prefixes); Ok(Some(m))
  }

  function Ipv6Of(i: Input, prefixes: seq<string>): Result<Option<map<string, Address>>>
  {
    if |prefixes| == 0 then Ok(None)
    else var m :- Addresses(i.lib.text, V6_LINK, i.allocation, prefixes); Ok(Some(m))
  }

  function Or(r: Result<Option<map<string, Address>>>): Option<map<string, Address>> {
    match r
    case Ok(a) => a
    case Err(_) => None
  }

  predicate AddressesOk(i: Input, v4: seq<string>, v6: seq<string>)
  {
    Ipv4Of(i, v4).Ok? && Ipv6Of(i, v6).Ok?
  }

  // ---------- the writes of a run ----------

  function EthernetWrite(i: Input, ni: NiName, device: string, name: string, s: SelectedItfce): Write
  {
    Write(device, Ethernet, name, s.outerVlan, ni, Or(Ipv4Of(i, s.ipv4Prefixes)), Or(Ipv6Of(i, s.ipv6Prefixes)))
  }

  function VxlanWrite(ni: NiName, device: string): Write {
    Write(device, Vxlan, VXLAN0, 0, ni, None, None)
  }

  function BridgedIrbWrite(bd: string, device: string): Write {
    Write(device, Irb, IRB0, 0, BdNi(bd), None, None)
  }

  function RoutedIrbWrite(i: Input, rt: string, device: string, l: ListedBridgeDomain): Write
  {
    Write(device, Irb, IRB0, 0, RtNi(rt), Or(Ipv4Of(i, l.ipv4Prefixes)), Or(Ipv6Of(i, l.ipv6Prefixes)))
  }

  /** The writes for the interfaces a network instance selects itself: one per interface, and its tunnel. */
  predicate OwnWrite(i: Input, w: Write)
  {
    var m := Itfces(i, w.ni, w.device);
    || (w.kind.Ethernet? && w.itfce in m && w == EthernetWrite(i, w.ni, w.device, w.itfce, m[w.itfce]))
    || (m != map[] && TunnelOf(i.vpc, w.ni) == VXLAN && w == VxlanWrite(w.ni, w.device))
  }

  /** Entry j of a routing table's list is a declared bridge domain that selects something on the device. */
  predicate Joins(i: Input, rt: string, j: int, device: string) {
    var rts := RoutingTablesOf(i);
    && rt in rts
    && 0 <= j < |rts[rt].bridgeDomains|
    && Itfces(i, BdNi(rts[rt].bridgeDomains[j].name), device) != map[]
  }

  function Entry(i: Input, rt: string, j: int): ListedBridgeDomain
    requires rt in RoutingTablesOf(i) && 0 <= j < |RoutingTablesOf(i)[rt].bridgeDomains|
  {
    RoutingTablesOf(i)[rt].bridgeDomains[j]
  }

  /** The writes for one joining entry: the bridge domain's IRB leg and tunnel, then the routing table's. */
  function JoinWrites(i: Input, rt: string, j: int, device: string): seq<Write>
    requires Joins(i, rt, j, device)
  {
    var l := Entry(i, rt, j);
    [BridgedIrbWrite(l.name, device)]
    + (if TunnelOf(i.vpc, BdNi(l.name)) == VXLAN then [VxlanWrite(BdNi(l.name), device)] else [])
    + [RoutedIrbWrite(i, rt, device, l)]
    + (if TunnelOf(i.vpc, RtNi(rt)) == VXLAN then [VxlanWrite(RtNi(rt), device)] else [])
  }

  predicate WrittenByJoin(i: Input, rt: string, j: int, w: Write)
  {
    Joins(i, rt, j, w.device) && w in JoinWrites(i, rt, j, w.device)
  }

  ghost predicate JoinWrite(i: Input, w: Write)
  {
    exists rt, j :: WrittenByJoin(i, rt, j, w)
  }

  // ---------- the runs that succeed ----------

  /** Every interface selected for a network instance has addresses that normalise. */
  predicate OwnOk(i: Input, ni: NiName, device: string)
    requires ni in NiNames(i.vpc)
  {
    && Selection(i, ni, device).Ok?
    && forall name | name in Selection(i, ni, device).value ::
         var s := Selection(i, ni, device).value[name]; AddressesOk(i, s.ipv4Prefixes, s.ipv6Prefixes)
  }

  predicate NiOk(i: Input, ni: NiName)
    requires ni in NiNames(i.vpc)
  {
    i.lib.validate(SelectorsOf(i.vpc, ni)).Ok? && forall device | device in SrlNames(i.nodes) :: OwnOk(i, ni, device)
  }

  /** An entry that joins needs prefixes of both families, and these must normalise. */
  predicate JoinOk(i: Input, l: ListedBridgeDomain)
  {
    l.ipv4Prefixes != [] && l.ipv6Prefixes != [] && AddressesOk(i, l.ipv4Prefixes, l.ipv6Prefixes)
  }

  /** Everything the first two phases do is in order. */
  ghost predicate AllNisOk(i: Input)
  {
    forall ni :: ni in NiNames(i.vpc) ==> NiOk(i, ni)
  }

  ghost predicate AllOk(i: Input)
  {
    && AllNisOk(i)
    && forall rt, j, device :: Joins(i, rt, j, device) ==> JoinOk(i, Entry(i, rt, j))
  }

  /** An entry with no prefix of one of the families, but nothing else amiss. */
  predicate Lacking(i: Input, l: ListedBridgeDomain)
  {
    (l.ipv4Prefixes == [] || l.ipv6Prefixes == []) && AddressesOk(i, l.ipv4Prefixes, l.ipv6Prefixes)
  }

  // ---------- the configuration ----------

  /** A network instance has an IRB leg on a device if it takes part in some join there. */
  ghost predicate HasIrb(i: Input, ni: NiName, device: string) {
    exists rt, j :: Joins(i, rt, j, device) && (ni == RtNi(rt) || ni == BdNi(Entry(i, rt, j).name))
  }

  /** A network instance exists on a device iff its own selectors pick an interface there or it has an
      IRB leg there. */
  ghost predicate OnDevice(i: Input, ni: NiName, device: string) {
    Itfces(i, ni, device) != map[] || HasIrb(i, ni, device)
  }

  ghost function NisOn(i: Input, device: string): set<NiName> {
    set ni | ni in NiNames(i.vpc) && OnDevice(i, ni, device)
  }

  ghost function NiInterfaces(i: Input, ni: NiName, device: string): set<string> {
    (set name | name in Itfces(i, ni, device) :: Dotted(name, Itfces(i, ni, device)[name].outerVlan))
    + (if HasIrb(i, ni, device) then {Dotted(IRB0, Index(i.ix, ni))} else {})
  }

  ghost function NiVxlans(i: Input, ni: NiName): set<string> {
    if TunnelOf(i.vpc, ni) == VXLAN then {Dotted(VXLAN0, Index(i.ix, ni))} else {}
  }

  /** A network instance claims an interface and VLAN on a device. */
  predicate Claims(i: Input, ni: NiName, device: string, name: string, vlan: nat) {
    var m := Itfces(i, ni, device);
    name in m && m[name].outerVlan == vlan
  }

  /** The last routing table of a list of them that claims it. */
  function LastClaimant(i: Input, order: seq<string>, device: string, name: string, vlan: nat): Option<string> {
    if |order| == 0 then None
    else if Claims(i, RtNi(order[|order| - 1]), device, name, vlan) then Some(order[|order| - 1])
    else LastClaimant(i, order[..|order| - 1], device, name, vlan)
  }

  function BridgedSub(vlan: nat): Subinterface {
    Subinterface(Some(Bridged), Some(vlan), None, None, None)
  }

  function RoutedSub(i: Input, s: SelectedItfce): Subinterface
  {
    Subinterface(Some(Routed), Some(s.outerVlan),
      Plain(Or(Ipv4Of(i, s.ipv4Prefixes))), Plain(Or(Ipv6Of(i, s.ipv6Prefixes))), None)
  }

  ghost function EthernetNames(i: Input, device: string): set<string> {
    set ni, name | ni in NiNames(i.vpc) && name in Itfces(i, ni, device) :: name
  }

  ghost function EthernetVlans(i: Input, device: string, name: string): set<nat> {
    set ni | ni in NiNames(i.vpc) && name in Itfces(i, ni, device) :: Itfces(i, ni, device)[name].outerVlan
  }

  /** A claimed subinterface is routed if some routing table claims it, with the addresses of the last
      of them, and otherwise bridged. */
  function EthernetSub(i: Input, order: seq<string>, device: string, name: string, vlan: nat): Subinterface
  {
    match LastClaimant(i, order, device, name, vlan)
    case None => BridgedSub(vlan)
    case Some(rt) =>
      var m := Itfces(i, RtNi(rt), device);
      if name in m then RoutedSub(i, m[name]) else BridgedSub(vlan)
  }

  /** The last entry of a routing table's list, among the first n, that joins on a device. */
  function LastJoin(i: Input, rt: string, n: nat, device: string): (j: Option<nat>)
    ensures j.Some? ==>
      j.value < n && Joins(i, rt, j.value, device) && forall k :: j.value < k < n ==> !Joins(i, rt, k, device)
    ensures j.None? ==> forall k :: 0 <= k < n ==> !Joins(i, rt, k, device)
  {
    if n == 0 then None
    else if Joins(i, rt, n - 1, device) then Some(n - 1)
    else LastJoin(i, rt, n - 1, device)
  }

  function GatewaySub(i: Input, l: ListedBridgeDomain): Subinterface
  {
    Subinterface(None, None,
      Some(IpConfig(Anycast(OrEmpty(Or(Ipv4Of(i, l.ipv4Prefixes)))), Some(LEARNING))),
      Some(IpConfig(OrEmpty(Or(Ipv6Of(i, l.ipv6Prefixes))), Some(LEARNING))),
      Some(1))
  }

  /** The IRB leg of a bridge domain is empty; that of a routing table has the gateways of the last
      entry that joins. */
  function IrbSub(i: Input, ni: NiName, device: string): Subinterface
  {
    match ni
    case BdNi(_) => EMPTY_SUB
    case RtNi(rt) =>
      if rt !in RoutingTablesOf(i) then EMPTY_SUB
      else
        match LastJoin(i, rt, |RoutingTablesOf(i)[rt].bridgeDomains|, device)
        case None => EMPTY_SUB
        case Some(j) => GatewaySub(i, Entry(i, rt, j))
  }

  ghost function IrbNis(i: Input, device: string): set<NiName> {
    set ni | ni in NiNames(i.vpc) && HasIrb(i, ni, device)
  }

  ghost function VxlanNis(i: Input, device: string): set<NiName> {
    set ni | ni in NisOn(i, device) && TunnelOf(i.vpc, ni) == VXLAN
  }

  ghost function SubinterfacesOf(i: Input, order: seq<string>, device: string, name: string): map<nat, Subinterface>
    requires i.Valid()
  {
    if name == IRB0 then map ni | ni in IrbNis(i, device) :: i.ix[ni] := IrbSub(i, ni, device)
    else map vlan | vlan in EthernetVlans(i, device, name) :: EthernetSub(i, order, device, name, vlan)
  }

  ghost function VxlansOf(i: Input, nis: set<NiName>): map<nat, VxlanInterface>
    requires i.Valid() && nis <= i.ix.Keys
  {
    map ni | ni in nis :: i.ix[ni] := VxlanConfig(i.ix, ni)
  }

  ghost function CompileDevice(i: Input, order: seq<string>, device: string): DeviceConfig
    requires i.Valid()
  {
    DeviceConfig(
      map ni | ni in NisOn(i, device) :: NiConfig(i.ix, ni, NiInterfaces(i, ni, device), NiVxlans(i, ni)),
      map name | name in EthernetNames(i, device) + (if IrbNis(i, device) == {} then {} else {IRB0}) ::
        SubinterfacesOf(i, order, device, name),
      VxlansOf(i, VxlanNis(i, device)))
  }

  /** The configuration of the whole fabric. `order` lists the routing tables in the order in which the
      run ranged over them; nothing else of the order of a run can be seen in the result. */
  ghost function Compile(i: Input, order: seq<string>): FabricConfig
    requires i.Valid()
  {
    map device | device in SrlNames(i.nodes) && NisOn(i, device) != {} :: CompileDevice(i, order, device)
  }

  /** An order in which Go may range over the routing tables. */
  ghost predicate Orders(order: seq<string>, names: set<string>) {
    && (forall n :: n in names <==> n in order)
    && forall j, k :: 0 <= j < k < |order| ==> order[j] != order[k]
  }
}
