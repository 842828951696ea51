/** The three phases of `populateSchema` (internal/controllers/vpc/reconciler.go and populate-srl.go):
    loops over Go maps, in any order, whose calls of `srlPopulateSchema` build the intent. Every method
    reports its calls as a ghost list of writes. */
module Populate {
  import opened Wrappers
  import opened VpcSpec
  import opened Registers
  import opened DeviceTree
  import opened Compilation
  import opened Correctness
  import opened Intent

  /** The allocation the run works with. */
  ghost predicate Allotted(i: Input, niInfos: map<NiName, NiInfo>) {
    forall ni :: ni in NiNames(i.vpc) ==> ni in i.ix && ni in niInfos && niInfos[ni] == NiInfo(ni, Some(i.ix[ni]))
  }

  // ---------- the interfaces a network instance selects itself ----------

  ghost predicate OwnWriteOn(i: Input, ni: NiName, device: string, w: Write)
  {
    OwnWrite(i, w) && w.ni == ni && w.device == device
  }

  function SelectedInfo(name: string, s: SelectedItfce): ItfceInfo {
    ItfceInfo(name, Ethernet, s.outerVlan, s.ipv4Prefixes, s.ipv6Prefixes)
  }

  const VXLAN_INFO := ItfceInfo(VXLAN0, Vxlan, 0, [], [])
  const IRB_INFO := ItfceInfo(IRB0, Irb, 0, [], [])

  /** `srlPopulateBridgeDomain` and `srlPopulateRouteTable`, which differ only in whose tunnel they look up. */
  method SrlPopulateSelected(ci: Intent, i: Input, device: string, niInfo: NiInfo, selectors: Selectors)
    returns (r: Outcome, ghost ws: seq<Write>)
    requires ci.Valid()
    requires niInfo.name in NiNames(i.vpc) && niInfo.name in i.ix && niInfo.index == Some(i.ix[niInfo.name])
    requires device in SrlNames(i.nodes) && i.lib.validate(SelectorsOf(i.vpc, niInfo.name)) == Ok(selectors)
    modifies ci.Repr
    ensures ci.Valid() && fresh(ci.Repr - old(ci.Repr))
    ensures !r.Panicked?
    ensures r.Done? <==> OwnOk(i, niInfo.name, device)
    ensures r.Done? ==> ci.Config == Run(i.ix, old(ci.Config), ws)
    ensures r.Done? ==> forall w :: w in ws <==> OwnWriteOn(i, niInfo.name, device, w)
  {
    ws := [];
    var selected := i.lib.select(device, selectors);
    if selected.Err? {
      return Failed(selected.error), ws;
    }
    var m := selected.value;
    assert m == Itfces(i, niInfo.name, device);
    hide Apply, VxlanWrite, EthernetWrite, OwnWriteOn, Itfces, AddressesOk;
    r, ws := PopulateEthernets(ci, i, device, niInfo, m);
    if !r.Done? {
      return;
    }
    OwnWritesAre(i, niInfo.name, device, ws);
    if m != map[] && TunnelOf(i.vpc, niInfo.name) == VXLAN {
      ghost var w := VxlanWrite(niInfo.name, device);
      RunAppend(i.ix, old(ci.Config), ws, w);
      r := PopulateTunnel(ci, i, device, niInfo);
      ws := ws + [w];
    }
  }

  /** The call for a tunnel, which always succeeds. */
  method PopulateTunnel(ci: Intent, i: Input, device: string, niInfo: NiInfo) returns (r: Outcome)
    requires ci.Valid()
    requires niInfo.name in i.ix && niInfo.index == Some(i.ix[niInfo.name])
    modifies ci.Repr
    ensures ci.Valid() && fresh(ci.Repr - old(ci.Repr))
    ensures r.Done? && ci.Config == Apply(i.ix, old(ci.Config), VxlanWrite(niInfo.name, device))
  {
    hide Apply, Left, Panics, Writable, WriteOf, VxlanWrite;
    TunnelIsWrite(i, device, niInfo.name);
    r := SrlPopulateSchema(ci, i, device, VXLAN_INFO, niInfo);
  }

  lemma TunnelIsWrite(i: Input, device: string, ni: NiName)
    ensures Writable(i, VXLAN_INFO, ni) && WriteOf(i, device, VXLAN_INFO, ni) == VxlanWrite(ni, device)
  {
  }

  /** The writes of a network instance on a device: its interfaces, and its tunnel if it selects any. */
  lemma OwnWritesAre(i: Input, ni: NiName, device: string, ws: seq<Write>)
    requires var m := Itfces(i, ni, device);
      forall w :: w in ws <==> w.itfce in m && w == EthernetWrite(i, ni, device, w.itfce, m[w.itfce])
    ensures var tunnel := Itfces(i, ni, device) != map[] && TunnelOf(i.vpc, ni) == VXLAN;
      forall w :: w in (if tunnel then ws + [VxlanWrite(ni, device)] else ws) <==> OwnWriteOn(i, ni, device, w)
  {
    hide Itfces, TunnelOf;
  }

  /** The call for a selected interface is its write, and succeeds iff the prefixes normalise. */
  lemma EthernetIsWrite(i: Input, device: string, ni: NiName, name: string, s: SelectedItfce)
    ensures WriteOf(i, device, SelectedInfo(name, s), ni) == EthernetWrite(i, ni, device, name, s)
    ensures Writable(i, SelectedInfo(name, s), ni) <==> AddressesOk(i, s.ipv4Prefixes, s.ipv6Prefixes)
    ensures !Panics(i, SelectedInfo(name, s), ni)
  {
  }

  method PopulateEthernets(ci: Intent, i: Input, device: string, niInfo: NiInfo, m: map<string, SelectedItfce>)
    returns (r: Outcome, ghost ws: seq<Write>)
    requires ci.Valid()
    requires niInfo.name in i.ix && niInfo.index == Some(i.ix[niInfo.name])
    modifies ci.Repr
    ensures ci.Valid() && fresh(ci.Repr - old(ci.Repr))
    ensures !r.Panicked?
    ensures r.Done? <==> forall name :: name in m ==> AddressesOk(i, m[name].ipv4Prefixes, m[name].ipv6Prefixes)
    ensures r.Done? ==> ci.Config == Run(i.ix, old(ci.Config), ws)
    ensures r.Done? ==> forall w :: w in ws <==>
      w.itfce in m && w == EthernetWrite(i, niInfo.name, device, w.itfce, m[w.itfce])
  {
    hide Apply, Left, Panics, Writable, WriteOf, AddressesOk;
    ws := [];
    r := Done;
    var rest := m.Keys;
    while rest != {}
      invariant rest <= m.Keys && r.Done?
      invariant ci.Valid() && fresh(ci.Repr - old(ci.Repr))
      invariant forall name :: name in m.Keys - rest ==> AddressesOk(i, m[name].ipv4Prefixes, m[name].ipv6Prefixes)
      invariant ci.Config == Run(i.ix, old(ci.Config), ws)
      invariant forall w :: w in ws <==>
        w.itfce in m && w.itfce !in rest && w == EthernetWrite(i, niInfo.name, device, w.itfce, m[w.itfce])
      decreases rest
    {
      var name :| name in rest;
      ghost var w := EthernetWrite(i, niInfo.name, device, name, m[name]);
      EthernetIsWrite(i, device, niInfo.name, name, m[name]);
      RunAppend(i.ix, old(ci.Config), ws, w);
      r := SrlPopulateSchema(ci, i, device, SelectedInfo(name, m[name]), niInfo);
      if !r.Done? {
        return;
      }
      ws := ws + [w];
      rest := rest - {name};
    }
  }

  ghost predicate ExactlyOwn(i: Input, ni: NiName, ws: seq<Write>)
  {
    forall w :: w in ws <==> OwnWrite(i, w) && w.ni == ni
  }

  /** One round of the first two phases: validate the selectors, then every SRL node in turn. */
  method PopulateOwn(ci: Intent, i: Input, niInfo: NiInfo) returns (r: Outcome, ghost ws: seq<Write>)
    requires ci.Valid()
    requires niInfo.name in NiNames(i.vpc) && niInfo.name in i.ix && niInfo.index == Some(i.ix[niInfo.name])
    modifies ci.Repr
    ensures ci.Valid() && fresh(ci.Repr - old(ci.Repr))
    ensures !r.Panicked?
    ensures r.Done? <==> NiOk(i, niInfo.name)
    ensures r.Done? ==> ci.Config == Run(i.ix, old(ci.Config), ws)
    ensures r.Done? ==> ExactlyOwn(i, niInfo.name, ws)
  {
    hide OwnOk, OwnWrite, Apply, Selection;
    ws := [];
    var selectors := i.lib.validate(SelectorsOf(i.vpc, niInfo.name));
    if selectors.Err? {
      return Failed(selectors.error), ws;
    }
    for k := 0 to |i.nodes|
      invariant ci.Valid() && fresh(ci.Repr - old(ci.Repr))
      invariant forall device :: device in SrlNames(i.nodes[..k]) ==> OwnOk(i, niInfo.name, device)
      invariant ci.Config == Run(i.ix, old(ci.Config), ws)
      invariant forall w :: w in ws <==> OwnWrite(i, w) && w.ni == niInfo.name && w.device in SrlNames(i.nodes[..k])
    {
      var n := i.nodes[k];
      SrlNamesNext(i.nodes, k);
      if n.kind == SRL {
        ghost var added: seq<Write>;
        r, added := SrlPopulateSelected(ci, i, n.name, niInfo, selectors.value);
        if !r.Done? {
          return;
        }
        RunConcat(i.ix, old(ci.Config), ws, added);
        ws := ws + added;
      }
    }
    assert i.nodes[..|i.nodes|] == i.nodes;
    OwnWritesOnSrl(i);
    r := Done;
  }

  lemma SrlNamesNext(nodes: seq<NodeInfo>, k: nat)
    requires k < |nodes|
    ensures SrlNames(nodes[..k + 1]) == SrlNames(nodes[..k]) + if nodes[k].kind == SRL then {nodes[k].name} else {}
    ensures SrlNames(nodes[..k + 1]) <= SrlNames(nodes)
  {
    assert nodes[..k + 1] == nodes[..k] + [nodes[k]];
    assert forall n :: n in nodes[..k + 1] ==> n in nodes;
  }

  lemma OwnWritesOnSrl(i: Input)
    ensures forall w :: OwnWrite(i, w) ==> w.device in SrlNames(i.nodes)
  {
  }

  // ---------- phases one and two ----------

  /** The writes of a phase, one part per network instance in the order of the loop. */
  function Flatten(parts: seq<seq<Write>>): seq<Write> {
    if |parts| == 0 then [] else Flatten(parts[..|parts| - 1]) + parts[|parts| - 1]
  }

  lemma RunPart(ix: Indexes, c: FabricConfig, parts: seq<seq<Write>>, part: seq<Write>)
    ensures Run(ix, c, Flatten(parts + [part])) == Run(ix, Run(ix, c, Flatten(parts)), part)
  {
    assert (parts + [part])[..|parts|] == parts;
    RunConcat(ix, c, Flatten(parts), part);
  }

  ghost predicate OwnParts(i: Input, nis: seq<NiName>, parts: seq<seq<Write>>)
  {
    |parts| == |nis| && forall k :: 0 <= k < |nis| ==> ExactlyOwn(i, nis[k], parts[k])
  }

  lemma {:induction false} FlattenExact(i: Input, nis: seq<NiName>, parts: seq<seq<Write>>, w: Write)
    requires OwnParts(i, nis, parts)
    ensures w in Flatten(parts) <==> OwnWrite(i, w) && w.ni in nis
  {
    if |nis| > 0 {
      var n := |nis| - 1;
      FlattenExact(i, nis[..n], parts[..n], w);
      assert ExactlyOwn(i, nis[n], parts[n]);
      assert nis == nis[..n] + [nis[n]];
    }
  }

  lemma OwnPartsNext(i: Input, nis: seq<NiName>, parts: seq<seq<Write>>, ni: NiName, part: seq<Write>)
    requires OwnParts(i, nis, parts) && ExactlyOwn(i, ni, part)
    ensures OwnParts(i, nis + [ni], parts + [part])
  {
  }

  ghost predicate NisOk(i: Input, nis: seq<NiName>)
    requires forall ni :: ni in nis ==> ni in NiNames(i.vpc)
  {
    forall ni :: ni in nis ==> NiOk(i, ni)
  }

  /** The first two phases are this loop, over the bridge domains and then over the routing tables. */
  method PopulateInOrder(ci: Intent, i: Input, niInfos: map<NiName, NiInfo>, nis: seq<NiName>)
    returns (r: Outcome, ghost parts: seq<seq<Write>>)
    requires ci.Valid() && Allotted(i, niInfos)
    requires forall ni :: ni in nis ==> ni in NiNames(i.vpc)
    modifies ci.Repr
    ensures ci.Valid() && fresh(ci.Repr - old(ci.Repr))
    ensures !r.Panicked?
    ensures r.Done? <==> NisOk(i, nis)
    ensures r.Done? ==> ci.Config == Run(i.ix, old(ci.Config), Flatten(parts)) && OwnParts(i, nis, parts)
  {
    hide NiOk, ExactlyOwn, Apply, OwnWrite;
    parts := [];
    for k := 0 to |nis|
      invariant ci.Valid() && fresh(ci.Repr - old(ci.Repr))
      invariant NisOk(i, nis[..k])
      invariant ci.Config == Run(i.ix, old(ci.Config), Flatten(parts)) && OwnParts(i, nis[..k], parts)
    {
      var ni := nis[k];
      assert nis[..k + 1] == nis[..k] + [ni];
      ghost var added: seq<Write>;
      r, added := PopulateOwn(ci, i, niInfos[ni]);
      if !r.Done? {
        assert ni in nis && !NiOk(i, ni);
        return;
      }
      RunPart(i.ix, old(ci.Config), parts, added);
      OwnPartsNext(i, nis[..k], parts, ni, added);
      parts := parts + [added];
    }
    assert nis[..|nis|] == nis;
    r := Done;
  }

  function BdNis(order: seq<string>): (nis: seq<NiName>)
    ensures |nis| == |order| && forall k :: 0 <= k < |order| ==> nis[k] == BdNi(order[k])
  {
    seq(|order|, k requires 0 <= k < |order| => BdNi(order[k]))
  }

  /** The bridge domains, in the order in which Go happens to range over them. */
  method PopulateBridgeDomains(ci: Intent, i: Input, niInfos: map<NiName, NiInfo>, order: seq<string>)
    returns (r: Outcome, ghost ws: seq<Write>)
    requires ci.Valid() && Allotted(i, niInfos) && Orders(order, BridgeDomainsOf(i).Keys)
    modifies ci.Repr
    ensures ci.Valid() && fresh(ci.Repr - old(ci.Repr))
    ensures !r.Panicked?
    ensures r.Done? <==> forall ni :: ni in BdNames(i.vpc) ==> NiOk(i, ni)
    ensures r.Done? ==> ci.Config == Run(i.ix, old(ci.Config), ws) && BridgePhase(i, ws)
  {
    assert forall ni :: ni in BdNis(order) <==> ni in BdNames(i.vpc);
    ghost var parts;
    r, parts := PopulateInOrder(ci, i, niInfos, BdNis(order));
    ws := Flatten(parts);
    if r.Done? {
      BridgePhaseOfParts(i, BdNis(order), parts);
    }
  }

  lemma BridgePhaseOfParts(i: Input, nis: seq<NiName>, parts: seq<seq<Write>>)
    requires OwnParts(i, nis, parts)
    requires forall ni :: ni in nis <==> ni in BdNames(i.vpc)
    ensures BridgePhase(i, Flatten(parts))
  {
    forall w
      ensures w in Flatten(parts) <==> OwnWrite(i, w) && w.ni.BdNi?
    {
      FlattenExact(i, nis, parts, w);
      assert OwnWrite(i, w) && w.ni.BdNi? ==> w.ni in NiNames(i.vpc);
    }
  }

  function RtNis(order: seq<string>): (nis: seq<NiName>)
    ensures |nis| == |order| && forall k :: 0 <= k < |order| ==> nis[k] == RtNi(order[k])
  {
    seq(|order|, k requires 0 <= k < |order| => RtNi(order[k]))
  }

  /** The routing tables, likewise. */
  method PopulateRoutingTables(ci: Intent, i: Input, niInfos: map<NiName, NiInfo>, order: seq<string>)
    returns (r: Outcome, ghost ws: seq<Write>)
    requires i.Valid() && ci.Valid() && Allotted(i, niInfos) && Orders(order, RoutingTablesOf(i).Keys)
    modifies ci.Repr
    ensures ci.Valid() && fresh(ci.Repr - old(ci.Repr))
    ensures !r.Panicked?
    ensures r.Done? <==> forall ni :: ni in RtNames(i.vpc) ==> NiOk(i, ni)
    ensures r.Done? ==> ci.Config == Run(i.ix, old(ci.Config), ws) && RoutePhase(i, order, ws)
  {
    assert forall ni :: ni in RtNis(order) <==> ni in RtNames(i.vpc);
    ghost var parts;
    r, parts := PopulateInOrder(ci, i, niInfos, RtNis(order));
    ws := Flatten(parts);
    if r.Done? {
      RoutePhaseOfParts(i, order, parts);
    }
  }

  /** The last routing table to claim a subinterface has written it last. */
  lemma {:induction false} RoutePhaseOfParts(i: Input, order: seq<string>, parts: seq<seq<Write>>)
    requires i.Valid() && OwnParts(i, RtNis(order), parts)
    ensures RoutePhase(i, order, Flatten(parts))
  {
    if |order| == 0 {
      forall device, name, vlan
        ensures LastWrite(i.ix, Flatten(parts), device, SubKey(name, vlan)) == None
      {
      }
    } else {
      var n := |order| - 1;
      assert RtNis(order[..n]) == RtNis(order)[..n];
      RoutePhaseOfParts(i, order[..n], parts[..n]);
      assert ExactlyOwn(i, RtNis(order)[n], parts[n]);
      RoutePhaseNext(i, order, n, Flatten(parts[..n]), parts[n]);
      assert order[..n + 1] == order;
    }
  }

  /** One more routing table: what it claims it has now written last. */
  lemma RoutePhaseNext(i: Input, order: seq<string>, k: nat, ws: seq<Write>, added: seq<Write>)
    requires i.Valid() && k < |order| && RoutePhase(i, order[..k], ws) && ExactlyOwn(i, RtNi(order[k]), added)
    ensures RoutePhase(i, order[..k + 1], ws + added)
  {
    assert order[..k + 1] == order[..k] + [order[k]];
    assert order[..k + 1][..k] == order[..k];
    forall device, name, vlan | name != IRB0
      ensures LastWrite(i.ix, ws + added, device, SubKey(name, vlan)) ==
        ClaimantWrite(i, order[..k + 1], device, name, vlan)
    {
      LastWriteConcat(i.ix, ws, added, device, SubKey(name, vlan));
      OwnLastWrite(i, RtNi(order[k]), added, device, name, vlan);
    }
  }

  /** Of the writes of one network instance at most one touches an Ethernet subinterface. */
  lemma OwnLastWrite(i: Input, ni: NiName, ws: seq<Write>, device: string, name: string, vlan: nat)
    requires i.Valid() && name != IRB0
    requires ExactlyOwn(i, ni, ws)
    ensures LastWrite(i.ix, ws, device, SubKey(name, vlan)) ==
      if Claims(i, ni, device, name, vlan) then Some(EthernetWrite(i, ni, device, name, Itfces(i, ni, device)[name]))
      else None
  {
    LastWriteExists(i.ix, ws, device, SubKey(name, vlan));
    if Claims(i, ni, device, name, vlan) {
      ClaimIsWrite(i, ni, device, name, vlan);
      assert EthernetWrite(i, ni, device, name, Itfces(i, ni, device)[name]) in ws;
    }
    match LastWrite(i.ix, ws, device, SubKey(name, vlan)) {
      case None =>
      case Some(w) => OwnWriteFacts(i, w);
    }
  }

  // ---------- phase three ----------

  /** The writes for entry j of a routing table's list on the first k nodes, and for its first j entries. */
  ghost function NodeWrites(i: Input, rt: string, j: int, k: nat): seq<Write>
    requires k <= |i.nodes|
  {
    if k == 0 then []
    else NodeWrites(i, rt, j, k - 1) + StepWrites(i, rt, j, i.nodes[k - 1])
  }

  ghost function StepWrites(i: Input, rt: string, j: int, n: NodeInfo): seq<Write>
  {
    if n.kind == SRL && Joins(i, rt, j, n.name) then JoinWrites(i, rt, j, n.name) else []
  }

  ghost function ListWrites(i: Input, rt: string, j: nat): seq<Write>
  {
    if j == 0 then [] else ListWrites(i, rt, j - 1) + NodeWrites(i, rt, j - 1, |i.nodes|)
  }

  /** An entry of a list succeeds on a device if the selection does and, where it joins, its prefixes do. */
  ghost predicate EntryOkOn(i: Input, rt: string, j: int, device: string)
    requires rt in RoutingTablesOf(i) && 0 <= j < |RoutingTablesOf(i)[rt].bridgeDomains|
    requires Entry(i, rt, j).name in BridgeDomainsOf(i)
  {
    && Selection(i, BdNi(Entry(i, rt, j).name), device).Ok?
    && (Joins(i, rt, j, device) ==> JoinOk(i, Entry(i, rt, j)))
  }

  ghost predicate EntryOk(i: Input, rt: string, j: int)
    requires rt in RoutingTablesOf(i) && 0 <= j < |RoutingTablesOf(i)[rt].bridgeDomains|
  {
    Entry(i, rt, j).name in BridgeDomainsOf(i) ==>
      && i.lib.validate(SelectorsOf(i.vpc, BdNi(Entry(i, rt, j).name))).Ok?
      && forall device :: device in SrlNames(i.nodes) ==> EntryOkOn(i, rt, j, device)
  }

  ghost predicate EntriesOk(i: Input, rt: string, n: nat)
    requires rt in RoutingTablesOf(i) && n <= |RoutingTablesOf(i)[rt].bridgeDomains|
  {
    forall j :: 0 <= j < n ==> EntryOk(i, rt, j)
  }

  ghost predicate ListOk(i: Input, rt: string)
    requires rt in RoutingTablesOf(i)
  {
    EntriesOk(i, rt, |RoutingTablesOf(i)[rt].bridgeDomains|)
  }

  /** An entry makes the run panic if it joins somewhere and has no prefix of one of the families. */
  ghost predicate EntryPanics(i: Input, rt: string, j: int)
    requires rt in RoutingTablesOf(i) && 0 <= j < |RoutingTablesOf(i)[rt].bridgeDomains|
  {
    Lacking(i, Entry(i, rt, j)) && exists device :: Joins(i, rt, j, device)
  }

  /** The first entry of a list that is not in order panics. */
  ghost predicate ListPanics(i: Input, rt: string)
    requires rt in RoutingTablesOf(i)
  {
    exists j :: 0 <= j < |RoutingTablesOf(i)[rt].bridgeDomains| && EntryPanics(i, rt, j) && EntriesOk(i, rt, j)
  }

  /** The first entry of a list that is not in order decides. */
  lemma EntryDecides(i: Input, rt: string, j: nat)
    requires rt in RoutingTablesOf(i) && j < |RoutingTablesOf(i)[rt].bridgeDomains|
    requires EntriesOk(i, rt, j) && !EntryOk(i, rt, j)
    ensures ListPanics(i, rt) <==> EntryPanics(i, rt, j)
  {
    hide EntryOk, EntryPanics;
    if k :| 0 <= k < |RoutingTablesOf(i)[rt].bridgeDomains| && EntryPanics(i, rt, k) && EntriesOk(i, rt, k) {
      PanicIsNotOk(i, rt, k);
      assert !(k < j) && !(j < k);
    }
  }

  lemma NoEntryPanics(i: Input, rt: string)
    requires rt in RoutingTablesOf(i) && ListOk(i, rt)
    ensures !ListPanics(i, rt)
  {
    hide EntryOk, EntryPanics;
    if k :| 0 <= k < |RoutingTablesOf(i)[rt].bridgeDomains| && EntryPanics(i, rt, k) {
      PanicIsNotOk(i, rt, k);
    }
  }

  lemma PanicIsNotOk(i: Input, rt: string, j: int)
    requires rt in RoutingTablesOf(i) && 0 <= j < |RoutingTablesOf(i)[rt].bridgeDomains|
    requires EntryPanics(i, rt, j)
    ensures !EntryOk(i, rt, j)
  {
    var device :| Joins(i, rt, j, device);
    assert device in SrlNames(i.nodes) && !EntryOkOn(i, rt, j, device);
  }

  lemma EntriesOkNext(i: Input, rt: string, n: nat)
    requires rt in RoutingTablesOf(i) && n < |RoutingTablesOf(i)[rt].bridgeDomains|
    ensures EntriesOk(i, rt, n + 1) <==> EntriesOk(i, rt, n) && EntryOk(i, rt, n)
    ensures ListOk(i, rt) ==> EntryOk(i, rt, n)
  {
  }

  /** Once every network instance has been populated, that is all an entry needs. */
  lemma ListsOkIffJoinsOk(i: Input)
    requires forall ni :: ni in NiNames(i.vpc) ==> NiOk(i, ni)
    ensures (forall rt :: rt in RoutingTablesOf(i) ==> ListOk(i, rt)) <==> AllOk(i)
  {
    if forall rt :: rt in RoutingTablesOf(i) ==> ListOk(i, rt) {
      forall rt, j, device | Joins(i, rt, j, device)
        ensures JoinOk(i, Entry(i, rt, j))
      {
        assert ListOk(i, rt) && EntryOk(i, rt, j);
        assert BdNi(Entry(i, rt, j).name) in NiNames(i.vpc);
        assert EntryOkOn(i, rt, j, device);
      }
    }
    if AllOk(i) {
      forall rt, j | rt in RoutingTablesOf(i) && 0 <= j < |RoutingTablesOf(i)[rt].bridgeDomains|
        ensures EntryOk(i, rt, j)
      {
        if Entry(i, rt, j).name in BridgeDomainsOf(i) {
          var ni := BdNi(Entry(i, rt, j).name);
          assert NiOk(i, ni);
          forall device | device in SrlNames(i.nodes)
            ensures EntryOkOn(i, rt, j, device)
          {
            assert OwnOk(i, ni, device);
          }
        }
      }
    }
  }

  /** `srlPopulateRouteIrb` */
  method SrlPopulateRouteIrb(
    ci: Intent, i: Input, rt: string, j: nat, device: string, niInfos: map<NiName, NiInfo>, selectors: Selectors)
    returns (r: Outcome)
    requires ci.Valid() && Allotted(i, niInfos) && device in SrlNames(i.nodes)
    requires rt in RoutingTablesOf(i) && j < |RoutingTablesOf(i)[rt].bridgeDomains|
    requires Entry(i, rt, j).name in BridgeDomainsOf(i)
    requires i.lib.validate(SelectorsOf(i.vpc, BdNi(Entry(i, rt, j).name))) == Ok(selectors)
    modifies ci.Repr
    ensures ci.Valid() && fresh(ci.Repr - old(ci.Repr))
    ensures r.Done? <==> EntryOkOn(i, rt, j, device)
    ensures r.Panicked? <==> Joins(i, rt, j, device) && Lacking(i, Entry(i, rt, j))
    ensures r.Done? ==>
      ci.Config == Run(i.ix, old(ci.Config), if Joins(i, rt, j, device) then JoinWrites(i, rt, j, device) else [])
  {
    var l := Entry(i, rt, j);
    assert BdNi(l.name) in BdNames(i.vpc) && RtNi(rt) in RtNames(i.vpc);
    var selected := i.lib.select(device, selectors);
    if selected.Err? {
      return Failed(selected.error);
    }
    assert Joins(i, rt, j, device) <==> selected.value != map[];
    hide Writable, Panics, JoinOk, Lacking, LegWrites, JoinWrites, Run, AddressesOk;
    if selected.value != map[] {
      LegOutcomes(i, rt, l);
      r := PopulateLeg(ci, i, device, niInfos[BdNi(l.name)], IRB_INFO);
      if !r.Done? {
        return;
      }
      var info := IRB_INFO.(ipv4Prefixes := l.ipv4Prefixes, ipv6Prefixes := l.ipv6Prefixes);
      r := PopulateLeg(ci, i, device, niInfos[RtNi(rt)], info);
      RunConcat(i.ix, old(ci.Config), LegWrites(i, device, BdNi(l.name), IRB_INFO),
        LegWrites(i, device, RtNi(rt), info));
      LegsAreJoin(i, rt, j, device);
      return;
    }
    return Done;
  }

  ghost function LegWrites(i: Input, device: string, ni: NiName, info: ItfceInfo): seq<Write>
  {
    [WriteOf(i, device, info, ni)] + if TunnelOf(i.vpc, ni) == VXLAN then [VxlanWrite(ni, device)] else []
  }

  /** The leg of a bridge domain always succeeds; that of a routing table follows its entry. */
  lemma LegOutcomes(i: Input, rt: string, l: ListedBridgeDomain)
    ensures Writable(i, IRB_INFO, BdNi(l.name)) && !Panics(i, IRB_INFO, BdNi(l.name))
    ensures var info := IRB_INFO.(ipv4Prefixes := l.ipv4Prefixes, ipv6Prefixes := l.ipv6Prefixes);
      && (Writable(i, info, RtNi(rt)) <==> JoinOk(i, l))
      && (Panics(i, info, RtNi(rt)) <==> Lacking(i, l))
      && !(JoinOk(i, l) && Lacking(i, l))
  {
  }

  lemma LegsAreJoin(i: Input, rt: string, j: nat, device: string)
    requires Joins(i, rt, j, device)
    ensures var l := Entry(i, rt, j);
      var info := IRB_INFO.(ipv4Prefixes := l.ipv4Prefixes, ipv6Prefixes := l.ipv6Prefixes);
      LegWrites(i, device, BdNi(l.name), IRB_INFO) + LegWrites(i, device, RtNi(rt), info) ==
        JoinWrites(i, rt, j, device)
  {
  }

  /** Half of `srlPopulateRouteIrb`: the IRB leg of one network instance, and its tunnel. */
  method PopulateLeg(ci: Intent, i: Input, device: string, niInfo: NiInfo, info: ItfceInfo) returns (r: Outcome)
    requires ci.Valid() && info.kind.Irb?
    requires niInfo.name in i.ix && niInfo.index == Some(i.ix[niInfo.name])
    modifies ci.Repr
    ensures ci.Valid() && fresh(ci.Repr - old(ci.Repr))
    ensures r.Done? <==> Writable(i, info, niInfo.name)
    ensures r.Panicked? <==> Panics(i, info, niInfo.name)
    ensures r.Done? ==> ci.Config == Run(i.ix, old(ci.Config), LegWrites(i, device, niInfo.name, info))
  {
    hide Apply, Left, Panics, Writable, WriteOf, VxlanWrite;
    ghost var w := WriteOf(i, device, info, niInfo.name);
    RunAppend(i.ix, old(ci.Config), [], w);
    assert [] + [w] == [w];
    NotBoth(i, info, niInfo.name);
    r := SrlPopulateSchema(ci, i, device, info, niInfo);
    if r.Done? && TunnelOf(i.vpc, niInfo.name) == VXLAN {
      RunAppend(i.ix, old(ci.Config), [w], VxlanWrite(niInfo.name, device));
      r := PopulateTunnel(ci, i, device, niInfo);
    }
  }

  lemma NotBoth(i: Input, info: ItfceInfo, ni: NiName)
    ensures !(Writable(i, info, ni) && Panics(i, info, ni))
  {
  }

  /** One entry of a list, on every SRL node. An undeclared bridge domain is passed over. */
  method PopulateEntry(ci: Intent, i: Input, rt: string, j: nat, niInfos: map<NiName, NiInfo>) returns (r: Outcome)
    requires ci.Valid() && Allotted(i, niInfos)
    requires rt in RoutingTablesOf(i) && j < |RoutingTablesOf(i)[rt].bridgeDomains|
    modifies ci.Repr
    ensures ci.Valid() && fresh(ci.Repr - old(ci.Repr))
    ensures r.Done? <==> EntryOk(i, rt, j)
    ensures AllNisOk(i) ==> (r.Panicked? <==> EntryPanics(i, rt, j))
    ensures r.Done? ==> ci.Config == Run(i.ix, old(ci.Config), NodeWrites(i, rt, j, |i.nodes|))
  {
    var l := Entry(i, rt, j);
    if l.name !in i.vpc.bridgeDomains {
      NoNodeWrites(i, rt, j, |i.nodes|);
      return Done;
    }
    assert BdNi(l.name) in BdNames(i.vpc);
    var selectors := i.lib.validate(SelectorsOf(i.vpc, BdNi(l.name)));
    if selectors.Err? {
      return Failed(selectors.error);
    }
    r := PopulateDeclaredEntry(ci, i, rt, j, niInfos, selectors.value);
  }

  method PopulateDeclaredEntry(
    ci: Intent, i: Input, rt: string, j: nat, niInfos: map<NiName, NiInfo>, selectors: Selectors) returns (r: Outcome)
    requires ci.Valid() && Allotted(i, niInfos)
    requires rt in RoutingTablesOf(i) && j < |RoutingTablesOf(i)[rt].bridgeDomains|
    requires Entry(i, rt, j).name in BridgeDomainsOf(i)
    requires i.lib.validate(SelectorsOf(i.vpc, BdNi(Entry(i, rt, j).name))) == Ok(selectors)
    modifies ci.Repr
    ensures ci.Valid() && fresh(ci.Repr - old(ci.Repr))
    ensures r.Done? <==> forall device :: device in SrlNames(i.nodes) ==> EntryOkOn(i, rt, j, device)
    ensures (forall device :: device in SrlNames(i.nodes) ==> Selection(i, BdNi(Entry(i, rt, j).name), device).Ok?) ==>
      (r.Panicked? <==> EntryPanics(i, rt, j))
    ensures r.Done? ==> ci.Config == Run(i.ix, old(ci.Config), NodeWrites(i, rt, j, |i.nodes|))
  {
    hide EntryOkOn, JoinWrites, Run, NodeWrites, Joins, JoinOk, Lacking, EntryPanics, Selection, Allotted, SrlNames;
    NoNode(i, old(ci.Config), rt, j);
    for k := 0 to |i.nodes|
      invariant ci.Valid() && fresh(ci.Repr - old(ci.Repr))
      invariant forall device :: device in SrlNames(i.nodes[..k]) ==> EntryOkOn(i, rt, j, device)
      invariant ci.Config == Run(i.ix, old(ci.Config), NodeWrites(i, rt, j, k))
    {
      var n := i.nodes[k];
      SrlNamesNext(i.nodes, k);
      RunNodeNext(i, old(ci.Config), rt, j, k);
      if n.kind == SRL {
        r := SrlPopulateRouteIrb(ci, i, rt, j, n.name, niInfos, selectors);
        if !r.Done? {
          NodeDecides(i, rt, j, n.name);
          return;
        }
      }
    }
    assert i.nodes[..|i.nodes|] == i.nodes;
    NoNodePanics(i, rt, j);
    r := Done;
  }

  lemma NoNode(i: Input, c: FabricConfig, rt: string, j: int)
    ensures Run(i.ix, c, NodeWrites(i, rt, j, 0)) == c && SrlNames(i.nodes[..0]) == {}
  {
  }

  lemma RunNodeNext(i: Input, c: FabricConfig, rt: string, j: int, k: nat)
    requires k < |i.nodes|
    ensures var n, d := i.nodes[k], Run(i.ix, c, NodeWrites(i, rt, j, k));
      Run(i.ix, c, NodeWrites(i, rt, j, k + 1)) ==
        if n.kind != SRL then d
        else Run(i.ix, d, if Joins(i, rt, j, n.name) then JoinWrites(i, rt, j, n.name) else [])
  {
    hide Joins, JoinWrites;
    RunConcat(i.ix, c, NodeWrites(i, rt, j, k), StepWrites(i, rt, j, i.nodes[k]));
  }

  /** With all selections in order, the first node on which an entry fails shows how it does. */
  lemma NodeDecides(i: Input, rt: string, j: nat, device: string)
    requires rt in RoutingTablesOf(i) && j < |RoutingTablesOf(i)[rt].bridgeDomains|
    requires Entry(i, rt, j).name in BridgeDomainsOf(i) && device in SrlNames(i.nodes) && !EntryOkOn(i, rt, j, device)
    ensures Selection(i, BdNi(Entry(i, rt, j).name), device).Ok? ==>
      (Joins(i, rt, j, device) && Lacking(i, Entry(i, rt, j)) <==> EntryPanics(i, rt, j))
  {
  }

  lemma NoNodePanics(i: Input, rt: string, j: nat)
    requires rt in RoutingTablesOf(i) && j < |RoutingTablesOf(i)[rt].bridgeDomains|
    requires Entry(i, rt, j).name in BridgeDomainsOf(i)
    requires forall device :: device in SrlNames(i.nodes) ==> EntryOkOn(i, rt, j, device)
    ensures !EntryPanics(i, rt, j)
  {
    forall device | Joins(i, rt, j, device)
      ensures EntryOkOn(i, rt, j, device)
    {
    }
  }

  lemma {:induction false} NoNodeWrites(i: Input, rt: string, j: int, k: nat)
    requires k <= |i.nodes|
    requires forall device :: !Joins(i, rt, j, device)
    ensures NodeWrites(i, rt, j, k) == []
  {
    if k > 0 {
      NoNodeWrites(i, rt, j, k - 1);
    }
  }

  /** The third phase: the routing tables in some order, each list from the front. */
  method PopulateJoins(ci: Intent, i: Input, niInfos: map<NiName, NiInfo>, order: seq<string>)
    returns (r: Outcome, ghost ws: seq<Write>)
    requires i.Valid() && ci.Valid() && Allotted(i, niInfos) && Orders(order, RoutingTablesOf(i).Keys)
    modifies ci.Repr
    ensures ci.Valid() && fresh(ci.Repr - old(ci.Repr))
    ensures r.Done? <==> forall rt :: rt in RoutingTablesOf(i) ==> ListOk(i, rt)
    ensures AllNisOk(i) ==> (r.Panicked? <==> RunPanics(i, order))
    ensures r.Done? ==> ci.Config == Run(i.ix, old(ci.Config), ws) && JoinPhase(i, ws)
  {
    assert forall rt :: rt in order <==> rt in RoutingTablesOf(i).Keys;
    r := PopulateLists(ci, i, niInfos, order);
    ws := AllListWrites(i, order);
    if r.Done? {
      JoinPhaseOfLists(i, order);
    }
  }

  /** The writes of the lists of some routing tables, one after the other. */
  ghost function AllListWrites(i: Input, rts: seq<string>): seq<Write>
    requires forall rt :: rt in rts ==> rt in RoutingTablesOf(i)
  {
    if |rts| == 0 then []
    else
      var n := |rts| - 1;
      AllListWrites(i, rts[..n]) + ListWrites(i, rts[n], |RoutingTablesOf(i)[rts[n]].bridgeDomains|)
  }

  ghost predicate ListsOk(i: Input, rts: seq<string>)
    requires forall rt :: rt in rts ==> rt in RoutingTablesOf(i)
  {
    forall rt :: rt in rts ==> ListOk(i, rt)
  }

  /** The first list that is not in order panics. */
  ghost predicate ListsPanic(i: Input, rts: seq<string>)
    requires forall rt :: rt in rts ==> rt in RoutingTablesOf(i)
  {
    exists k :: 0 <= k < |rts| && ListPanics(i, rts[k]) && ListsOk(i, rts[..k])
  }

  /** A run panics if its first two phases are in order and the first list that is not panics. */
  ghost predicate RunPanics(i: Input, order: seq<string>)
    requires Orders(order, RoutingTablesOf(i).Keys)
  {
    assert forall rt :: rt in order ==> rt in RoutingTablesOf(i).Keys;
    AllNisOk(i) && ListsPanic(i, order)
  }

  lemma ListDecides(i: Input, rts: seq<string>, k: nat)
    requires k < |rts| && forall rt :: rt in rts ==> rt in RoutingTablesOf(i)
    requires ListsOk(i, rts[..k]) && !ListOk(i, rts[k])
    ensures ListsPanic(i, rts) <==> ListPanics(i, rts[k])
  {
    hide ListOk, ListPanics;
    if l :| 0 <= l < |rts| && ListPanics(i, rts[l]) && ListsOk(i, rts[..l]) {
      assert l < k ==> rts[l] in rts[..k];
      if ListOk(i, rts[l]) {
        NoEntryPanics(i, rts[l]);
      }
    }
  }

  lemma NoListPanics(i: Input, rts: seq<string>)
    requires forall rt :: rt in rts ==> rt in RoutingTablesOf(i)
    requires ListsOk(i, rts)
    ensures !ListsPanic(i, rts)
  {
    hide ListOk, ListPanics;
    if k :| 0 <= k < |rts| && ListPanics(i, rts[k]) {
      NoEntryPanics(i, rts[k]);
    }
  }

  lemma AllListWritesNext(i: Input, rts: seq<string>, rt: string)
    requires forall t :: t in rts + [rt] ==> t in RoutingTablesOf(i)
    ensures AllListWrites(i, rts + [rt]) ==
      AllListWrites(i, rts) + ListWrites(i, rt, |RoutingTablesOf(i)[rt].bridgeDomains|)
  {
    assert (rts + [rt])[..|rts|] == rts;
  }

  method PopulateLists(ci: Intent, i: Input, niInfos: map<NiName, NiInfo>, order: seq<string>) returns (r: Outcome)
    requires ci.Valid() && Allotted(i, niInfos)
    requires forall rt :: rt in order ==> rt in RoutingTablesOf(i)
    modifies ci.Repr
    ensures ci.Valid() && fresh(ci.Repr - old(ci.Repr))
    ensures r.Done? <==> ListsOk(i, order)
    ensures AllNisOk(i) ==> (r.Panicked? <==> ListsPanic(i, order))
    ensures r.Done? ==> ci.Config == Run(i.ix, old(ci.Config), AllListWrites(i, order))
  {
    hide ListOk, ListWrites, Apply, ListPanics, ListsPanic, AllNisOk;
    for k := 0 to |order|
      invariant ci.Valid() && fresh(ci.Repr - old(ci.Repr))
      invariant ListsOk(i, order[..k])
      invariant ci.Config == Run(i.ix, old(ci.Config), AllListWrites(i, order[..k]))
    {
      var rt := order[k];
      assert rt in order;
      assert order[..k + 1] == order[..k] + [rt];
      r := PopulateList(ci, i, rt, RoutingTablesOf(i)[rt].bridgeDomains, niInfos);
      if !r.Done? {
        assert rt in order && !ListOk(i, rt);
        ListDecides(i, order, k);
        return;
      }
      RunConcat(i.ix, old(ci.Config), AllListWrites(i, order[..k]),
        ListWrites(i, rt, |RoutingTablesOf(i)[rt].bridgeDomains|));
      AllListWritesNext(i, order[..k], rt);
    }
    assert order[..|order|] == order;
    NoListPanics(i, order);
    r := Done;
  }

  lemma RunListNext(i: Input, c: FabricConfig, rt: string, j: nat)
    ensures Run(i.ix, Run(i.ix, c, ListWrites(i, rt, j)), NodeWrites(i, rt, j, |i.nodes|)) ==
      Run(i.ix, c, ListWrites(i, rt, j + 1))
  {
    RunConcat(i.ix, c, ListWrites(i, rt, j), NodeWrites(i, rt, j, |i.nodes|));
  }

  method PopulateList(ci: Intent, i: Input, rt: string, list: seq<ListedBridgeDomain>, niInfos: map<NiName, NiInfo>)
    returns (r: Outcome)
    requires ci.Valid() && Allotted(i, niInfos)
    requires rt in RoutingTablesOf(i) && list == RoutingTablesOf(i)[rt].bridgeDomains
    modifies ci.Repr
    ensures ci.Valid() && fresh(ci.Repr - old(ci.Repr))
    ensures r.Done? <==> ListOk(i, rt)
    ensures AllNisOk(i) ==> (r.Panicked? <==> ListPanics(i, rt))
    ensures r.Done? ==> ci.Config == Run(i.ix, old(ci.Config), ListWrites(i, rt, |list|))
  {
    hide EntryOk, NodeWrites, Apply, EntryPanics, ListPanics, AllNisOk;
    ghost var before := ci.Config;
    for j := 0 to |list|
      invariant ci.Valid() && fresh(ci.Repr - old(ci.Repr))
      invariant EntriesOk(i, rt, j)
      invariant ci.Config == Run(i.ix, before, ListWrites(i, rt, j))
    {
      EntriesOkNext(i, rt, j);
      RunListNext(i, before, rt, j);
      r := PopulateEntry(ci, i, rt, j, niInfos);
      if !r.Done? {
        EntryDecides(i, rt, j);
        return;
      }
    }
    NoEntryPanics(i, rt);
    r := Done;
  }

  // ---------- what the joins amount to ----------

  lemma StepWritesExact(i: Input, rt: string, j: int, n: NodeInfo, w: Write)
    ensures w in StepWrites(i, rt, j, n) <==> n == NodeInfo(w.device, SRL) && WrittenByJoin(i, rt, j, w)
  {
    if n.kind == SRL && Joins(i, rt, j, n.name) {
      JoinWriteCases(i, rt, j, n.name, w);
    }
  }

  lemma {:induction false} NodeWritesExact(i: Input, rt: string, j: int, k: nat, w: Write)
    requires k <= |i.nodes|
    ensures w in NodeWrites(i, rt, j, k) <==> w.device in SrlNames(i.nodes[..k]) && WrittenByJoin(i, rt, j, w)
  {
    hide JoinWrites, StepWrites, WrittenByJoin;
    if k > 0 {
      NodeWritesExact(i, rt, j, k - 1, w);
      SrlNamesNext(i.nodes, k - 1);
      StepWritesExact(i, rt, j, i.nodes[k - 1], w);
      InConcat(NodeWrites(i, rt, j, k - 1), StepWrites(i, rt, j, i.nodes[k - 1]), w);
    }
  }

  lemma InConcat(a: seq<Write>, b: seq<Write>, w: Write)
    ensures w in a + b <==> w in a || w in b
  {
  }

  lemma {:induction false} ListWritesExact(i: Input, rt: string, n: nat, w: Write)
    ensures w in ListWrites(i, rt, n) <==> exists j :: 0 <= j < n && WrittenByJoin(i, rt, j, w)
  {
    hide NodeWrites, WrittenByJoin;
    if n > 0 {
      ListWritesExact(i, rt, n - 1, w);
      AllNodesWrite(i, rt, n - 1, w);
      if w in ListWrites(i, rt, n - 1) {
        var j :| 0 <= j < n - 1 && WrittenByJoin(i, rt, j, w);
      } else if w in NodeWrites(i, rt, n - 1, |i.nodes|) {
        assert WrittenByJoin(i, rt, n - 1, w);
      }
    }
  }

  lemma AllNodesWrite(i: Input, rt: string, j: int, w: Write)
    ensures w in NodeWrites(i, rt, j, |i.nodes|) <==> WrittenByJoin(i, rt, j, w)
  {
    NodeWritesExact(i, rt, j, |i.nodes|, w);
    assert i.nodes[..|i.nodes|] == i.nodes;
  }

  /** The last write of a join to its routing table's leg is the routed one. */
  lemma JoinLastWrite(i: Input, rt: string, j: int, device: string, other: string)
    requires i.Valid() && Joins(i, rt, j, device) && other in RoutingTablesOf(i)
    ensures LastWrite(i.ix, JoinWrites(i, rt, j, device), device, SubKey(IRB0, Index(i.ix, RtNi(other)))) ==
      if rt == other then Some(RoutedIrbWrite(i, rt, device, Entry(i, rt, j))) else None
  {
    var k := SubKey(IRB0, Index(i.ix, RtNi(other)));
    var ws := JoinWrites(i, rt, j, device);
    LastWriteExists(i.ix, ws, device, k);
    JoinFacts(i, rt, j, device);
    assert RtNi(other) in NiNames(i.vpc);
    forall w | w in ws && Writes(i.ix, w, device, k)
      ensures w == RoutedIrbWrite(i, rt, device, Entry(i, rt, j)) && rt == other
    {
      JoinWriteCases(i, rt, j, device, w);
      SameIndexSameNi(i, w.ni, RtNi(other));
    }
    JoinWriteCases(i, rt, j, device, RoutedIrbWrite(i, rt, device, Entry(i, rt, j)));
  }

  lemma {:induction false} NodeLastWrite(i: Input, rt: string, j: int, k: nat, device: string, other: string)
    requires i.Valid() && k <= |i.nodes| && other in RoutingTablesOf(i)
    ensures LastWrite(i.ix, NodeWrites(i, rt, j, k), device, SubKey(IRB0, Index(i.ix, RtNi(other)))) ==
      if device in SrlNames(i.nodes[..k]) && Joins(i, rt, j, device) && rt == other then
        Some(RoutedIrbWrite(i, rt, device, Entry(i, rt, j)))
      else None
  {
    if k > 0 {
      hide Input.Valid, StepWrites, NodeWrites, Joins, LastWrite, Index, RoutedIrbWrite, Entry;
      NodeLastWrite(i, rt, j, k - 1, device, other);
      NodeLastWriteNext(i, rt, j, k, device, other);
    }
  }

  lemma NodeLastWriteNext(i: Input, rt: string, j: int, k: nat, device: string, other: string)
    requires i.Valid() && 0 < k <= |i.nodes| && other in RoutingTablesOf(i)
    requires LastWrite(i.ix, NodeWrites(i, rt, j, k - 1), device, SubKey(IRB0, Index(i.ix, RtNi(other)))) ==
      if device in SrlNames(i.nodes[..k - 1]) && Joins(i, rt, j, device) && rt == other then
        Some(RoutedIrbWrite(i, rt, device, Entry(i, rt, j)))
      else None
    ensures LastWrite(i.ix, NodeWrites(i, rt, j, k), device, SubKey(IRB0, Index(i.ix, RtNi(other)))) ==
      if device in SrlNames(i.nodes[..k]) && Joins(i, rt, j, device) && rt == other then
        Some(RoutedIrbWrite(i, rt, device, Entry(i, rt, j)))
      else None
  {
    hide Input.Valid, StepWrites, Joins, LastWrite, Index, RoutedIrbWrite, Entry;
    var n := i.nodes[k - 1];
    assert NodeWrites(i, rt, j, k) == NodeWrites(i, rt, j, k - 1) + StepWrites(i, rt, j, n);
    hide NodeWrites;
    SrlNamesNext(i.nodes, k - 1);
    StepLastWrite(i, rt, j, n, device, other);
    LastWriteConcat(i.ix, NodeWrites(i, rt, j, k - 1), StepWrites(i, rt, j, n), device,
      SubKey(IRB0, Index(i.ix, RtNi(other))));
  }

  lemma StepLastWrite(i: Input, rt: string, j: int, n: NodeInfo, device: string, other: string)
    requires i.Valid() && other in RoutingTablesOf(i)
    ensures LastWrite(i.ix, StepWrites(i, rt, j, n), device, SubKey(IRB0, Index(i.ix, RtNi(other)))) ==
      if n == NodeInfo(device, SRL) && Joins(i, rt, j, device) && rt == other then
        Some(RoutedIrbWrite(i, rt, device, Entry(i, rt, j)))
      else None
  {
    if n.kind == SRL && Joins(i, rt, j, n.name) {
      if n.name == device {
        JoinLastWrite(i, rt, j, device, other);
      } else {
        OtherDevice(i, JoinWrites(i, rt, j, n.name), n.name, device, SubKey(IRB0, Index(i.ix, RtNi(other))));
      }
    }
  }

  lemma OtherDevice(i: Input, ws: seq<Write>, device: string, other: string, k: SubKey)
    requires other != device && forall w :: w in ws ==> w.device == device
    ensures LastWrite(i.ix, ws, other, k) == None
  {
    LastWriteExists(i.ix, ws, other, k);
  }

  lemma AllNodesLastWrite(i: Input, rt: string, j: int, device: string, other: string)
    requires i.Valid() && other in RoutingTablesOf(i)
    ensures LastWrite(i.ix, NodeWrites(i, rt, j, |i.nodes|), device, SubKey(IRB0, Index(i.ix, RtNi(other)))) ==
      if Joins(i, rt, j, device) && rt == other then Some(RoutedIrbWrite(i, rt, device, Entry(i, rt, j))) else None
  {
    NodeLastWrite(i, rt, j, |i.nodes|, device, other);
    assert i.nodes[..|i.nodes|] == i.nodes;
  }

  lemma LastJoinStep(i: Input, rt: string, n: nat, device: string)
    requires n > 0
    ensures LastJoinWrite(i, rt, n, device) ==
      if Joins(i, rt, n - 1, device) then Some(RoutedIrbWrite(i, rt, device, Entry(i, rt, n - 1)))
      else LastJoinWrite(i, rt, n - 1, device)
  {
    hide Itfces, RoutedIrbWrite;
  }

  lemma {:induction false} ListLastWrite(i: Input, rt: string, n: nat, device: string, other: string)
    requires i.Valid() && other in RoutingTablesOf(i)
    ensures LastWrite(i.ix, ListWrites(i, rt, n), device, SubKey(IRB0, Index(i.ix, RtNi(other)))) ==
      if rt == other then LastJoinWrite(i, rt, n, device) else None
  {
    if n > 0 {
      hide Input.Valid, ListWrites, NodeWrites, LastJoinWrite, LastWrite, Index;
      ListLastWrite(i, rt, n - 1, device, other);
      ListLastWriteNext(i, rt, n, device, other);
    }
  }

  lemma ListLastWriteNext(i: Input, rt: string, n: nat, device: string, other: string)
    requires i.Valid() && n > 0 && other in RoutingTablesOf(i)
    requires LastWrite(i.ix, ListWrites(i, rt, n - 1), device, SubKey(IRB0, Index(i.ix, RtNi(other)))) ==
      if rt == other then LastJoinWrite(i, rt, n - 1, device) else None
    ensures LastWrite(i.ix, ListWrites(i, rt, n), device, SubKey(IRB0, Index(i.ix, RtNi(other)))) ==
      if rt == other then LastJoinWrite(i, rt, n, device) else None
  {
    hide Input.Valid, NodeWrites, LastJoin, LastJoinWrite, LastWrite, Index, RoutedIrbWrite, Entry;
    assert ListWrites(i, rt, n) == ListWrites(i, rt, n - 1) + NodeWrites(i, rt, n - 1, |i.nodes|);
    hide ListWrites;
    AllNodesLastWrite(i, rt, n - 1, device, other);
    LastJoinStep(i, rt, n, device);
    LastWriteConcat(i.ix, ListWrites(i, rt, n - 1), NodeWrites(i, rt, n - 1, |i.nodes|), device,
      SubKey(IRB0, Index(i.ix, RtNi(other))));
  }

  lemma {:induction false} AllListWritesExact(i: Input, rts: seq<string>, w: Write)
    requires forall rt :: rt in rts ==> rt in RoutingTablesOf(i)
    ensures w in AllListWrites(i, rts) <==> exists rt, j :: rt in rts && WrittenByJoin(i, rt, j, w)
  {
    if |rts| > 0 {
      var n := |rts| - 1;
      assert rts == rts[..n] + [rts[n]];
      AllListWritesExact(i, rts[..n], w);
      ListWritesExact(i, rts[n], |RoutingTablesOf(i)[rts[n]].bridgeDomains|, w);
    }
  }

  lemma {:induction false} AllListsLastWrite(i: Input, rts: seq<string>, device: string, other: string)
    requires i.Valid() && other in RoutingTablesOf(i) && forall rt :: rt in rts ==> rt in RoutingTablesOf(i)
    requires forall j, k :: 0 <= j < k < |rts| ==> rts[j] != rts[k]
    ensures LastWrite(i.ix, AllListWrites(i, rts), device, SubKey(IRB0, Index(i.ix, RtNi(other)))) ==
      if other in rts then LastJoinWrite(i, other, |RoutingTablesOf(i)[other].bridgeDomains|, device) else None
  {
    if |rts| > 0 {
      var n := |rts| - 1;
      var list := |RoutingTablesOf(i)[rts[n]].bridgeDomains|;
      assert rts == rts[..n] + [rts[n]];
      AllListsLastWrite(i, rts[..n], device, other);
      ListLastWrite(i, rts[n], list, device, other);
      LastWriteConcat(i.ix, AllListWrites(i, rts[..n]), ListWrites(i, rts[n], list), device,
        SubKey(IRB0, Index(i.ix, RtNi(other))));
    }
  }

  lemma JoinPhaseOfLists(i: Input, rts: seq<string>)
    requires i.Valid() && Orders(rts, RoutingTablesOf(i).Keys) && forall rt :: rt in rts ==> rt in RoutingTablesOf(i)
    ensures JoinPhase(i, AllListWrites(i, rts))
  {
    forall w
      ensures w in AllListWrites(i, rts) <==> JoinWrite(i, w)
    {
      AllListWritesExact(i, rts, w);
      if JoinWrite(i, w) {
        var rt, j :| WrittenByJoin(i, rt, j, w);
        assert rt in RoutingTablesOf(i).Keys;
      }
    }
    forall rt, device | rt in RoutingTablesOf(i)
      ensures LastWrite(i.ix, AllListWrites(i, rts), device, SubKey(IRB0, Index(i.ix, RtNi(rt))))
           == LastJoinWrite(i, rt, |RoutingTablesOf(i)[rt].bridgeDomains|, device)
    {
      assert rt in RoutingTablesOf(i).Keys;
      AllListsLastWrite(i, rts, device, rt);
    }
  }
}
