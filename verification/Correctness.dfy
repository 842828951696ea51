/** The writes of a successful run, whatever the order of its loops, amount to the declarative
    configuration. */
module Correctness {
  import opened Wrappers
  import opened Decimal
  import opened VpcSpec
  import opened Registers
  import opened DeviceTree
  import opened Compilation

  // ---------- what the three phases of a run write ----------

  ghost predicate BridgePhase(i: Input, ws: seq<Write>)
  {
    forall w :: w in ws <==> OwnWrite(i, w) && w.ni.BdNi?
  }

  /** The routing tables were ranged over in the given order: the last of them to claim a subinterface
      is the last to write it. */
  ghost predicate RoutePhase(i: Input, order: seq<string>, ws: seq<Write>)
  {
    && (forall w :: w in ws <==> OwnWrite(i, w) && w.ni.RtNi? && w.ni.name in order)
    && forall device, name, vlan :: name != IRB0 ==>
         LastWrite(i.ix, ws, device, SubKey(name, vlan)) == ClaimantWrite(i, order, device, name, vlan)
  }

  ghost function ClaimantWrite(i: Input, order: seq<string>, device: string, name: string, vlan: nat): Option<Write>
  {
    match LastClaimant(i, order, device, name, vlan)
    case None => None
    case Some(rt) =>
      var m := Itfces(i, RtNi(rt), device);
      if name in m then Some(EthernetWrite(i, RtNi(rt), device, name, m[name])) else None
  }

  /** The lists were walked from the front: the last entry to join on a device is the last to write the
      IRB leg of its routing table. */
  ghost predicate JoinPhase(i: Input, ws: seq<Write>)
  {
    && (forall w :: w in ws <==> JoinWrite(i, w))
    && forall rt, device :: rt in RoutingTablesOf(i) ==>
         LastWrite(i.ix, ws, device, SubKey(IRB0, Index(i.ix, RtNi(rt))))
         == LastJoinWrite(i, rt, |RoutingTablesOf(i)[rt].bridgeDomains|, device)
  }

  ghost function LastJoinWrite(i: Input, rt: string, n: nat, device: string): Option<Write>
  {
    match LastJoin(i, rt, n, device)
    case None => None
    case Some(j) => Some(RoutedIrbWrite(i, rt, device, Entry(i, rt, j)))
  }

  /** A complete run: its three phases one after the other. */
  datatype Phases = Phases(bridge: seq<Write>, route: seq<Write>, join: seq<Write>) {
    function All(): seq<Write> {
      bridge + route + join
    }

    ghost predicate Of(i: Input, order: seq<string>)
    {
      BridgePhase(i, bridge) && RoutePhase(i, order, route) && JoinPhase(i, join)
    }
  }

  /** Everything a run writes, as a set. */
  ghost predicate RunWrite(i: Input, w: Write)
  {
    OwnWrite(i, w) || JoinWrite(i, w)
  }

  lemma RunWrites(i: Input, order: seq<string>, p: Phases, w: Write)
    requires i.Valid() && p.Of(i, order) && Orders(order, RoutingTablesOf(i).Keys)
    ensures w in p.All() <==> RunWrite(i, w)
  {
    if OwnWrite(i, w) && w.ni.RtNi? {
      assert w.ni in NiNames(i.vpc);
    }
  }

  // ---------- facts about single writes ----------

  lemma OwnWriteFacts(i: Input, w: Write)
    requires i.Valid() && OwnWrite(i, w)
    ensures w.ni in NiNames(i.vpc) && w.device in SrlNames(i.nodes) && Itfces(i, w.ni, w.device) != map[]
    ensures w.kind.Ethernet? ==> w.itfce != IRB0 && Claims(i, w.ni, w.device, w.itfce, w.vlan)
    ensures !w.kind.Irb?
    ensures w.kind.Vxlan? ==> w == VxlanWrite(w.ni, w.device) && TunnelOf(i.vpc, w.ni) == VXLAN
  {
    var m := Itfces(i, w.ni, w.device);
    if w.kind.Ethernet? {
      assert w.itfce in m;
    }
  }

  lemma JoinFacts(i: Input, rt: string, j: int, device: string)
    requires Joins(i, rt, j, device)
    ensures device in SrlNames(i.nodes)
    ensures RtNi(rt) in NiNames(i.vpc) && BdNi(Entry(i, rt, j).name) in NiNames(i.vpc)
    ensures HasIrb(i, RtNi(rt), device) && HasIrb(i, BdNi(Entry(i, rt, j).name), device)
  {
  }

  lemma JoinWriteFacts(i: Input, w: Write)
    requires i.Valid() && JoinWrite(i, w)
    ensures w.ni in NiNames(i.vpc) && w.device in SrlNames(i.nodes) && HasIrb(i, w.ni, w.device)
    ensures !w.kind.Ethernet?
    ensures w.kind.Irb? ==>
      Key(i.ix, w) == SubKey(IRB0, i.ix[w.ni]) && (w.ni.BdNi? ==> w == BridgedIrbWrite(w.ni.name, w.device))
    ensures w.kind.Vxlan? ==> w == VxlanWrite(w.ni, w.device) && TunnelOf(i.vpc, w.ni) == VXLAN
  {
    var rt, j :| WrittenByJoin(i, rt, j, w);
    JoinFacts(i, rt, j, w.device);
    JoinWriteCases(i, rt, j, w.device, w);
  }

  lemma JoinWriteCases(i: Input, rt: string, j: int, device: string, w: Write)
    requires Joins(i, rt, j, device)
    ensures var l := Entry(i, rt, j);
      w in JoinWrites(i, rt, j, device) <==>
        || w == BridgedIrbWrite(l.name, device)
        || w == RoutedIrbWrite(i, rt, device, l)
        || (TunnelOf(i.vpc, BdNi(l.name)) == VXLAN && w == VxlanWrite(BdNi(l.name), device))
        || (TunnelOf(i.vpc, RtNi(rt)) == VXLAN && w == VxlanWrite(RtNi(rt), device))
  {
  }

  lemma HasIrbFacts(i: Input, ni: NiName, device: string) returns (w: Write)
    requires i.Valid() && HasIrb(i, ni, device)
    ensures ni in NiNames(i.vpc) && device in SrlNames(i.nodes)
    ensures w.device == device && w.kind.Irb? && w.ni == ni && JoinWrite(i, w)
    ensures ni.BdNi? ==> Itfces(i, ni, device) != map[]
  {
    var rt, j :| Joins(i, rt, j, device) && (ni == RtNi(rt) || ni == BdNi(Entry(i, rt, j).name));
    JoinFacts(i, rt, j, device);
    var l := Entry(i, rt, j);
    if ni == RtNi(rt) {
      w := RoutedIrbWrite(i, rt, device, l);
    } else {
      w := BridgedIrbWrite(l.name, device);
    }
    JoinWriteCases(i, rt, j, device, w);
    assert WrittenByJoin(i, rt, j, w);
  }

  lemma OnDeviceVxlan(i: Input, ni: NiName, device: string)
    requires i.Valid() && ni in NiNames(i.vpc) && OnDevice(i, ni, device) && TunnelOf(i.vpc, ni) == VXLAN
    ensures RunWrite(i, VxlanWrite(ni, device))
  {
    if Itfces(i, ni, device) == map[] {
      var rt, j :| Joins(i, rt, j, device) && (ni == RtNi(rt) || ni == BdNi(Entry(i, rt, j).name));
      JoinWriteCases(i, rt, j, device, VxlanWrite(ni, device));
      assert WrittenByJoin(i, rt, j, VxlanWrite(ni, device));
    }
  }

  // ---------- network instances ----------

  lemma RunNis(i: Input, order: seq<string>, p: Phases, device: string)
    requires i.Valid() && p.Of(i, order) && Orders(order, RoutingTablesOf(i).Keys)
    ensures NisOf(p.All(), device) == NisOn(i, device)
    ensures NisOn(i, device) != {} ==> device in SrlNames(i.nodes)
  {
    forall ni | ni in NisOf(p.All(), device)
      ensures ni in NisOn(i, device)
    {
      var w :| w in p.All() && w.device == device && w.ni == ni;
      RunWrites(i, order, p, w);
      if OwnWrite(i, w) { OwnWriteFacts(i, w); } else { JoinWriteFacts(i, w); }
    }
    forall ni | ni in NisOn(i, device)
      ensures ni in NisOf(p.All(), device) && device in SrlNames(i.nodes)
    {
      var w := OnDeviceWrite(i, ni, device);
      RunWrites(i, order, p, w);
    }
  }

  lemma OnDeviceWrite(i: Input, ni: NiName, device: string) returns (w: Write)
    requires i.Valid() && ni in NiNames(i.vpc) && OnDevice(i, ni, device)
    ensures w.device == device && w.ni == ni && RunWrite(i, w) && device in SrlNames(i.nodes)
  {
    var m := Itfces(i, ni, device);
    if m != map[] {
      var name :| name in m;
      w := EthernetWrite(i, ni, device, name, m[name]);
    } else {
      w := HasIrbFacts(i, ni, device);
    }
  }

  lemma RunEntries(i: Input, order: seq<string>, p: Phases, ni: NiName, device: string)
    requires i.Valid() && p.Of(i, order) && Orders(order, RoutingTablesOf(i).Keys)
    requires ni in NisOn(i, device)
    ensures EntriesOf(i.ix, p.All(), device, ni) == NiInterfaces(i, ni, device)
  {
    var m := Itfces(i, ni, device);
    forall e | e in EntriesOf(i.ix, p.All(), device, ni)
      ensures e in NiInterfaces(i, ni, device)
    {
      var w :| w in p.All() && w.device == device && w.ni == ni && !w.kind.Vxlan? && e == EntryName(i.ix, w);
      RunWrites(i, order, p, w);
      if OwnWrite(i, w) { OwnWriteFacts(i, w); } else { JoinWriteFacts(i, w); }
    }
    forall name | name in m
      ensures Dotted(name, m[name].outerVlan) in EntriesOf(i.ix, p.All(), device, ni)
    {
      var w := EthernetWrite(i, ni, device, name, m[name]);
      RunWrites(i, order, p, w);
      assert EntryName(i.ix, w) == Dotted(name, m[name].outerVlan);
    }
    if HasIrb(i, ni, device) {
      var w := HasIrbFacts(i, ni, device);
      RunWrites(i, order, p, w);
      JoinWriteFacts(i, w);
      assert EntryName(i.ix, w) == Dotted(IRB0, Index(i.ix, ni));
    }
  }

  lemma RunVxlanEntries(i: Input, order: seq<string>, p: Phases, ni: NiName, device: string)
    requires i.Valid() && p.Of(i, order) && Orders(order, RoutingTablesOf(i).Keys)
    requires ni in NisOn(i, device)
    ensures VxlanEntriesOf(i.ix, p.All(), device, ni) == NiVxlans(i, ni)
  {
    forall e | e in VxlanEntriesOf(i.ix, p.All(), device, ni)
      ensures e in NiVxlans(i, ni)
    {
      var w :| w in p.All() && w.device == device && w.ni == ni && w.kind.Vxlan? && e == EntryName(i.ix, w);
      RunWrites(i, order, p, w);
      if OwnWrite(i, w) { OwnWriteFacts(i, w); } else { JoinWriteFacts(i, w); }
    }
    if TunnelOf(i.vpc, ni) == VXLAN {
      OnDeviceVxlan(i, ni, device);
      RunWrites(i, order, p, VxlanWrite(ni, device));
      assert EntryName(i.ix, VxlanWrite(ni, device)) == Dotted(VXLAN0, Index(i.ix, ni));
    }
  }

  // ---------- subinterfaces ----------

  lemma SameIndexSameNi(i: Input, m: NiName, n: NiName)
    requires i.Valid() && m in NiNames(i.vpc) && n in NiNames(i.vpc) && Index(i.ix, m) == Index(i.ix, n)
    ensures m == n
  {
  }

  lemma PairMayFollow(i: Input, x: Write, y: Write)
    requires i.Valid() && RunWrite(i, x) && RunWrite(i, y)
    requires JoinWrite(i, y) || (OwnWrite(i, x) && (x.ni.RtNi? ==> y.ni.RtNi?))
    ensures MayFollow(i.ix, x, y)
  {
    if OwnWrite(i, x) { OwnWriteFacts(i, x); } else { JoinWriteFacts(i, x); }
    if JoinWrite(i, y) { JoinWriteFacts(i, y); } else { OwnWriteFacts(i, y); }
    if x.kind.Irb? && y.kind.Irb? && Key(i.ix, x) == Key(i.ix, y) {
      SameIndexSameNi(i, x.ni, y.ni);
    }
  }

  /** The phases in their order: 0 and 1 for the bridge domains' and the routing tables' own writes, 2
      for the joins. */
  ghost predicate InPhase(i: Input, ws: seq<Write>, n: nat)
  {
    forall w :: w in ws ==> if n == 2 then JoinWrite(i, w) else OwnWrite(i, w) && (n == 0 <==> w.ni.BdNi?)
  }

  lemma PhasesMayFollow(i: Input, a: seq<Write>, m: nat, b: seq<Write>, n: nat)
    requires i.Valid() && m <= n <= 2 && InPhase(i, a, m) && InPhase(i, b, n)
    ensures AllMayFollow(i.ix, a, b)
  {
    forall x, y | x in a && y in b
      ensures MayFollow(i.ix, x, y)
    {
      PairMayFollow(i, x, y);
    }
  }

  lemma RunIsDisciplined(i: Input, order: seq<string>, p: Phases)
    requires i.Valid() && p.Of(i, order)
    ensures Disciplined(i.ix, p.All())
  {
    PhasesMayFollow(i, p.bridge, 0, p.bridge, 0);
    PhasesMayFollow(i, p.bridge, 0, p.route, 1);
    PhasesMayFollow(i, p.route, 1, p.route, 1);
    PhasesMayFollow(i, p.bridge, 0, p.join, 2);
    PhasesMayFollow(i, p.route, 1, p.join, 2);
    PhasesMayFollow(i, p.join, 2, p.join, 2);
    ThreePhases(i.ix, p.bridge, p.route, p.join);
  }

  lemma ThreePhases(ix: Indexes, a: seq<Write>, b: seq<Write>, c: seq<Write>)
    requires AllMayFollow(ix, a, a) && AllMayFollow(ix, b, b) && AllMayFollow(ix, c, c)
    requires AllMayFollow(ix, a, b) && AllMayFollow(ix, a, c) && AllMayFollow(ix, b, c)
    ensures Disciplined(ix, a + b + c)
  {
    DisciplinedConcat(ix, [], a);
    assert [] + a == a;
    DisciplinedConcat(ix, a, b);
    assert forall x :: x in a + b ==> x in a || x in b;
    DisciplinedConcat(ix, a + b, c);
  }

  /** The subinterface the declarative configuration has under a key. */
  ghost function SpecSub(i: Input, order: seq<string>, device: string, k: SubKey): Option<Subinterface>
    requires i.Valid()
  {
    SubAt(CompileDevice(i, order, device), k)
  }

  lemma EthernetSpec(i: Input, order: seq<string>, device: string, name: string, vlan: nat)
    requires i.Valid() && name != IRB0
    ensures SpecSub(i, order, device, SubKey(name, vlan)) ==
      if exists ni :: ni in NiNames(i.vpc) && Claims(i, ni, device, name, vlan) then
        Some(EthernetSub(i, order, device, name, vlan))
      else None
  {
    if ni :| ni in NiNames(i.vpc) && Claims(i, ni, device, name, vlan) {
      assert name in EthernetNames(i, device) && vlan in EthernetVlans(i, device, name);
    }
  }

  lemma {:induction false} LastClaimantExists(i: Input, order: seq<string>, device: string, name: string, vlan: nat)
    ensures match LastClaimant(i, order, device, name, vlan)
      case None => forall rt :: rt in order ==> !Claims(i, RtNi(rt), device, name, vlan)
      case Some(rt) => rt in order && Claims(i, RtNi(rt), device, name, vlan)
  {
    if |order| > 0 {
      var front := order[..|order| - 1];
      LastClaimantExists(i, front, device, name, vlan);
      assert order == front + [order[|order| - 1]];
    }
  }

  lemma ClaimIsWrite(i: Input, ni: NiName, device: string, name: string, vlan: nat)
    requires i.Valid() && Claims(i, ni, device, name, vlan)
    ensures name != IRB0 && ni in NiNames(i.vpc)
    ensures var w := EthernetWrite(i, ni, device, name, Itfces(i, ni, device)[name]);
      OwnWrite(i, w) && Writes(i.ix, w, device, SubKey(name, vlan))
  {
    assert name in Itfces(i, ni, device);
  }

  lemma EthernetRun(i: Input, order: seq<string>, p: Phases, device: string, name: string, vlan: nat)
    requires i.Valid() && p.Of(i, order) && Orders(order, RoutingTablesOf(i).Keys) && name != IRB0
    ensures SubAt(DeviceRun(i.ix, p.All(), device), SubKey(name, vlan)) == SpecSub(i, order, device, SubKey(name, vlan))
  {
    var k := SubKey(name, vlan);
    RunIsDisciplined(i, order, p);
    LastWriterDecides(i.ix, p.All(), device, k);
    LastWriteConcat(i.ix, p.bridge + p.route, p.join, device, k);
    LastWriteConcat(i.ix, p.bridge, p.route, device, k);
    NoJoinWrite(i, p.join, device, name, vlan);
    EthernetSpec(i, order, device, name, vlan);
    LastClaimantExists(i, order, device, name, vlan);
    LastWriteExists(i.ix, p.bridge, device, k);
    match LastClaimant(i, order, device, name, vlan) {
      case Some(rt) =>
        ClaimIsWrite(i, RtNi(rt), device, name, vlan);
      case None =>
        forall ni | ni in NiNames(i.vpc) && Claims(i, ni, device, name, vlan)
          ensures ni.BdNi?
        {
          assert ni.RtNi? ==> ni.name in RoutingTablesOf(i).Keys;
        }
        BridgeWriters(i, order, p.bridge, device, name, vlan);
    }
  }

  lemma NoJoinWrite(i: Input, ws: seq<Write>, device: string, name: string, vlan: nat)
    requires i.Valid() && JoinPhase(i, ws) && name != IRB0
    ensures LastWrite(i.ix, ws, device, SubKey(name, vlan)) == None
  {
    LastWriteExists(i.ix, ws, device, SubKey(name, vlan));
    forall w | w in ws
      ensures !Writes(i.ix, w, device, SubKey(name, vlan))
    {
      JoinWriteFacts(i, w);
    }
  }

  /** If no routing table claims a subinterface, the bridge phase writes it iff anything claims it. */
  lemma BridgeWriters(i: Input, order: seq<string>, ws: seq<Write>, device: string, name: string, vlan: nat)
    requires i.Valid() && BridgePhase(i, ws) && Orders(order, RoutingTablesOf(i).Keys) && name != IRB0
    requires forall ni :: ni in NiNames(i.vpc) && Claims(i, ni, device, name, vlan) ==> ni.BdNi?
    ensures (exists w :: w in ws && Writes(i.ix, w, device, SubKey(name, vlan)))
      <==> exists ni :: ni in NiNames(i.vpc) && Claims(i, ni, device, name, vlan)
    ensures forall w :: w in ws && Writes(i.ix, w, device, SubKey(name, vlan)) ==>
      WriteSub(EMPTY_SUB, w) == BridgedSub(vlan)
  {
    forall w | w in ws && Writes(i.ix, w, device, SubKey(name, vlan))
      ensures Claims(i, w.ni, device, name, vlan) && w.ni in NiNames(i.vpc)
    {
      OwnWriteFacts(i, w);
    }
    forall ni | ni in NiNames(i.vpc) && Claims(i, ni, device, name, vlan)
      ensures exists w :: w in ws && Writes(i.ix, w, device, SubKey(name, vlan))
    {
      ClaimIsWrite(i, ni, device, name, vlan);
      var w := EthernetWrite(i, ni, device, name, Itfces(i, ni, device)[name]);
      assert w in ws;
    }
  }

  lemma IrbSpec(i: Input, order: seq<string>, device: string, x: nat)
    requires i.Valid()
    ensures match SpecSub(i, order, device, SubKey(IRB0, x))
      case None => forall ni :: ni in IrbNis(i, device) ==> i.ix[ni] != x
      case Some(sub) => exists ni :: ni in IrbNis(i, device) && i.ix[ni] == x && sub == IrbSub(i, ni, device)
  {
    forall ni | ni in NiNames(i.vpc)
      ensures IRB0 !in Itfces(i, ni, device)
    {
    }
    assert IRB0 !in EthernetNames(i, device);
  }

  lemma IrbRun(i: Input, order: seq<string>, p: Phases, device: string, x: nat)
    requires i.Valid() && p.Of(i, order)
    ensures SubAt(DeviceRun(i.ix, p.All(), device), SubKey(IRB0, x)) == SpecSub(i, order, device, SubKey(IRB0, x))
  {
    var k := SubKey(IRB0, x);
    RunIsDisciplined(i, order, p);
    LastWriterDecides(i.ix, p.All(), device, k);
    LastWriteConcat(i.ix, p.bridge + p.route, p.join, device, k);
    NoOwnIrb(i, order, p, device, x);
    IrbSpec(i, order, device, x);
    LastWriteExists(i.ix, p.join, device, k);
    match LastWrite(i.ix, p.join, device, k) {
      case None =>
        forall ni | ni in IrbNis(i, device)
          ensures i.ix[ni] != x
        {
          var w := HasIrbFacts(i, ni, device);
          JoinWriteFacts(i, w);
          assert w in p.join;
        }
      case Some(w) =>
        JoinWriteFacts(i, w);
        LastIrbWriter(i, p.join, w, device, x);
        assert w.ni in IrbNis(i, device);
        forall ni | ni in IrbNis(i, device) && i.ix[ni] == x
          ensures ni == w.ni
        {
          SameIndexSameNi(i, ni, w.ni);
        }
    }
  }

  lemma NoOwnIrb(i: Input, order: seq<string>, p: Phases, device: string, x: nat)
    requires i.Valid() && p.Of(i, order)
    ensures LastWrite(i.ix, p.bridge + p.route, device, SubKey(IRB0, x)) == None
  {
    LastWriteExists(i.ix, p.bridge + p.route, device, SubKey(IRB0, x));
    forall w | w in p.bridge + p.route
      ensures !Writes(i.ix, w, device, SubKey(IRB0, x))
    {
      OwnWriteFacts(i, w);
    }
  }

  lemma LastIrbWriter(i: Input, ws: seq<Write>, w: Write, device: string, x: nat)
    requires i.Valid() && JoinPhase(i, ws) && LastWrite(i.ix, ws, device, SubKey(IRB0, x)) == Some(w)
    requires w in ws && Writes(i.ix, w, device, SubKey(IRB0, x))
    ensures WriteSub(EMPTY_SUB, w) == IrbSub(i, w.ni, device)
  {
    JoinWriteFacts(i, w);
    if w.ni.RtNi? {
      var rt := w.ni.name;
      assert Index(i.ix, RtNi(rt)) == x;
      assert LastWrite(i.ix, ws, device, SubKey(IRB0, Index(i.ix, RtNi(rt))))
          == LastJoinWrite(i, rt, |RoutingTablesOf(i)[rt].bridgeDomains|, device);
    }
  }

  // ---------- the whole configuration ----------

  lemma SpecHasNoEmptyInterface(i: Input, order: seq<string>, device: string)
    requires i.Valid()
    ensures forall name :: name in CompileDevice(i, order, device).interfaces ==>
      CompileDevice(i, order, device).interfaces[name] != map[]
  {
    forall name | name in CompileDevice(i, order, device).interfaces
      ensures SubinterfacesOf(i, order, device, name) != map[]
    {
      if name == IRB0 {
        IrbSpec(i, order, device, 0);
        var ni :| ni in IrbNis(i, device);
        assert i.ix[ni] in SubinterfacesOf(i, order, device, name);
      } else {
        var ni :| ni in NiNames(i.vpc) && name in Itfces(i, ni, device);
        assert Itfces(i, ni, device)[name].outerVlan in SubinterfacesOf(i, order, device, name);
      }
    }
  }

  lemma RunVxlans(i: Input, order: seq<string>, p: Phases, device: string)
    requires i.Valid() && p.Of(i, order) && Orders(order, RoutingTablesOf(i).Keys)
    ensures DeviceRun(i.ix, p.All(), device).vxlans == CompileDevice(i, order, device).vxlans
  {
    VxlansOfRun(i.ix, p.All(), device);
    RunVxlanNis(i, order, p, device);
    VxlansOfSpec(i, VxlanNis(i, device));
    SameVxlans(i, DeviceRun(i.ix, p.All(), device).vxlans, CompileDevice(i, order, device).vxlans, VxlanNis(i, device));
  }

  lemma VxlansOfSpec(i: Input, nis: set<NiName>)
    requires i.Valid() && nis <= i.ix.Keys
    ensures forall ni :: ni in nis ==> Index(i.ix, ni) in VxlansOf(i, nis)
    ensures forall x :: x in VxlansOf(i, nis) ==>
      exists ni :: ni in nis && Index(i.ix, ni) == x && VxlansOf(i, nis)[x] == VxlanConfig(i.ix, ni)
  {
    forall x | x in VxlansOf(i, nis)
      ensures exists ni :: ni in nis && Index(i.ix, ni) == x && VxlansOf(i, nis)[x] == VxlanConfig(i.ix, ni)
    {
      var ni :| ni in nis && i.ix[ni] == x;
      assert Index(i.ix, ni) == x;
    }
  }

  lemma SameVxlans(i: Input, a: map<nat, VxlanInterface>, b: map<nat, VxlanInterface>, nis: set<NiName>)
    requires i.Valid() && nis <= NiNames(i.vpc)
    requires forall ni :: ni in nis ==> Index(i.ix, ni) in a && Index(i.ix, ni) in b
    requires forall x :: x in a ==> exists ni :: ni in nis && Index(i.ix, ni) == x && a[x] == VxlanConfig(i.ix, ni)
    requires forall x :: x in b ==> exists ni :: ni in nis && Index(i.ix, ni) == x && b[x] == VxlanConfig(i.ix, ni)
    ensures a == b
  {
    forall x | x in a
      ensures x in b && a[x] == b[x]
    {
      var m :| m in nis && Index(i.ix, m) == x && a[x] == VxlanConfig(i.ix, m);
      var n :| n in nis && Index(i.ix, n) == x && b[x] == VxlanConfig(i.ix, n);
      SameIndexSameNi(i, m, n);
    }
    forall x | x in b
      ensures x in a
    {
      var n :| n in nis && Index(i.ix, n) == x && b[x] == VxlanConfig(i.ix, n);
    }
  }

  lemma RunVxlanNis(i: Input, order: seq<string>, p: Phases, device: string)
    requires i.Valid() && p.Of(i, order) && Orders(order, RoutingTablesOf(i).Keys)
    ensures VxlanNisOf(p.All(), device) == VxlanNis(i, device)
  {
    forall ni | ni in VxlanNisOf(p.All(), device)
      ensures ni in VxlanNis(i, device)
    {
      var w :| w in p.All() && w.device == device && w.kind.Vxlan? && w.ni == ni;
      RunWrites(i, order, p, w);
      if OwnWrite(i, w) { OwnWriteFacts(i, w); } else { JoinWriteFacts(i, w); }
    }
    forall ni | ni in VxlanNis(i, device)
      ensures ni in VxlanNisOf(p.All(), device)
    {
      OnDeviceVxlan(i, ni, device);
      RunWrites(i, order, p, VxlanWrite(ni, device));
    }
  }

  lemma RunNetworkInstances(i: Input, order: seq<string>, p: Phases, device: string)
    requires i.Valid() && p.Of(i, order) && Orders(order, RoutingTablesOf(i).Keys)
    ensures DeviceRun(i.ix, p.All(), device).nis == CompileDevice(i, order, device).nis
  {
    var a, b := DeviceRun(i.ix, p.All(), device).nis, CompileDevice(i, order, device).nis;
    RunNis(i, order, p, device);
    forall ni: NiName
      ensures ni in a <==> ni in b
      ensures ni in b ==> a[ni] == b[ni]
    {
      NiOfRun(i.ix, p.All(), device, ni);
      if ni in NisOn(i, device) {
        RunEntries(i, order, p, ni, device);
        RunVxlanEntries(i, order, p, ni, device);
      }
    }
  }

  lemma RunInterfaces(i: Input, order: seq<string>, p: Phases, device: string)
    requires i.Valid() && p.Of(i, order) && Orders(order, RoutingTablesOf(i).Keys)
    ensures DeviceRun(i.ix, p.All(), device).interfaces == CompileDevice(i, order, device).interfaces
  {
    var a, b := DeviceRun(i.ix, p.All(), device), CompileDevice(i, order, device);
    forall k: SubKey
      ensures SubAt(a, k) == SubAt(b, k)
    {
      if k.itfce == IRB0 {
        IrbRun(i, order, p, device, k.index);
      } else {
        EthernetRun(i, order, p, device, k.itfce, k.index);
      }
    }
    NoEmptyInterface(i.ix, p.All(), device);
    SpecHasNoEmptyInterface(i, order, device);
    SubinterfacesDetermine(a, b);
  }

  /** Every complete run, in any order of its loops, leaves exactly the declarative configuration. */
  lemma RunIsCompile(i: Input, order: seq<string>, p: Phases)
    requires i.Valid() && p.Of(i, order) && Orders(order, RoutingTablesOf(i).Keys)
    ensures Run(i.ix, map[], p.All()) == Compile(i, order)
  {
    var a, b := Run(i.ix, map[], p.All()), Compile(i, order);
    forall device: string
      ensures device in a <==> device in b
      ensures device in a ==> a[device] == b[device]
    {
      RunByDevice(i.ix, p.All(), device);
      RunNis(i, order, p, device);
      assert device in a <==> NisOf(p.All(), device) != {} by {
        if device in a {
          var w :| w in p.All() && w.device == device;
          assert w.ni in NisOf(p.All(), device);
        }
      }
      if device in a {
        RunNetworkInstances(i, order, p, device);
        RunInterfaces(i, order, p, device);
        RunVxlans(i, order, p, device);
      }
    }
  }
}
