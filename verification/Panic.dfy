/** The nil pointer of the IRB branch (internal/controllers/vpc/populate-srl.go): when a run panics. */
module Panic {
  import opened Wrappers
  import opened Net
  import opened Gateway
  import opened VpcSpec
  import opened Registers
  import opened DeviceTree
  import opened Compilation
  import opened Populate

  /** An entry that joins somewhere has no prefix of one of the families. */
  ghost predicate JoinLacksFamily(i: Input) {
    exists rt, j, device :: Joins(i, rt, j, device) &&
      (Entry(i, rt, j).ipv4Prefixes == [] || Entry(i, rt, j).ipv6Prefixes == [])
  }

  /** Nothing is wrong with a run but, perhaps, missing prefixes: every network instance is in order and
      the prefixes of every entry that joins normalise. */
  ghost predicate OthersInOrder(i: Input) {
    && AllNisOk(i)
    && forall rt, j, device :: Joins(i, rt, j, device) ==>
         AddressesOk(i, Entry(i, rt, j).ipv4Prefixes, Entry(i, rt, j).ipv6Prefixes)
  }

  /** Such a run panics, in every order, iff an entry that joins lacks a family. No other run panics
      without one. */
  lemma PanicIff(i: Input, order: seq<string>)
    requires Orders(order, RoutingTablesOf(i).Keys)
    ensures RunPanics(i, order) ==> JoinLacksFamily(i)
    ensures OthersInOrder(i) ==> (RunPanics(i, order) <==> JoinLacksFamily(i))
  {
    hide OthersInOrder, JoinLacksFamily, RunPanics;
    if RunPanics(i, order) {
      PanicNeedsLack(i, order);
    }
    if OthersInOrder(i) && JoinLacksFamily(i) {
      LackPanics(i, order);
    }
  }

  lemma PanicNeedsLack(i: Input, order: seq<string>)
    requires Orders(order, RoutingTablesOf(i).Keys) && RunPanics(i, order)
    ensures JoinLacksFamily(i)
  {
    hide EntriesOk, ListsOk, AllNisOk, AddressesOk;
    assert forall rt :: rt in order ==> rt in RoutingTablesOf(i).Keys;
    var k :| 0 <= k < |order| && ListPanics(i, order[k]) && ListsOk(i, order[..k]);
    var j :| 0 <= j < |RoutingTablesOf(i)[order[k]].bridgeDomains| && EntryPanics(i, order[k], j);
    var device :| Joins(i, order[k], j, device);
  }

  lemma LackPanics(i: Input, order: seq<string>)
    requires Orders(order, RoutingTablesOf(i).Keys) && OthersInOrder(i) && JoinLacksFamily(i)
    ensures RunPanics(i, order)
  {
    hide AllNisOk, AddressesOk, EntryOk, ListPanics, ListsPanic;
    assert forall rt :: rt in order ==> rt in RoutingTablesOf(i).Keys;
    var rt, j, device :| Joins(i, rt, j, device) &&
      (Entry(i, rt, j).ipv4Prefixes == [] || Entry(i, rt, j).ipv6Prefixes == []);
    assert rt in RoutingTablesOf(i).Keys && EntryPanics(i, rt, j);
    PanicIsNotOk(i, rt, j);
    assert !ListOk(i, rt);
    FirstListPanics(i, order, |order|);
    assert order[..|order|] == order;
  }

  /** Where all else is in order, an entry that fails panics. */
  lemma FailsOnlyByPanic(i: Input, rt: string, j: nat)
    requires OthersInOrder(i) && rt in RoutingTablesOf(i) && j < |RoutingTablesOf(i)[rt].bridgeDomains|
    ensures EntryOk(i, rt, j) || EntryPanics(i, rt, j)
  {
    if Entry(i, rt, j).name in BridgeDomainsOf(i) {
      var ni := BdNi(Entry(i, rt, j).name);
      assert ni in BdNames(i.vpc) && NiOk(i, ni);
      forall device | device in SrlNames(i.nodes)
        ensures EntryOkOn(i, rt, j, device) || EntryPanics(i, rt, j)
      {
        assert OwnOk(i, ni, device);
      }
    }
  }

  lemma {:induction false} FirstEntryPanics(i: Input, rt: string, n: nat)
    requires OthersInOrder(i) && rt in RoutingTablesOf(i) && n <= |RoutingTablesOf(i)[rt].bridgeDomains|
    ensures EntriesOk(i, rt, n) || ListPanics(i, rt)
  {
    if n > 0 {
      FirstEntryPanics(i, rt, n - 1);
      FailsOnlyByPanic(i, rt, n - 1);
      EntriesOkNext(i, rt, n - 1);
    }
  }

  lemma {:induction false} FirstListPanics(i: Input, order: seq<string>, n: nat)
    requires OthersInOrder(i) && n <= |order| && forall rt :: rt in order ==> rt in RoutingTablesOf(i)
    ensures ListsOk(i, order[..n]) || ListsPanic(i, order)
  {
    hide OthersInOrder, ListPanics, EntriesOk;
    if n > 0 {
      FirstListPanics(i, order, n - 1);
      var rt := order[n - 1];
      FirstEntryPanics(i, rt, |RoutingTablesOf(i)[rt].bridgeDomains|);
      assert order[..n] == order[..n - 1] + [rt];
    }
  }

  // ---------- an input ----------

  /** A routing table that lists one bridge domain, with one IPv4 prefix and no IPv6 prefix. */
  function Ipv4Only(text: AddressText, p: string): Input {
    Input(
      VpcView(
        map["multus-sriov1" := BridgeDomain("multus-sriov1", None, [])],
        map["multus" := RoutingTable("multus", None, [ListedBridgeDomain("multus-sriov1", [p], [])], [])],
        Some(VXLAN)),
      [NodeInfo("leaf1", SRL)],
      Library(text, s => Ok(s), (device, s) => Ok(map["int-1/1/1" := SelectedItfce(100, [], [])])),
      First,
      map[BdNi("multus-sriov1") := 1, RtNi("multus") := 2])
  }

  /** With 100.112.2.0/24 as its prefix, the run panics in every order. */
  lemma Ipv4OnlyPanics() returns (text: AddressText, i: Input)
    ensures text.Faithful() && i == Ipv4Only(text, text.Cidr([100, 112, 2, 0], 24)) && i.Valid()
    ensures OthersInOrder(i) && JoinLacksFamily(i)
    ensures forall order :: Orders(order, RoutingTablesOf(i).Keys) ==> RunPanics(i, order)
  {
    text := FaithfulExists();
    var p := text.Cidr([100, 112, 2, 0], 24);
    i := Ipv4Only(text, p);
    V4NetworkGetsGateway(text, 100, 112, 2);
    AddressesExact(text, V4_LINK, First, [p]);
    Ipv4OnlyInOrder(text, p);
    forall order | Orders(order, RoutingTablesOf(i).Keys)
      ensures RunPanics(i, order)
    {
      PanicIff(i, order);
    }
  }

  lemma Ipv4OnlyInOrder(text: AddressText, p: string)
    requires Addresses(text, V4_LINK, First, [p]).Ok?
    ensures var i := Ipv4Only(text, p); i.Valid() && OthersInOrder(i) && JoinLacksFamily(i)
  {
    var i := Ipv4Only(text, p);
    Ipv4OnlyValid(text, p);
    forall ni | ni in NiNames(i.vpc)
      ensures NiOk(i, ni)
    {
      Ipv4OnlyNiOk(text, p, ni);
    }
    forall rt, j, device | Joins(i, rt, j, device)
      ensures AddressesOk(i, Entry(i, rt, j).ipv4Prefixes, Entry(i, rt, j).ipv6Prefixes)
    {
      Ipv4OnlyEntry(text, p, rt, j, device);
    }
  }

  lemma Ipv4OnlyEntry(text: AddressText, p: string, rt: string, j: int, device: string)
    requires Joins(Ipv4Only(text, p), rt, j, device)
    ensures Entry(Ipv4Only(text, p), rt, j) == ListedBridgeDomain("multus-sriov1", [p], [])
  {
  }

  lemma Ipv4OnlyValid(text: AddressText, p: string)
    ensures var i := Ipv4Only(text, p); i.Valid() && JoinLacksFamily(i)
  {
    var i := Ipv4Only(text, p);
    assert "int-1/1/1" != IRB0;
    assert i.nodes[0] in i.nodes;
    assert BdNi("multus-sriov1") in BdNames(i.vpc);
    assert "int-1/1/1" in Itfces(i, BdNi("multus-sriov1"), "leaf1");
    assert Joins(i, "multus", 0, "leaf1");
  }

  lemma Ipv4OnlyNiOk(text: AddressText, p: string, ni: NiName)
    requires ni in NiNames(Ipv4Only(text, p).vpc)
    ensures NiOk(Ipv4Only(text, p), ni)
  {
  }
}
