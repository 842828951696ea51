/** A VPC that compiles, to different fabrics in different orders of Go's maps. */
module Conflicts {
  import opened Wrappers
  import opened BigInt
  import opened Net
  import opened Gateway
  import opened VpcSpec
  import opened Registers
  import opened DeviceTree
  import opened Compilation
  import opened Properties

  /** Two routing tables whose selectors pick the same interface and VLAN of a leaf, with one prefix each. */
  function TwoRoutingTables(text: AddressText, p: string, q: string): Input {
    Input(
      VpcView(
        map[],
        map["blue" := RoutingTable("blue", None, [], [InterfaceSelector([], 100, [p], [])]),
            "red" := RoutingTable("red", None, [], [InterfaceSelector([], 100, [q], [])])],
        Some(VXLAN)),
      [NodeInfo("leaf1", SRL)],
      Library(text, s => Ok(s), (device, s) => Ok(ByFirst(s))),
      First,
      map[RtNi("blue") := 1, RtNi("red") := 2])
  }

  function ByFirst(s: Selectors): map<string, SelectedItfce> {
    if s == [] then map[] else map["int-1/1/1" := SelectedItfce(s[0].outerVlanId, s[0].ipv4Prefixes, s[0].ipv6Prefixes)]
  }

  /** With 100.112.2.0/24 and 100.112.3.0/24 every run succeeds, and the order decides the result. */
  lemma ConflictExample() returns (text: AddressText, i: Input)
    ensures text.Faithful()
    ensures i == TwoRoutingTables(text, text.Cidr([100, 112, 2, 0], 24), text.Cidr([100, 112, 3, 0], 24))
    ensures i.Valid() && AllOk(i) && Conflict(i, "blue", "red", "leaf1", "int-1/1/1", 100)
    ensures !Confluent(i)
  {
    text := FaithfulExists();
    var p, q := text.Cidr([100, 112, 2, 0], 24), text.Cidr([100, 112, 3, 0], 24);
    i := TwoRoutingTables(text, p, q);
    hide Addresses, AllOk, Conflict;
    OneGateway(text, 2);
    OneGateway(text, 3);
    GatewaysDiffer(text);
    TwoTablesConflict(text, p, q, text.Cidr([100, 112, 2, 1], 24), text.Cidr([100, 112, 3, 1], 24));
    ConflictSeparates(i, "blue", "red", "leaf1", "int-1/1/1", 100);
  }

  lemma TwoTablesConflict(text: AddressText, p: string, q: string, g: string, h: string)
    requires Addresses(text, V4_LINK, First, [p]) == Ok(map[g := Address(g, None)])
    requires Addresses(text, V4_LINK, First, [q]) == Ok(map[h := Address(h, None)])
    requires g != h
    ensures var i := TwoRoutingTables(text, p, q);
      i.Valid() && AllOk(i) && Conflict(i, "blue", "red", "leaf1", "int-1/1/1", 100)
  {
    hide Addresses;
    TwoTablesOk(text, p, q);
    TwoTablesSelect(text, p, q);
    assert g in map[g := Address(g, None)] && g !in map[h := Address(h, None)];
  }

  lemma OneGateway(text: AddressText, c: byte)
    requires text.Faithful()
    ensures var g := text.Cidr([100, 112, c, 1], 24);
      Addresses(text, V4_LINK, First, [text.Cidr([100, 112, c, 0], 24)]) == Ok(map[g := Address(g, None)])
  {
    var p := text.Cidr([100, 112, c, 0], 24);
    V4NetworkGetsGateway(text, 100, 112, c);
    assert [p][..0] == [];
  }

  lemma GatewaysDiffer(text: AddressText)
    requires text.Faithful()
    ensures text.Cidr([100, 112, 2, 1], 24) != text.Cidr([100, 112, 3, 1], 24)
  {
    assert text.parse(text.Cidr([100, 112, 2, 1], 24)).value.addr[2] == 2;
    assert text.parse(text.Cidr([100, 112, 3, 1], 24)).value.addr[2] == 3;
  }

  lemma TwoTablesSelect(text: AddressText, p: string, q: string)
    ensures var i := TwoRoutingTables(text, p, q);
      && i.Valid()
      && Itfces(i, RtNi("blue"), "leaf1") == map["int-1/1/1" := SelectedItfce(100, [p], [])]
      && Itfces(i, RtNi("red"), "leaf1") == map["int-1/1/1" := SelectedItfce(100, [q], [])]
  {
    var i := TwoRoutingTables(text, p, q);
    assert "int-1/1/1" != IRB0;
    assert i.nodes[0] in i.nodes;
    assert RtNi("blue") in RtNames(i.vpc) && RtNi("red") in RtNames(i.vpc);
  }

  lemma TwoTablesOk(text: AddressText, p: string, q: string)
    requires Addresses(text, V4_LINK, First, [p]).Ok? && Addresses(text, V4_LINK, First, [q]).Ok?
    ensures AllOk(TwoRoutingTables(text, p, q))
  {
    hide Addresses;
    var i := TwoRoutingTables(text, p, q);
    forall ni | ni in NiNames(i.vpc)
      ensures NiOk(i, ni)
    {
      TableOk(text, p, q, ni);
    }
  }

  lemma TableOk(text: AddressText, p: string, q: string, ni: NiName)
    requires Addresses(text, V4_LINK, First, [p]).Ok? && Addresses(text, V4_LINK, First, [q]).Ok?
    requires ni in NiNames(TwoRoutingTables(text, p, q).vpc)
    ensures NiOk(TwoRoutingTables(text, p, q), ni)
  {
    hide Addresses;
    assert ni == RtNi("blue") || ni == RtNi("red");
  }
}
