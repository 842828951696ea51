/** The VPC resource (apis/vpc/v1alpha1): bridge domains, routing tables with the bridge domains they
    list, and the lookups the controller makes in them. */
module VpcSpec {
  import opened Wrappers

  datatype InterfaceSelector = InterfaceSelector(
    tags: seq<(string, string)>, outerVlanId: nat, ipv4Prefixes: seq<string>, ipv6Prefixes: seq<string>)

  type Selectors = seq<InterfaceSelector>

  datatype BridgeDomain = BridgeDomain(name: string, tunnel: Option<string>, selectors: Selectors)

  /** A bridge domain in the list of a routing table; a missing name reads as "". */
  datatype ListedBridgeDomain = ListedBridgeDomain(name: string, ipv4Prefixes: seq<string>, ipv6Prefixes: seq<string>)

  datatype RoutingTable = RoutingTable(
    name: string, tunnel: Option<string>, bridgeDomains: seq<ListedBridgeDomain>, selectors: Selectors)

  datatype Vpc = Vpc(bridgeDomains: seq<BridgeDomain>, routingTables: seq<RoutingTable>, defaultTunnel: Option<string>)

  const VXLAN := "vxlan"

  function BridgeDomains(items: seq<BridgeDomain>): map<string, BridgeDomain> {
    if |items| == 0 then map[]
    else BridgeDomains(items[..|items| - 1])[items[|items| - 1].name := items[|items| - 1]]
  }

  function RoutingTables(items: seq<RoutingTable>): map<string, RoutingTable> {
    if |items| == 0 then map[]
    else RoutingTables(items[..|items| - 1])[items[|items| - 1].name := items[|items| - 1]]
  }

  method GetBridgeDomains(vpc: Vpc) returns (bd: map<string, BridgeDomain>)
    ensures bd == BridgeDomains(vpc.bridgeDomains)
    ensures bd.Keys == set x | x in vpc.bridgeDomains :: x.name
    ensures forall k :: LastBridgeDomain(vpc.bridgeDomains, k) ==>
      bd[vpc.bridgeDomains[k].name] == vpc.bridgeDomains[k]
  {
    bd := map[];
    for i := 0 to |vpc.bridgeDomains|
      invariant bd == BridgeDomains(vpc.bridgeDomains[..i])
    {
      assert vpc.bridgeDomains[..i + 1][..i] == vpc.bridgeDomains[..i];
      bd := bd[vpc.bridgeDomains[i].name := vpc.bridgeDomains[i]];
    }
    assert vpc.bridgeDomains[..|vpc.bridgeDomains|] == vpc.bridgeDomains;
    BridgeDomainsExact(vpc.bridgeDomains);
  }

  method GetRoutingTables(vpc: Vpc) returns (rt: map<string, RoutingTable>)
    ensures rt == RoutingTables(vpc.routingTables)
    ensures rt.Keys == set x | x in vpc.routingTables :: x.name
    ensures forall k :: LastRoutingTable(vpc.routingTables, k) ==>
      rt[vpc.routingTables[k].name] == vpc.routingTables[k]
  {
    rt := map[];
    for i := 0 to |vpc.routingTables|
      invariant rt == RoutingTables(vpc.routingTables[..i])
    {
      assert vpc.routingTables[..i + 1][..i] == vpc.routingTables[..i];
      rt := rt[vpc.routingTables[i].name := vpc.routingTables[i]];
    }
    assert vpc.routingTables[..|vpc.routingTables|] == vpc.routingTables;
    RoutingTablesExact(vpc.routingTables);
  }

  /** The lists of `GetBridge2RoutingTable` are those of the routing tables of `GetRoutingTables`. */
  method GetBridge2RoutingTable(vpc: Vpc) returns (irb: map<string, seq<ListedBridgeDomain>>)
    ensures irb.Keys == RoutingTables(vpc.routingTables).Keys == set x | x in vpc.routingTables :: x.name
    ensures forall rt :: rt in irb ==> irb[rt] == RoutingTables(vpc.routingTables)[rt].bridgeDomains
    ensures forall k :: LastRoutingTable(vpc.routingTables, k) ==>
      irb[vpc.routingTables[k].name] == vpc.routingTables[k].bridgeDomains
  {
    irb := map[];
    for i := 0 to |vpc.routingTables|
      invariant irb.Keys == RoutingTables(vpc.routingTables[..i]).Keys
      invariant forall rt :: rt in irb ==> irb[rt] == RoutingTables(vpc.routingTables[..i])[rt].bridgeDomains
    {
      assert vpc.routingTables[..i + 1][..i] == vpc.routingTables[..i];
      irb := irb[vpc.routingTables[i].name := vpc.routingTables[i].bridgeDomains];
    }
    assert vpc.routingTables[..|vpc.routingTables|] == vpc.routingTables;
    RoutingTablesExact(vpc.routingTables);
  }

  /** Declaration k is the last one of its name. */
  ghost predicate LastBridgeDomain(items: seq<BridgeDomain>, k: int) {
    0 <= k < |items| && forall j :: k < j < |items| ==> items[j].name != items[k].name
  }

  ghost predicate LastRoutingTable(items: seq<RoutingTable>, k: int) {
    0 <= k < |items| && forall j :: k < j < |items| ==> items[j].name != items[k].name
  }

  /** The names are exactly those declared, and under each is the last declaration of it. */
  lemma {:induction false} BridgeDomainsExact(items: seq<BridgeDomain>)
    ensures BridgeDomains(items).Keys == set x | x in items :: x.name
    ensures forall k :: LastBridgeDomain(items, k) ==> BridgeDomains(items)[items[k].name] == items[k]
  {
    if |items| > 0 {
      var n := |items| - 1;
      BridgeDomainsExact(items[..n]);
      assert items == items[..n] + [items[n]];
      forall k | LastBridgeDomain(items, k)
        ensures BridgeDomains(items)[items[k].name] == items[k]
      {
        assert k < n ==> LastBridgeDomain(items[..n], k);
      }
    }
  }

  lemma {:induction false} RoutingTablesExact(items: seq<RoutingTable>)
    ensures RoutingTables(items).Keys == set x | x in items :: x.name
    ensures forall k :: LastRoutingTable(items, k) ==> RoutingTables(items)[items[k].name] == items[k]
  {
    if |items| > 0 {
      var n := |items| - 1;
      RoutingTablesExact(items[..n]);
      assert items == items[..n] + [items[n]];
      forall k | LastRoutingTable(items, k)
        ensures RoutingTables(items)[items[k].name] == items[k]
      {
        assert k < n ==> LastRoutingTable(items[..n], k);
      }
    }
  }

  /** Declaring one more bridge domain, under a new name and anywhere in the list, adds one entry. */
  lemma {:induction false} InsertBridgeDomain(before: seq<BridgeDomain>, bd: BridgeDomain, after: seq<BridgeDomain>)
    requires bd.name !in BridgeDomains(before + after)
    ensures BridgeDomains(before + [bd] + after) == BridgeDomains(before + after)[bd.name := bd]
  {
    if |after| == 0 {
      assert before + [bd] + after == before + [bd] && before + after == before;
      assert (before + [bd])[..|before|] == before;
    } else {
      var n := |after| - 1;
      assert (before + after)[..|before + after| - 1] == before + after[..n];
      assert (before + [bd] + after)[..|before + [bd] + after| - 1] == before + [bd] + after[..n];
      InsertBridgeDomain(before, bd, after[..n]);
    }
  }

  function OrDefault(own: Option<string>, default: Option<string>): string {
    match own
    case Some(v) => v
    case None => (match default case Some(d) => d case None => "")
  }

  /** A VPC by name: what `GetBridgeDomains` and `GetRoutingTables` make of its lists. */
  datatype VpcView = VpcView(
    bridgeDomains: map<string, BridgeDomain>, routingTables: map<string, RoutingTable>, defaultTunnel: Option<string>)

  function View(vpc: Vpc): VpcView {
    VpcView(BridgeDomains(vpc.bridgeDomains), RoutingTables(vpc.routingTables), vpc.defaultTunnel)
  }

  method GetView(vpc: Vpc) returns (view: VpcView)
    ensures view == View(vpc)
  {
    var bds := GetBridgeDomains(vpc);
    var rts := GetRoutingTables(vpc);
    view := VpcView(bds, rts, vpc.defaultTunnel);
  }

  function GetBridgeDomainTunnel(vpc: VpcView, bd: string): string {
    if bd in vpc.bridgeDomains then OrDefault(vpc.bridgeDomains[bd].tunnel, vpc.defaultTunnel) else ""
  }

  function GetRoutingTableTunnel(vpc: VpcView, rt: string): string {
    if rt in vpc.routingTables then OrDefault(vpc.routingTables[rt].tunnel, vpc.defaultTunnel) else ""
  }
}
