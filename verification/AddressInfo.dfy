/** The second copy of the gateway computation (pkg/schema/schema.go), and how far it agrees with the
    one the controller runs. */
module AddressInfo {
  import opened Wrappers
  import opened BigInt
  import opened Decimal
  import opened Net
  import opened Gateway

  datatype AddressData = AddressData(prefix: string, cidr: string, prefixLength: nat, address: string)

  /** `IPNet.String`: a mapped network is written as the IPv4 network it stands for. */
  function NetString(text: AddressText, n: IPNet): string
    requires n.Valid()
  {
    EffectiveMask(n);
    var nn := Canonical(n.ip);
    text.Cidr(nn, 8 * |nn| - (n.bits - n.ones))
  }

  function GetAdressInfo(text: AddressText, allocation: GatewayAllocation, prefix: string): Result<AddressData>
  {
    var (ip, n) :- ParseCIDR(text, prefix);
    if IPString(text, ip) == IPString(text, n.ip) && n.ones != 31 then
      var gateway :- GatewayIP(n, allocation);
      var address := IPString(text, gateway);
      Ok(AddressData(Joined(address, '/', n.ones), NetString(text, n), n.ones, address))
    else
      Ok(AddressData(prefix, NetString(text, n), n.ones, IPString(text, ip)))
  }

  function PrefixOf(r: Result<AddressData>): Result<string> {
    match r
    case Ok(data) => Ok(data.prefix)
    case Err(e) => Err(e)
  }

  predicate IsNetworkAddress(text: AddressText, prefix: string)
  {
    var r := ParseCIDR(text, prefix);
    r.Ok? && IPString(text, r.value.0) == IPString(text, r.value.1.ip)
  }

  /** Both copies give the IPv4 side the same prefix, or the same failure, on every input. */
  lemma AgreesWithIPv4Info(text: AddressText, allocation: GatewayAllocation, prefix: string)
    ensures PrefixOf(GetAdressInfo(text, allocation, prefix)) == Normalise(text, V4_LINK, allocation, prefix)
  {
  }

  /** With the IPv6 side it agrees exactly off the network addresses of length 31 and 127: the copy
      treats 31 as the point-to-point length of both families. */
  lemma AgreesWithIPv6InfoIff(text: AddressText, allocation: GatewayAllocation, prefix: string)
    requires text.Faithful()
    ensures PrefixOf(GetAdressInfo(text, allocation, prefix)) == Normalise(text, V6_LINK, allocation, prefix)
      <==> !(IsNetworkAddress(text, prefix) && ParseCIDR(text, prefix).value.1.ones in [31, 127])
  {
    var r := ParseCIDR(text, prefix);
    if IsNetworkAddress(text, prefix) && r.value.1.ones in [31, 127] {
      GatewayIsNotTheNetworkText(text, allocation, prefix);
    }
  }

  /** On those lengths a gateway text is never the text of the network address it replaces. */
  lemma GatewayIsNotTheNetworkText(text: AddressText, allocation: GatewayAllocation, prefix: string)
    requires text.Faithful() && IsNetworkAddress(text, prefix)
    requires ParseCIDR(text, prefix).value.1.ones in [31, 127]
    ensures var n := ParseCIDR(text, prefix).value.1;
      var g := GatewayIP(n, allocation);
      g.Ok? ==> text.Cidr(Canonical(g.value), n.ones) != prefix
  {
    var (ip, n) := ParseCIDR(text, prefix).value;
    if GatewayIP(n, allocation).Ok? {
      GatewayInNetwork(n, allocation);
      FormatInjective(text, ip, n.ip);
      if Mapped(n) {
        MappedNetworkLength(n);
      } else {
        GatewayReparses(text, n, allocation);
      }
    }
  }

  /** The other fields. The CIDR text reads back as the network of the prefix, or as the IPv4 network a
      mapped one stands for, and the length is that of the prefix. The address is the one in the prefix that
      the copy returns, and lies in the network, unless the given prefix cuts an IPv4-mapped address short of
      its IPv4 part. */
  lemma DataDescribesPrefix(text: AddressText, allocation: GatewayAllocation, prefix: string)
    requires text.Faithful() && GetAdressInfo(text, allocation, prefix).Ok?
    ensures var data, n := GetAdressInfo(text, allocation, prefix).value, ParseCIDR(text, prefix).value.1;
      var cidr := ParseCIDR(text, data.cidr);
      && cidr.Ok? && cidr.value.1 == Unmapped(n) && (!Mapped(n) ==> cidr.value.1 == n)
      && data.prefixLength == n.ones
      && (NamesMember(text, n, data.address) <==> !CutsMapped(text, prefix))
      && (!Mapped(n) && !CutsMapped(text, prefix) ==>
           ParseCIDR(text, Joined(data.address, '/', data.prefixLength)) == ParseCIDR(text, data.prefix))
  {
    CidrReadsBack(text, ParseCIDR(text, prefix).value.1);
    AddressIsMember(text, allocation, prefix);
    if !Mapped(ParseCIDR(text, prefix).value.1) && !CutsMapped(text, prefix) {
      AddressIsOfPrefix(text, allocation, prefix);
    }
  }

  /** The address, with the length, reads back as the prefix does. */
  lemma AddressIsOfPrefix(text: AddressText, allocation: GatewayAllocation, prefix: string)
    requires text.Faithful() && GetAdressInfo(text, allocation, prefix).Ok?
    requires !Mapped(ParseCIDR(text, prefix).value.1) && !CutsMapped(text, prefix)
    ensures var data := GetAdressInfo(text, allocation, prefix).value;
      ParseCIDR(text, Joined(data.address, '/', data.prefixLength)) == ParseCIDR(text, data.prefix)
  {
    var (ip, n) := ParseCIDR(text, prefix).value;
    if !(IPString(text, ip) == IPString(text, n.ip) && n.ones != 31) {
      var c := text.parse(prefix).value;
      ParseCIDRExact(text, prefix);
      CanonicalExact(ip);
      assert |c.addr| == 16 ==> ip == c.addr;
      assert Canonical(ip) == c.addr;
      assert text.parse(text.Cidr(c.addr, c.ones)) == Some(c);
    }
  }

  ghost predicate NamesMember(text: AddressText, n: IPNet, address: string)
    requires n.Valid()
  {
    exists ip :: Contains(n, ip) && Canonical(ip) == ip && address == text.format(ip)
  }

  /** An IPv4-mapped address with a prefix length under 96: it prints and compares as an IPv4 address, its
      network as an IPv6 one. */
  predicate CutsMapped(text: AddressText, prefix: string)
  {
    var r := ParseCIDR(text, prefix);
    r.Ok? && To4(r.value.0).Some? && |r.value.1.ip| == 16 && !Mapped(r.value.1)
  }

  /** The network as `IPNet.String` prints it: a mapped one on its four IPv4 bytes. */
  function Unmapped(n: IPNet): IPNet
    requires n.Valid()
  {
    EffectiveMask(n);
    var nn := Canonical(n.ip);
    IPNet(nn, 8 * |nn| - (n.bits - n.ones), 8 * |nn|)
  }

  lemma CidrReadsBack(text: AddressText, n: IPNet)
    requires text.Faithful() && n.Valid()
    ensures var r := ParseCIDR(text, NetString(text, n));
      r.Ok? && r.value.1 == Unmapped(n) && (!Mapped(n) ==> Unmapped(n) == n)
  {
    EffectiveMask(n);
    UnmappedIsMasked(n);
    var nn := Canonical(n.ip);
    assert text.parse(NetString(text, n)) == Some(CidrParts(nn, 8 * |nn| - (n.bits - n.ones)));
  }

  /** The address of a network is masked under the mask that counts, mapped or not. */
  lemma UnmappedIsMasked(n: IPNet)
    requires n.Valid()
    ensures Unmapped(n).Valid()
  {
    EffectiveMask(n);
    var (nn, m) := NetworkNumberAndMask(n);
    var off := |n.ip| - |nn|;
    hide And, MaskByte;
    forall k | 0 <= k < |nn|
      ensures And(nn[k], m[k]) == nn[k]
    {
      assert MaskIP(n.ip, CIDRMask(n.ones, n.bits))[off + k] == n.ip[off + k];
    }
    assert MaskIP(nn, m) == nn;
  }

  lemma AddressIsMember(text: AddressText, allocation: GatewayAllocation, prefix: string)
    requires text.Faithful() && GetAdressInfo(text, allocation, prefix).Ok?
    ensures NamesMember(text, ParseCIDR(text, prefix).value.1, GetAdressInfo(text, allocation, prefix).value.address)
      <==> !CutsMapped(text, prefix)
  {
    var (ip, n) := ParseCIDR(text, prefix).value;
    if IPString(text, ip) == IPString(text, n.ip) {
      FormatInjective(text, ip, n.ip);
    }
    if IPString(text, ip) == IPString(text, n.ip) && n.ones != 31 {
      GatewayInNetwork(n, allocation);
      ContainsIsBlockMembership(n, GatewayIP(n, allocation).value);
    } else {
      KeptAddressIsMember(text, prefix);
    }
  }

  lemma KeptAddressIsMember(text: AddressText, prefix: string)
    requires text.Faithful() && ParseCIDR(text, prefix).Ok?
    ensures var (ip, n) := ParseCIDR(text, prefix).value;
      NamesMember(text, n, IPString(text, ip)) <==> !CutsMapped(text, prefix)
  {
    var (ip, n) := ParseCIDR(text, prefix).value;
    ParsedIsMember(text, prefix);
    CanonicalTwice(ip);
    assert Contains(n, Canonical(ip)) <==> Contains(n, ip);
    if a :| Contains(n, a) && Canonical(a) == a && IPString(text, ip) == text.format(a) {
      FormatInjective(text, ip, a);
    }
  }

  lemma CanonicalTwice(ip: IP)
    requires |ip| == 4 || |ip| == 16
    ensures Canonical(Canonical(ip)) == Canonical(ip)
  {
  }

  /** An address lies in its own network, with the same exception. */
  lemma ParsedIsMember(text: AddressText, prefix: string)
    requires ParseCIDR(text, prefix).Ok?
    ensures var (ip, n) := ParseCIDR(text, prefix).value; Contains(n, ip) <==> !CutsMapped(text, prefix)
  {
    var c := text.parse(prefix).value;
    var (ip, n) := ParseCIDR(text, prefix).value;
    MaskedIsMember(c, n, ip);
  }

  lemma MaskedIsMember(c: CidrText, n: IPNet, ip: IP)
    requires n.Valid() && n.bits == 8 * |c.addr| && n.ones == c.ones
    requires |CIDRMask(n.ones, n.bits)| == |c.addr| && n.ip == MaskIP(c.addr, CIDRMask(n.ones, n.bits))
    requires ip == if |c.addr| == 4 then V4_IN_V6_PREFIX + c.addr else c.addr
    ensures Contains(n, ip) <==> !(To4(ip).Some? && |n.ip| == 16 && !Mapped(n))
  {
    var l := |Canonical(n.ip)|;
    EffectiveMask(n);
    assert |c.addr| == 4 ==> ip[..12] == V4_IN_V6_PREFIX && ip[12..] == c.addr;
    if Mapped(n) {
      MappedOfMasked(c, n);
    }
    hide And, MaskByte;
    var m := CIDRMask(n.ones, n.bits);
    MaskTwice(c.addr, n.ones);
    forall k | 0 <= k < |n.ip|
      ensures And(n.ip[k], m[k]) == And(c.addr[k], m[k])
    {
      assert MaskIP(n.ip, m)[k] == MaskIP(c.addr, m)[k];
    }
  }

  /** Only a mapped address has a mapped network: the mask keeps its first twelve bytes. */
  lemma MappedOfMasked(c: CidrText, n: IPNet)
    requires n.Valid() && n.bits == 8 * |c.addr| && n.ones == c.ones && Mapped(n)
    requires |CIDRMask(n.ones, n.bits)| == |c.addr| && n.ip == MaskIP(c.addr, CIDRMask(n.ones, n.bits))
    ensures c.addr[..12] == V4_IN_V6_PREFIX
  {
    MappedNetworkLength(n);
    forall k | 0 <= k < 12
      ensures n.ip[k] == c.addr[k]
    {
      MaskedByte(c.addr[k], n.ones - 8 * k);
    }
    assert n.ip[..12] == c.addr[..12];
  }

  /** 2001:db8::/127 and 2001:db8::/31 are such network addresses. The controller keeps the first as it is
      and allocates a gateway in the second, the copy the other way round. */
  lemma DisagreeExample() returns (text: AddressText, a: string, b: string)
    ensures text.Faithful()
    ensures a == text.Cidr([32, 1, 13, 184, 0, 0, 0, 0, 0, 0, 0, 0, 0, 0, 0, 0], 127)
    ensures b == text.Cidr([32, 1, 13, 184, 0, 0, 0, 0, 0, 0, 0, 0, 0, 0, 0, 0], 31)
    ensures Normalise(text, V6_LINK, First, a) == Ok(a) != PrefixOf(GetAdressInfo(text, First, a))
    ensures Normalise(text, V6_LINK, First, b) != Ok(b) == PrefixOf(GetAdressInfo(text, First, b))
  {
    text := FaithfulExists();
    var ip: IP := [32, 1, 13, 184, 0, 0, 0, 0, 0, 0, 0, 0, 0, 0, 0, 0];
    a, b := text.Cidr(ip, 127), text.Cidr(ip, 31);
    ExampleParses(text, ip, 127);
    ExampleParses(text, ip, 31);
    AgreesWithIPv6InfoIff(text, First, a);
    AgreesWithIPv6InfoIff(text, First, b);
  }

  lemma ExampleParses(text: AddressText, ip: IP, ones: nat)
    requires text.Faithful() && 31 <= ones <= 128
    requires |ip| == 16 && ip[0] == 32 && ip[3] == 184 && forall k :: 4 <= k < 16 ==> ip[k] == 0
    ensures To4(ip).None? && ParseCIDR(text, text.Cidr(ip, ones)) == Ok((ip, IPNet(ip, ones, 128)))
  {
    hide And, MaskIP, CIDRMask;
    assert ip[..12][0] == 32;
    ExampleMasks(ip, ones);
  }

  lemma ExampleMasks(ip: IP, ones: nat)
    requires 31 <= ones <= 128
    requires |ip| == 16 && ip[3] == 184 && forall k :: 4 <= k < 16 ==> ip[k] == 0
    ensures |CIDRMask(ones, 128)| == 16 && MaskIP(ip, CIDRMask(ones, 128)) == ip
  {
    hide And, MaskByte;
    forall k | 0 <= k < 16
      ensures And(ip[k], MaskByte(ones - 8 * k)) == ip[k]
    {
      ExampleByte(ip[k], ones - 8 * k);
    }
  }

  lemma ExampleByte(x: byte, k: int)
    requires k >= 8 || (k == 7 && x == 184) || x == 0
    ensures And(x, MaskByte(k)) == x
  {
    MaskedByte(x, k);
    if k == 7 {
      assert Pow2(1) == 2;
    }
  }
}
