/** The gateway address of a prefix (internal/controllers/vpc/populate-srl.go): an address inside the
    prefix is kept as written, a network address is replaced by the first or last address of the
    network, except on point-to-point links (prefix length 31 for IPv4, section 2.1 of RFC 3021; 127
    for IPv6, section 6 of RFC 6164). */
module Gateway {
  import opened Wrappers
  import opened BigInt
  import opened Decimal
  import opened Net

  /** `First` stands for every configured value other than the one that asks for the last address. */
  datatype GatewayAllocation = First | Last

  datatype Address = Address(ipPrefix: string, anycastGw: Option<bool>)

  const V4_LINK := 31
  const V6_LINK := 127

  // ---------- address arithmetic ----------

  function BigForIP(ip: IP): nat {
    Value(Canonical(ip))
  }

  function AddIPOffset(base: nat, offset: int): IP {
    Bytes(Abs(base + offset))
  }

  function GetIndexedIP(subnet: IPNet, index: int): Result<IP>
    requires subnet.Valid()
  {
    var ip := AddIPOffset(BigForIP(subnet.ip), index);
    if Contains(subnet, ip) then Ok(ip) else Err(SubnetTooSmall(index))
  }

  function RangeSize(subnet: IPNet): int
    requires subnet.Valid()
  {
    var ones, bits := subnet.ones, subnet.bits;
    if (bits == 32 && bits - ones >= 31) || (bits == 128 && bits - ones >= 127) then 0
    else if bits == 128 && bits - ones >= 16 then Pow2(16)
    else Pow2(bits - ones)
  }

  function GetLastIP(subnet: IPNet): Result<IP>
    requires subnet.Valid()
  {
    var size := RangeSize(subnet);
    if size <= 0 then Err(NoRange) else GetIndexedIP(subnet, size - 1)
  }

  function GetFirstIP(subnet: IPNet): Result<IP>
    requires subnet.Valid()
  {
    GetIndexedIP(subnet, 1)
  }

  function GatewayIP(subnet: IPNet, allocation: GatewayAllocation): Result<IP>
    requires subnet.Valid()
  {
    match allocation
    case Last => GetLastIP(subnet)
    case First => GetFirstIP(subnet)
  }

  // ---------- normalising prefixes ----------

  /** `IP.String` */
  function IPString(text: AddressText, ip: IP): string {
    text.format(Canonical(ip))
  }

  /** The prefix one entry of the list is turned into; `link` is the point-to-point length. */
  function Normalise(text: AddressText, link: nat, allocation: GatewayAllocation, prefix: string): Result<string>
  {
    var (ip, n) :- ParseCIDR(text, prefix);
    if IPString(text, ip) == IPString(text, n.ip) && n.ones != link then
      var gateway :- GatewayIP(n, allocation);
      Ok(Joined(IPString(text, gateway), '/', n.ones))
    else
      Ok(prefix)
  }

  /** The address map of a list of prefixes, built from the front. */
  function Addresses(text: AddressText, link: nat, allocation: GatewayAllocation, prefixes: seq<string>)
    : Result<map<string, Address>>
  {
    if |prefixes| == 0 then Ok(map[])
    else
      var a :- Addresses(text, link, allocation, prefixes[..|prefixes| - 1]);
      var p :- Normalise(text, link, allocation, prefixes[|prefixes| - 1]);
      Ok(a[p := Address(p, None)])
  }

  /** `getIPv4Info` (with `V4_LINK`) and `getIPv6Info` (with `V6_LINK`), which differ in nothing else. */
  method GetAddresses(text: AddressText, link: nat, allocation: GatewayAllocation, prefixes: seq<string>)
    returns (r: Result<map<string, Address>>)
    ensures r == Addresses(text, link, allocation, prefixes)
  {
    hide Normalise;
    var a: map<string, Address> := map[];
    for i := 0 to |prefixes|
      invariant Addresses(text, link, allocation, prefixes[..i]) == Ok(a)
    {
      assert prefixes[..i + 1][..i] == prefixes[..i];
      var p := NormalisePrefix(text, link, allocation, prefixes[i]);
      if p.Err? {
        FirstFailure(text, link, allocation, prefixes, i + 1);
        return Err(p.error);
      }
      a := a[p.value := Address(p.value, None)];
    }
    assert prefixes[..|prefixes|] == prefixes;
    return Ok(a);
  }

  /** The body of the loop, up to the entry it stores. */
  method NormalisePrefix(text: AddressText, link: nat, allocation: GatewayAllocation, prefix: string)
    returns (r: Result<string>)
    ensures r == Normalise(text, link, allocation, prefix)
  {
    var parsed := ParseCIDR(text, prefix);
    if parsed.Err? {
      return Err(parsed.error);
    }
    var (ip, n) := parsed.value;
    if IPString(text, ip) == IPString(text, n.ip) && n.ones != link {
      var gateway := GatewayIP(n, allocation);
      if gateway.Err? {
        return Err(gateway.error);
      }
      return Ok(Joined(IPString(text, gateway.value), '/', n.ones));
    }
    return Ok(prefix);
  }

  lemma {:induction false} FirstFailure(
    text: AddressText, link: nat, allocation: GatewayAllocation, prefixes: seq<string>, i: nat)
    requires i <= |prefixes|
    requires Addresses(text, link, allocation, prefixes[..i]).Err?
    ensures Addresses(text, link, allocation, prefixes) == Addresses(text, link, allocation, prefixes[..i])
  {
    if i == |prefixes| {
      assert prefixes[..i] == prefixes;
    } else {
      var front := prefixes[..|prefixes| - 1];
      assert front[..i] == prefixes[..i];
      FirstFailure(text, link, allocation, front, i);
    }
  }

  // ---------- exactness of the arithmetic ----------

  /** A block of 2^h addresses does not reach past the end of the address space. */
  lemma BlockInsideSpace(n: IPNet)
    requires n.Valid()
    ensures BigForIP(n.ip) + BlockSize(n) <= Pow2(8 * |Canonical(n.ip)|)
  {
    var nn := Canonical(n.ip);
    var base, m, h := Value(nn), BlockSize(n), n.bits - n.ones;
    EffectiveMask(n);
    NetworkAligned(n);
    ValueBound(nn);
    Pow2Sum(8 * |nn| - h, h);
    AlignedBlockFits(base, Pow2(8 * |nn| - h), m);
  }

  lemma AlignedBlockFits(base: nat, c: nat, m: nat)
    requires m >= 1 && base % m == 0 && base < c * m
    ensures base + m <= c * m
  {
    QuotientBounds(base, m);
    QuotientUnique(c * m, m, c);
    if base + m > c * m {
      QuotientUnique(c * m, m, base / m);
    }
  }

  /** A minimal encoding has no leading zero byte, so it is never an IPv4-mapped address. */
  lemma EncodingIsCanonical(v: nat)
    ensures Canonical(Bytes(v)) == Bytes(v)
  {
    ValueOfBytes(v);
    var b := Bytes(v);
    if |b| == 16 {
      assert b[..12][0] == b[0];
    }
  }

  /** Indexing succeeds iff the number reached lies in the network and still fills every byte of the
      address; for the indexes the controller uses that is index < 2^h and base + index >= 2^(bits - 8).
      It returns exactly base + index. */
  lemma GetIndexedIPExact(subnet: IPNet, index: int)
    requires subnet.Valid()
    ensures var base, w, r := BigForIP(subnet.ip), |Canonical(subnet.ip)|, GetIndexedIP(subnet, index);
      && (r.Ok? <==> base <= Abs(base + index) < base + BlockSize(subnet) && Abs(base + index) >= Pow2(8 * w - 8))
      && (index >= 0 ==> (r.Ok? <==> index < BlockSize(subnet) && base + index >= Pow2(8 * w - 8)))
      && (r.Ok? ==> |r.value| == w && Canonical(r.value) == r.value && Value(r.value) == Abs(base + index))
  {
    var base := BigForIP(subnet.ip);
    var v := Abs(base + index);
    EncodingIsCanonical(v);
    ValueOfBytes(v);
    BytesLength(v, |Canonical(subnet.ip)|);
    BlockInsideSpace(subnet);
    ContainsIsBlockMembership(subnet, Bytes(v));
  }

  /** The range never overflows an int64; it is 2^h, cut at 65536 for IPv6, or 0 when too large. */
  lemma RangeSizeExact(subnet: IPNet)
    requires subnet.Valid()
    ensures var size, h := RangeSize(subnet), subnet.bits - subnet.ones;
      && 0 <= size <= 0x4000_0000
      && size <= BlockSize(subnet)
      && (size == 0 <==> h >= subnet.bits - 1)
      && (size > 0 && subnet.bits == 32 ==> size == BlockSize(subnet))
      && (size > 0 && subnet.bits == 128 ==> size == if BlockSize(subnet) <= 65536 then BlockSize(subnet) else 65536)
      && (size == 1 <==> h == 0)
  {
    var h := subnet.bits - subnet.ones;
    assert Pow2(16) == 65536 by { Pow2Byte(8); }
    assert Pow2(30) == 0x4000_0000 by {
      Pow2Byte(16);
      Pow2Byte(22);
      Pow2Byte(14);
      Pow2Byte(6);
      assert Pow2(6) == 64;
    }
    if h <= 30 {
      Pow2Monotone(h, 30);
    }
    if h >= 16 {
      Pow2Monotone(16, h);
    } else {
      Pow2Monotone(h, 15);
    }
    if h >= 1 {
      Pow2Monotone(1, h);
    }
  }

  /** The last address lies at offset size - 1; it exists iff there is a range and the address it
      reaches fills every byte. */
  lemma GetLastIPExact(subnet: IPNet)
    requires subnet.Valid()
    ensures var base, size, r := BigForIP(subnet.ip), RangeSize(subnet), GetLastIP(subnet);
      && (r.Ok? <==> size > 0 && base + size - 1 >= Pow2(8 * |Canonical(subnet.ip)| - 8))
      && (Canonical(subnet.ip)[0] != 0 ==> (r.Ok? <==> subnet.ones >= 2))
      && (r.Ok? ==> Value(r.value) == base + size - 1)
  {
    hide GetIndexedIP, RangeSize, Pow2;
    RangeSizeExact(subnet);
    LeadingByte(Canonical(subnet.ip));
    if RangeSize(subnet) > 0 {
      GetIndexedIPExact(subnet, RangeSize(subnet) - 1);
    }
  }

  /** The first address fails only on a full-length prefix, once the leading byte is not zero. */
  lemma GetFirstIPExact(subnet: IPNet)
    requires subnet.Valid()
    ensures var base, r := BigForIP(subnet.ip), GetFirstIP(subnet);
      && (Canonical(subnet.ip)[0] != 0 ==> (r.Ok? <==> subnet.ones < subnet.bits))
      && (r.Ok? ==> Value(r.value) == base + 1)
  {
    GetIndexedIPExact(subnet, 1);
    LeadingByte(Canonical(subnet.ip));
    if subnet.ones < subnet.bits {
      Pow2Monotone(1, subnet.bits - subnet.ones);
    }
  }

  /** Either way the gateway lies in the network, and it is the network address itself only when the
      network is that one address. */
  lemma GatewayInNetwork(n: IPNet, allocation: GatewayAllocation)
    requires n.Valid() && GatewayIP(n, allocation).Ok?
    ensures var gateway, base := GatewayIP(n, allocation).value, BigForIP(n.ip);
      && |gateway| == |Canonical(n.ip)| && Canonical(gateway) == gateway
      && base <= Value(gateway) < base + BlockSize(n)
      && (gateway == Canonical(n.ip) <==> n.ones == n.bits)
  {
    RangeSizeExact(n);
    GetIndexedIPExact(n, if allocation.Last? then RangeSize(n) - 1 else 1);
    ValueInjective(GatewayIP(n, allocation).value, Canonical(n.ip));
  }

  /** Which address each strategy gives, and when there is one. `First` is the one after the network
      address; there is none in a network of one address. `Last` is the last of the network, or of its first
      65536 addresses in IPv6; there is none where all but one bit or all bits are host bits. Neither is
      given if it does not fill every byte of an address. */
  lemma GatewayIPExact(n: IPNet, allocation: GatewayAllocation)
    requires n.Valid()
    ensures var base, w, r := BigForIP(n.ip), |Canonical(n.ip)|, GatewayIP(n, allocation);
      var last := GatewayNumber(n, Last);
      && GatewayNumber(n, First) == base + 1
      && (n.bits == 32 || n.bits - n.ones <= 16 ==> last == base + Pow2(n.bits - n.ones) - 1)
      && (n.bits == 128 && n.bits - n.ones >= 16 ==> last == base + 65535)
      && (r.Ok? ==> Value(r.value) == GatewayNumber(n, allocation))
      && (r.Ok? <==>
           && (if allocation.First? then n.ones < n.bits else n.ones >= 2)
           && GatewayNumber(n, allocation) >= Pow2(8 * w - 8))
  {
    GatewayNumbers(n);
    hide GetIndexedIP, RangeSize, Pow2;
    match allocation {
      case First =>
        assert BlockSize(n) > 1 <==> n.ones < n.bits by { BlockOfOne(n); }
        GetIndexedIPExact(n, 1);
      case Last =>
        RangeSizeExact(n);
        GetLastIPExact(n);
    }
  }

  lemma BlockOfOne(n: IPNet)
    requires n.ones <= n.bits
    ensures BlockSize(n) == 1 <==> n.ones == n.bits
  {
    if n.ones < n.bits {
      Pow2Monotone(1, n.bits - n.ones);
    }
  }

  lemma GatewayNumbers(n: IPNet)
    requires n.Valid()
    ensures GatewayNumber(n, First) == BigForIP(n.ip) + 1
    ensures n.bits == 32 || n.bits - n.ones <= 16 ==>
      GatewayNumber(n, Last) == BigForIP(n.ip) + Pow2(n.bits - n.ones) - 1
    ensures n.bits == 128 && n.bits - n.ones >= 16 ==> GatewayNumber(n, Last) == BigForIP(n.ip) + 65535
  {
    var h: nat := n.bits - n.ones;
    hide IPNet.Valid, BigForIP;
    assert Pow2(16) == 65536 by { Pow2Byte(8); }
    if h <= 16 {
      Pow2Monotone(h, 16);
    } else {
      Pow2Monotone(16, h);
    }
  }

  /** The number of the address a strategy asks for. */
  function GatewayNumber(n: IPNet, allocation: GatewayAllocation): nat
    requires n.Valid()
  {
    var size := if n.bits == 128 && BlockSize(n) > 65536 then 65536 else BlockSize(n);
    BigForIP(n.ip) + if allocation.First? then 1 else size - 1
  }

  // ---------- the address map ----------

  ghost predicate EachNormalises(text: AddressText, link: nat, allocation: GatewayAllocation, prefixes: seq<string>)
  {
    forall p :: p in prefixes ==> Normalise(text, link, allocation, p).Ok?
  }

  ghost function Images(text: AddressText, link: nat, allocation: GatewayAllocation, prefixes: seq<string>): set<string>
    requires EachNormalises(text, link, allocation, prefixes)
  {
    set p | p in prefixes :: Normalise(text, link, allocation, p).value
  }

  /** The entries of an address map: each carries its own key. */
  ghost function Entries(keys: set<string>): map<string, Address> {
    map k | k in keys :: Address(k, None)
  }

  /** The result is a function of the set of prefixes: it succeeds iff every prefix does on its own,
      its keys are their images, and each entry carries its own key. */
  lemma {:induction false} AddressesExact(
    text: AddressText, link: nat, allocation: GatewayAllocation, prefixes: seq<string>)
    ensures Addresses(text, link, allocation, prefixes).Ok? <==> EachNormalises(text, link, allocation, prefixes)
    ensures EachNormalises(text, link, allocation, prefixes) ==>
      Addresses(text, link, allocation, prefixes).value == Entries(Images(text, link, allocation, prefixes))
  {
    hide Normalise;
    var n := |prefixes|;
    if n != 0 {
      var front, last := prefixes[..n - 1], prefixes[n - 1];
      AddressesExact(text, link, allocation, front);
      assert prefixes == front + [last];
      assert EachNormalises(text, link, allocation, prefixes) <==>
        EachNormalises(text, link, allocation, front) && Normalise(text, link, allocation, last).Ok?;
      if EachNormalises(text, link, allocation, prefixes) {
        var images, image := Images(text, link, allocation, front), Normalise(text, link, allocation, last).value;
        assert Images(text, link, allocation, prefixes) == images + {image};
        EntriesAdd(images, image);
      }
    }
  }

  lemma EntriesAdd(keys: set<string>, k: string)
    ensures Entries(keys + {k}) == Entries(keys)[k := Address(k, None)]
  {
  }

  /** A failure is that of the first prefix that fails. */
  lemma {:induction false} FirstError(
    text: AddressText, link: nat, allocation: GatewayAllocation, prefixes: seq<string>) returns (k: nat)
    requires Addresses(text, link, allocation, prefixes).Err?
    ensures k < |prefixes| && EachNormalises(text, link, allocation, prefixes[..k])
    ensures Normalise(text, link, allocation, prefixes[k]).Err?
    ensures Addresses(text, link, allocation, prefixes).error == Normalise(text, link, allocation, prefixes[k]).error
  {
    hide Normalise;
    var n := |prefixes| - 1;
    if Addresses(text, link, allocation, prefixes[..n]).Err? {
      k := FirstError(text, link, allocation, prefixes[..n]);
      assert prefixes[..n][..k] == prefixes[..k];
    } else {
      k := n;
      AddressesExact(text, link, allocation, prefixes[..n]);
    }
  }

  lemma AddressesDependOnSet(
    text: AddressText, link: nat, allocation: GatewayAllocation, ps: seq<string>, qs: seq<string>)
    requires forall p :: p in ps <==> p in qs
    ensures Addresses(text, link, allocation, ps).Ok? <==> Addresses(text, link, allocation, qs).Ok?
    ensures Addresses(text, link, allocation, ps).Ok? ==>
      Addresses(text, link, allocation, ps) == Addresses(text, link, allocation, qs)
  {
    AddressesExact(text, link, allocation, ps);
    AddressesExact(text, link, allocation, qs);
    if EachNormalises(text, link, allocation, ps) {
      assert Images(text, link, allocation, ps) == Images(text, link, allocation, qs);
    }
  }

  // ---------- what normalising keeps ----------

  /** The branch that allocates a gateway: a network address off the point-to-point length. */
  predicate AllocatesGateway(text: AddressText, link: nat, prefix: string)
  {
    var r := ParseCIDR(text, prefix);
    r.Ok? && IPString(text, r.value.0) == IPString(text, r.value.1.ip) && r.value.1.ones != link
  }

  /** An IPv6 network of IPv4-mapped addresses. Go prints those as IPv4. */
  predicate Mapped(n: IPNet) {
    |n.ip| == 16 && To4(n.ip).Some?
  }

  /** Printing is injective on addresses as Go prints them. */
  lemma FormatInjective(text: AddressText, a: IP, b: IP)
    requires text.Faithful()
    requires |a| == 4 || |a| == 16
    requires |b| == 4 || |b| == 16
    requires IPString(text, a) == IPString(text, b)
    ensures Canonical(a) == Canonical(b)
  {
    assert text.Cidr(Canonical(a), 0) == text.Cidr(Canonical(b), 0);
  }

  /** A normalised prefix denotes the network and length it came from, except a gateway allocated in
      an IPv4-mapped network: that one is IPv4 text with an IPv6 length, and no longer parses. */
  lemma NormaliseKeepsNetwork(text: AddressText, link: nat, allocation: GatewayAllocation, prefix: string)
    requires text.Faithful() && Normalise(text, link, allocation, prefix).Ok?
    ensures var n := ParseCIDR(text, prefix).value.1;
      var r := ParseCIDR(text, Normalise(text, link, allocation, prefix).value);
      if AllocatesGateway(text, link, prefix) && Mapped(n) then r.Err?
      else r.Ok? && r.value.1 == n
  {
    var n := ParseCIDR(text, prefix).value.1;
    if AllocatesGateway(text, link, prefix) {
      GatewayInNetwork(n, allocation);
      var gateway := GatewayIP(n, allocation).value;
      assert Normalise(text, link, allocation, prefix).value == text.Cidr(gateway, n.ones);
      if Mapped(n) {
        MappedNetworkLength(n);
      } else {
        GatewayReparses(text, n, allocation);
      }
    }
  }

  /** The text of an allocated gateway reads back as that address in that network. */
  lemma GatewayReparses(text: AddressText, n: IPNet, allocation: GatewayAllocation)
    requires text.Faithful() && n.Valid() && !Mapped(n) && GatewayIP(n, allocation).Ok?
    ensures var gateway := GatewayIP(n, allocation).value;
      var r := ParseCIDR(text, text.Cidr(gateway, n.ones));
      r.Ok? && Canonical(r.value.0) == gateway && r.value.1 == n
  {
    GatewayInNetwork(n, allocation);
    var gateway := GatewayIP(n, allocation).value;
    NetworkOfMember(n, gateway);
    if |gateway| == 4 {
      assert (V4_IN_V6_PREFIX + gateway)[..12] == V4_IN_V6_PREFIX;
      assert (V4_IN_V6_PREFIX + gateway)[12..] == gateway;
    }
  }

  /** Masking any member of a network gives the network back. */
  lemma NetworkOfMember(n: IPNet, ip: IP)
    requires n.Valid() && !Mapped(n) && |ip| == |n.ip|
    requires BigForIP(n.ip) <= Value(ip) < BigForIP(n.ip) + BlockSize(n)
    ensures |CIDRMask(n.ones, n.bits)| == |ip| && MaskIP(ip, CIDRMask(n.ones, n.bits)) == n.ip
  {
    NetworkAligned(n);
    SameBlock(Value(n.ip), Value(ip), BlockSize(n));
    MaskedEqualIffSameBlock(ip, n.ip, n.ones);
  }

  /** What becomes of a prefix. One that is not a network address, or has the point-to-point length, is kept
      as written; one that does not parse is refused; otherwise it becomes the text of the gateway. */
  lemma NormaliseExact(text: AddressText, link: nat, allocation: GatewayAllocation, prefix: string)
    requires text.Faithful()
    ensures var r := Normalise(text, link, allocation, prefix);
      match text.parse(prefix)
      case None => r.Err?
      case Some(c) =>
        var n := ParseCIDR(text, prefix).value.1;
        if Value(c.addr) % Pow2(8 * |c.addr| - c.ones) != 0 || c.ones == link then r == Ok(prefix)
        else
          && r.Ok? == GatewayIP(n, allocation).Ok?
          && (r.Ok? && !Mapped(n) ==>
               var p := ParseCIDR(text, r.value);
               p.Ok? && p.value.1 == n && BigForIP(p.value.0) == GatewayNumber(n, allocation))
  {
    ParseCIDRExact(text, prefix);
    match text.parse(prefix)
    case None =>
    case Some(c) =>
      NetworkAddressIff(text, prefix);
      var n := ParseCIDR(text, prefix).value.1;
      if AllocatesGateway(text, link, prefix) && GatewayIP(n, allocation).Ok? {
        GatewayIPExact(n, allocation);
        GatewayInNetwork(n, allocation);
        assert Normalise(text, link, allocation, prefix) == Ok(text.Cidr(GatewayIP(n, allocation).value, n.ones));
        if !Mapped(n) {
          GatewayReparses(text, n, allocation);
        }
      }
  }

  /** The comparison of texts finds the network addresses: the numbers that are multiples of 2^(host bits). */
  lemma NetworkAddressIff(text: AddressText, prefix: string)
    requires text.Faithful() && ParseCIDR(text, prefix).Ok?
    ensures var (ip, n) := ParseCIDR(text, prefix).value;
      var c := text.parse(prefix).value;
      IPString(text, ip) == IPString(text, n.ip) <==> Value(c.addr) % Pow2(8 * |c.addr| - c.ones) == 0
  {
    var (ip, n) := ParseCIDR(text, prefix).value;
    var c := text.parse(prefix).value;
    ParseCIDRExact(text, prefix);
    ValueInjective(n.ip, c.addr);
    CanonicalExact(ip);
    if IPString(text, ip) == IPString(text, n.ip) {
      FormatInjective(text, ip, n.ip);
      CanonicalDetermines(ip, n.ip, c.addr);
    }
  }

  lemma CanonicalDetermines(ip: IP, start: IP, addr: IP)
    requires |addr| == 4 || |addr| == 16
    requires |start| == |addr| && Canonical(ip) == Canonical(start)
    requires ip == (if |addr| == 4 then [0, 0, 0, 0, 0, 0, 0, 0, 0, 0, 255, 255] else []) + addr
    ensures start == addr
  {
    CanonicalExact(ip);
    CanonicalExact(start);
    if |addr| == 16 {
      assert ip == addr;
      assert addr == addr[..12] + addr[12..] && start == start[..12] + start[12..];
    }
  }

  /** Normalising again changes nothing, with exactly that exception. */
  lemma NormaliseIdempotent(text: AddressText, link: nat, allocation: GatewayAllocation, prefix: string)
    requires text.Faithful() && Normalise(text, link, allocation, prefix).Ok?
    ensures var p := Normalise(text, link, allocation, prefix);
      Normalise(text, link, allocation, p.value) == p
      <==> !(AllocatesGateway(text, link, prefix) && Mapped(ParseCIDR(text, prefix).value.1))
  {
    NormaliseKeepsNetwork(text, link, allocation, prefix);
    var n := ParseCIDR(text, prefix).value.1;
    if AllocatesGateway(text, link, prefix) && !Mapped(n) {
      GatewayInNetwork(n, allocation);
      GatewayReparses(text, n, allocation);
      var gateway := GatewayIP(n, allocation).value;
      var again := ParseCIDR(text, text.Cidr(gateway, n.ones)).value;
      if IPString(text, again.0) == IPString(text, n.ip) {
        FormatInjective(text, again.0, n.ip);
      }
    }
  }

  /** Running the whole computation on its own output returns that output, unless an IPv4-mapped
      network asked for a gateway. */
  lemma AddressesIdempotent(
    text: AddressText, link: nat, allocation: GatewayAllocation, prefixes: seq<string>, keys: seq<string>)
    requires text.Faithful() && Addresses(text, link, allocation, prefixes).Ok?
    requires forall k :: k in keys <==> k in Addresses(text, link, allocation, prefixes).value
    ensures Addresses(text, link, allocation, keys) == Addresses(text, link, allocation, prefixes)
      <==> forall p :: p in prefixes && AllocatesGateway(text, link, p) ==> !Mapped(ParseCIDR(text, p).value.1)
  {
    AddressesExact(text, link, allocation, prefixes);
    AddressesExact(text, link, allocation, keys);
    if p :| p in prefixes && AllocatesGateway(text, link, p) && Mapped(ParseCIDR(text, p).value.1) {
      MappedGatewayFails(text, link, allocation, keys, p);
    } else {
      ImagesAreFixed(text, link, allocation, prefixes, keys);
    }
  }

  lemma MappedGatewayFails(
    text: AddressText, link: nat, allocation: GatewayAllocation, keys: seq<string>, p: string)
    requires text.Faithful() && Normalise(text, link, allocation, p).Ok?
    requires AllocatesGateway(text, link, p) && Mapped(ParseCIDR(text, p).value.1)
    requires Normalise(text, link, allocation, p).value in keys
    ensures !EachNormalises(text, link, allocation, keys)
  {
    NormaliseKeepsNetwork(text, link, allocation, p);
    var k := Normalise(text, link, allocation, p).value;
    assert k in keys && Normalise(text, link, allocation, k).Err?;
  }

  lemma ImagesAreFixed(
    text: AddressText, link: nat, allocation: GatewayAllocation, prefixes: seq<string>, keys: seq<string>)
    requires text.Faithful() && EachNormalises(text, link, allocation, prefixes)
    requires forall k :: k in keys <==> k in Images(text, link, allocation, prefixes)
    requires forall p :: p in prefixes && AllocatesGateway(text, link, p) ==> !Mapped(ParseCIDR(text, p).value.1)
    ensures EachNormalises(text, link, allocation, keys)
    ensures Images(text, link, allocation, keys) == Images(text, link, allocation, prefixes)
  {
    hide Normalise, AllocatesGateway, Mapped, ParseCIDR;
    forall k | k in keys
      ensures Normalise(text, link, allocation, k) == Ok(k)
    {
      var p :| p in prefixes && Normalise(text, link, allocation, p).value == k;
      NormaliseIdempotent(text, link, allocation, p);
    }
  }

  /** ::ffff:10.0.0.0/104 is such a prefix: its gateway is 10.0.0.1, and 10.0.0.1/104 does not parse. */
  lemma MappedExample() returns (text: AddressText, prefix: string)
    ensures text.Faithful() && ParseCIDR(text, prefix).Ok?
    ensures ParseCIDR(text, prefix).value.1
      == IPNet([0, 0, 0, 0, 0, 0, 0, 0, 0, 0, 255, 255, 10, 0, 0, 0], 104, 128)
    ensures Normalise(text, V6_LINK, First, prefix) == Ok(text.Cidr([10, 0, 0, 1], 104))
    ensures Normalise(text, V6_LINK, First, text.Cidr([10, 0, 0, 1], 104)).Err?
  {
    text := FaithfulExists();
    var ip: IP := V4_IN_V6_PREFIX + [10, 0, 0, 0];
    prefix := text.Cidr(ip, 104);
    var c: CidrText := CidrParts(ip, 104);
    assert text.parse(text.Cidr(c.addr, c.ones)) == Some(c);
    MappedExampleNetwork(ip);
    MappedExampleGateway(IPNet(ip, 104, 128));
    hide GetFirstIP, MaskIP, CIDRMask;
    assert ip == [0, 0, 0, 0, 0, 0, 0, 0, 0, 0, 255, 255, 10, 0, 0, 0];
  }

  lemma MappedExampleNetwork(ip: IP)
    requires ip == V4_IN_V6_PREFIX + [10, 0, 0, 0]
    ensures IPNet(ip, 104, 128).Valid() && Canonical(ip) == [10, 0, 0, 0]
  {
    hide And, MaskByte;
    var mask := CIDRMask(104, 128);
    forall k | 0 <= k < 16
      ensures And(ip[k], mask[k]) == ip[k]
    {
      MaskedByte(ip[k], 104 - 8 * k);
    }
    assert MaskIP(ip, mask) == ip;
    assert ip[..12] == V4_IN_V6_PREFIX && ip[12..] == [10, 0, 0, 0];
  }

  lemma MappedExampleGateway(n: IPNet)
    requires n.Valid() && Canonical(n.ip) == [10, 0, 0, 0] && n.ones < n.bits
    ensures GetFirstIP(n) == Ok([10, 0, 0, 1])
  {
    GetFirstIPExact(n);
    GatewayInNetwork(n, First);
    var g, start := GetFirstIP(n).value, [10, 0, 0];
    assert Canonical(n.ip)[..3] == start && [10, 0, 0, 1][..3] == start;
    assert Value([10, 0, 0, 1]) == Value(Canonical(n.ip)) + 1;
    ValueInjective(g, [10, 0, 0, 1]);
  }

  /** Gateways allocated in different networks are different entries. */
  lemma GatewaysNeverCollide(text: AddressText, link: nat, allocation: GatewayAllocation, p: string, q: string)
    requires text.Faithful()
    requires AllocatesGateway(text, link, p) && AllocatesGateway(text, link, q)
    requires Normalise(text, link, allocation, p).Ok?
    requires Normalise(text, link, allocation, p) == Normalise(text, link, allocation, q)
    ensures ParseCIDR(text, p).value.1 == ParseCIDR(text, q).value.1
  {
    var m, n := ParseCIDR(text, p).value.1, ParseCIDR(text, q).value.1;
    var g, h := GatewayIP(m, allocation).value, GatewayIP(n, allocation).value;
    GatewayInNetwork(m, allocation);
    GatewayInNetwork(n, allocation);
    JoinedInjective(IPString(text, g), m.ones, IPString(text, h), n.ones, '/');
    FormatInjective(text, g, h);
    if Mapped(m) { MappedNetworkLength(m); }
    if Mapped(n) { MappedNetworkLength(n); }
    hide GetIndexedIP, GetLastIP, GetFirstIP, RangeSize, Normalise, AllocatesGateway, GatewayIP;
    SharedMember(m, n, Value(g));
  }

  /** Two networks of the same shape with a common member are the same network. */
  lemma SharedMember(m: IPNet, n: IPNet, v: nat)
    requires m.Valid() && n.Valid() && m.bits == n.bits && m.ones == n.ones && Mapped(m) == Mapped(n)
    requires BigForIP(m.ip) <= v < BigForIP(m.ip) + BlockSize(m)
    requires BigForIP(n.ip) <= v < BigForIP(n.ip) + BlockSize(n)
    ensures m == n
  {
    NetworkAligned(m);
    NetworkAligned(n);
    SameStart(BigForIP(m.ip), BigForIP(n.ip), v, BlockSize(m));
    ValueInjective(Canonical(m.ip), Canonical(n.ip));
    if Mapped(m) {
      assert m.ip == m.ip[..12] + m.ip[12..] && n.ip == n.ip[..12] + n.ip[12..];
    }
  }

  lemma SameStart(a: nat, b: nat, v: nat, m: nat)
    requires m >= 1 && a % m == 0 && b % m == 0 && a <= v < a + m && b <= v < b + m
    ensures a == b
  {
    SameBlock(a, v, m);
    SameBlock(b, v, m);
    QuotientBounds(a, m);
    QuotientBounds(b, m);
  }

  // ---------- prefixes with and without a gateway ----------

  /** The first gateway of an IPv4 network of length 24 that starts with a non-zero byte. */
  lemma V4NetworkGetsGateway(text: AddressText, a: byte, b: byte, c: byte)
    requires text.Faithful() && a != 0
    ensures var p := text.Cidr([a, b, c, 0], 24);
      && AllocatesGateway(text, V4_LINK, p)
      && Normalise(text, V4_LINK, First, p) == Ok(text.Cidr([a, b, c, 1], 24))
      && ParseCIDR(text, p).value.1.ip == [a, b, c, 0]
  {
    var ip: IP := [a, b, c, 0];
    V4NetworkParses(text, ip);
    FirstOfV4Network(IPNet(ip, 24, 32));
  }

  lemma V4NetworkParses(text: AddressText, ip: IP)
    requires text.Faithful() && |ip| == 4 && ip[3] == 0
    ensures ParseCIDR(text, text.Cidr(ip, 24)) == Ok((V4_IN_V6_PREFIX + ip, IPNet(ip, 24, 32)))
    ensures Canonical(V4_IN_V6_PREFIX + ip) == ip
  {
    var mask := CIDRMask(24, 32);
    MaskedByte(ip[0], 24);
    MaskedByte(ip[1], 16);
    MaskedByte(ip[2], 8);
    MaskedByte(0, 0);
    assert MaskIP(ip, mask) == ip;
    assert (V4_IN_V6_PREFIX + ip)[..12] == V4_IN_V6_PREFIX && (V4_IN_V6_PREFIX + ip)[12..] == ip;
  }

  lemma FirstOfV4Network(n: IPNet)
    requires n.Valid() && |n.ip| == 4 && n.ip[0] != 0 && n.ip[3] == 0 && n.ones < n.bits
    ensures GetFirstIP(n) == Ok([n.ip[0], n.ip[1], n.ip[2], 1])
  {
    GetFirstIPExact(n);
    GatewayInNetwork(n, First);
    var first: IP := [n.ip[0], n.ip[1], n.ip[2], 1];
    assert n.ip[..3] == first[..3];
    assert Value(first) == Value(n.ip) + 1;
    ValueInjective(GetFirstIP(n).value, first);
  }

  lemma V6PrefixNormalises(text: AddressText, ip: IP)
    requires text.Faithful() && |ip| == 16 && ip[0] != 0
    ensures Normalise(text, V6_LINK, First, text.Cidr(ip, 64)).Ok?
  {
    assert ip[..12][0] == ip[0];
    var n := ParseCIDR(text, text.Cidr(ip, 64)).value.1;
    assert n.ip[0] == And(ip[0], MaskByte(64));
    MaskedByte(ip[0], 64);
    assert n.ip[..12][0] == n.ip[0];
    GetFirstIPExact(n);
  }

  /** Under `Last`, 100.112.2.0/24 becomes 100.112.2.255/24. */
  lemma LastExample() returns (text: AddressText)
    ensures text.Faithful()
    ensures Normalise(text, V4_LINK, Last, text.Cidr([100, 112, 2, 0], 24)) == Ok(text.Cidr([100, 112, 2, 255], 24))
  {
    text := FaithfulExists();
    LastOfV4Text(text, 100, 112, 2);
  }

  lemma LastOfV4Text(text: AddressText, a: byte, b: byte, c: byte)
    requires text.Faithful() && a != 0
    ensures Normalise(text, V4_LINK, Last, text.Cidr([a, b, c, 0], 24)) == Ok(text.Cidr([a, b, c, 255], 24))
  {
    V4NetworkGetsGateway(text, a, b, c);
    V4NetworkParses(text, [a, b, c, 0]);
    LastOfV4Network(IPNet([a, b, c, 0], 24, 32));
  }

  /** In an IPv6 network of length 64 the last of the first 65536 addresses ends in ffff. */
  lemma LastOfV6Text(text: AddressText, start: IP)
    requires text.Faithful() && |start| == 8 && start[0] != 0
    ensures Normalise(text, V6_LINK, Last, text.Cidr(start + [0, 0, 0, 0, 0, 0, 0, 0], 64))
      == Ok(text.Cidr(start + [0, 0, 0, 0, 0, 0, 255, 255], 64))
  {
    var ip := start + [0, 0, 0, 0, 0, 0, 0, 0];
    assert ip[..12][0] == start[0];
    V6NetworkMasked(ip);
    assert ParseCIDR(text, text.Cidr(ip, 64)) == Ok((ip, IPNet(ip, 64, 128)));
    LastOfV6Network(IPNet(ip, 64, 128));
    var last := ip[..14] + [255, 255];
    assert last == start + [0, 0, 0, 0, 0, 0, 255, 255];
    hide GatewayIP, MaskIP, CIDRMask, ParseCIDR;
    assert last[..12][0] == start[0] && To4(last).None?;
    assert Normalise(text, V6_LINK, Last, text.Cidr(ip, 64)) == Ok(text.Cidr(last, 64));
  }

  lemma V6NetworkMasked(ip: IP)
    requires |ip| == 16 && forall k :: 8 <= k < 16 ==> ip[k] == 0
    ensures MaskIP(ip, CIDRMask(64, 128)) == ip
  {
    hide And, MaskByte;
    forall k | 0 <= k < 16
      ensures And(ip[k], MaskByte(64 - 8 * k)) == ip[k]
    {
      MaskedByte(ip[k], 64 - 8 * k);
    }
  }

  lemma LastOfV6Network(n: IPNet)
    requires n.Valid() && |n.ip| == 16 && n.ip[0] != 0 && n.ip[14] == 0 && n.ip[15] == 0 && n.ones == 64
    ensures GatewayIP(n, Last) == Ok(n.ip[..14] + [255, 255])
  {
    assert n.ip[..12][0] != V4_IN_V6_PREFIX[0];
    var last: IP := n.ip[..14] + [255, 255];
    NextTo(n.ip, last);
    GatewayNumbers(n);
    hide GatewayNumber, Value, IPNet.Valid, GatewayIP, Pow2;
    LastIs(n, last);
  }

  lemma LastOfV4Network(n: IPNet)
    requires n.Valid() && |n.ip| == 4 && n.ip[0] != 0 && n.ip[3] == 0 && n.ones == 24
    ensures GatewayIP(n, Last) == Ok([n.ip[0], n.ip[1], n.ip[2], 255])
  {
    assert Pow2(8) == 256 by { Pow2Byte(0); }
    var last: IP := [n.ip[0], n.ip[1], n.ip[2], 255];
    assert n.ip[..3] == last[..3];
    LastIs(n, last);
  }

  /** Two zero bytes at the end become 255 each. */
  lemma NextTo(a: IP, b: IP)
    requires |a| == 16 && a[14] == 0 && a[15] == 0 && b == a[..14] + [255, 255]
    ensures Value(b) == Value(a) + 65535
  {
    assert a[..15][..14] == a[..14] == b[..15][..14];
    assert Value(a[..15]) == 256 * Value(a[..14]) && Value(b[..15]) == 256 * Value(a[..14]) + 255;
  }

  /** An address with the number of the last one, and no zero byte in front, is the last one. */
  lemma LastIs(n: IPNet, last: IP)
    requires n.Valid() && 2 <= n.ones && Canonical(n.ip) == n.ip && n.ip[0] != 0
    requires |last| == |n.ip| && Value(last) == GatewayNumber(n, Last)
    ensures GatewayIP(n, Last) == Ok(last)
  {
    GatewayIPExact(n, Last);
    hide GatewayIP, GatewayNumber, IPNet.Valid;
    LeadingByte(n.ip);
    LastFound(n, last);
  }

  lemma LastFound(n: IPNet, last: IP)
    requires n.Valid() && GatewayIP(n, Last).Ok? && Canonical(n.ip) == n.ip
    requires |last| == |n.ip| && Value(last) == GatewayNumber(n, Last)
    ensures GatewayIP(n, Last) == Ok(last)
  {
    GatewayIPExact(n, Last);
    GatewayInNetwork(n, Last);
    hide GatewayIP, GatewayNumber, IPNet.Valid;
    ValueInjective(GatewayIP(n, Last).value, last);
  }

  /** 64:ff9b::/96 starts with a zero byte. Its first gateway, 64:ff9b::1, is refused. */
  lemma ZeroByteExample() returns (text: AddressText, prefix: string)
    ensures text.Faithful() && prefix == text.Cidr([0, 100, 255, 155, 0, 0, 0, 0, 0, 0, 0, 0, 0, 0, 0, 0], 96)
    ensures ParseCIDR(text, prefix).Ok? && ParseCIDR(text, prefix).value.1.Valid()
    ensures GetFirstIP(ParseCIDR(text, prefix).value.1).Err? && Normalise(text, V6_LINK, First, prefix).Err?
  {
    text := FaithfulExists();
    var ip: IP := [0, 100, 255, 155, 0, 0, 0, 0, 0, 0, 0, 0, 0, 0, 0, 0];
    prefix := text.Cidr(ip, 96);
    assert ip[..12][1] == 100;
    ZeroByteFails(ip);
  }

  lemma ZeroByteFails(ip: IP)
    requires |ip| == 16 && ip[0] == 0 && ip[1] == 100 && forall k :: 4 <= k < 16 ==> ip[k] == 0
    ensures MaskIP(ip, CIDRMask(96, 128)) == ip && To4(ip).None?
    ensures GetFirstIP(IPNet(ip, 96, 128)).Err?
  {
    hide And, MaskByte;
    var mask := CIDRMask(96, 128);
    forall k | 0 <= k < 16
      ensures And(ip[k], mask[k]) == ip[k]
    {
      MaskedByte(ip[k], 96 - 8 * k);
    }
    assert MaskIP(ip, mask) == ip;
    assert ip[..12][1] == 100;
    EndsBelow(ip);
    GetIndexedIPExact(IPNet(ip, 96, 128), 1);
  }

  /** With a zero first and a zero last byte, the next number still does not fill all bytes. */
  lemma EndsBelow(ip: IP)
    requires |ip| >= 2 && ip[0] == 0 && ip[|ip| - 1] == 0
    ensures Value(ip) + 1 < Pow2(8 * |ip| - 8)
  {
    var next := ip[..|ip| - 1] + [1];
    assert next[..|ip| - 1] == ip[..|ip| - 1];
    LeadingByte(next);
  }
}
