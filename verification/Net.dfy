/** The parts of Go's `net` package the controller relies on: addresses as byte strings of length 4 or
    16, networks, CIDR text and the bytewise membership test. */
module Net {
  import opened Wrappers
  import opened BigInt
  import opened Decimal

  type IP = seq<byte>

  /** `net.IPNet`; the mask is the contiguous mask of `ones` bits out of `bits`. */
  datatype IPNet = IPNet(ip: IP, ones: nat, bits: nat) {
    ghost predicate Valid() {
      && bits == 8 * |ip|
      && (|ip| == 4 || |ip| == 16)
      && ones <= bits
      && MaskIP(ip, CIDRMask(ones, bits)) == ip
    }
  }

  /** What CIDR text denotes: the address in the length of its own family, and the prefix length. */
  datatype CidrParts = CidrParts(addr: IP, ones: nat)

  /** Parsing accepts the two address lengths only, and no more mask bits than the address has. */
  type CidrText = c: CidrParts | (|c.addr| == 4 || |c.addr| == 16) && c.ones <= 8 * |c.addr|
    witness CidrParts([0, 0, 0, 0], 0)

  /** The text syntax of addresses. `parse` reads `address/length`; `format` writes an address. */
  datatype AddressText = AddressText(parse: string -> Option<CidrText>, format: IP -> string) {
    function Cidr(ip: IP, ones: nat): string {
      Joined(format(ip), '/', ones)
    }

    /** Parsing reads back what was printed. An IPv4-mapped IPv6 address is printed as its four IPv4
        bytes, so the law is about the other addresses. */
    ghost predicate Faithful() {
      forall ip: IP, ones: nat :: (|ip| == 4 || (|ip| == 16 && To4(ip).None?)) ==>
        parse(Cidr(ip, ones)) == if ones <= 8 * |ip| then Some(CidrParts(ip, ones)) else None
    }
  }

  const V4_IN_V6_PREFIX: seq<byte> := [0, 0, 0, 0, 0, 0, 0, 0, 0, 0, 255, 255]

  /** `IP.To4` */
  function To4(ip: IP): (r: Option<IP>)
    ensures r.Some? ==> |r.value| == 4
    ensures |ip| == 4 ==> r == Some(ip)
  {
    if |ip| == 4 then Some(ip)
    else if |ip| == 16 && ip[..12] == V4_IN_V6_PREFIX then Some(ip[12..])
    else None
  }

  /** The bytes that Go prints, compares and turns into a number: four if `To4` finds them. */
  function Canonical(ip: IP): IP {
    match To4(ip)
    case Some(v4) => v4
    case None => ip
  }

  /** The byte with the first k bits set. */
  function MaskByte(k: int): byte {
    if k >= 8 then 255 else if k <= 0 then 0 else PowersInByte(8 - k); 256 - Pow2(8 - k)
  }

  lemma PowersInByte(j: nat)
    requires j <= 8
    ensures 1 <= Pow2(j) <= 256 && Pow2(8) == 256
  {
    assert Pow2(8) == 256;
    Pow2Monotone(j, 8);
  }

  /** `net.CIDRMask` */
  function CIDRMask(ones: nat, bits: nat): seq<byte> {
    seq(bits / 8, i requires 0 <= i < bits / 8 => MaskByte(ones - 8 * i))
  }

  function And(x: byte, y: byte): byte {
    AndBound(x, y);
    BitAnd(x, y)
  }

  lemma {:induction false} AndBound(x: nat, y: nat)
    ensures BitAnd(x, y) <= x
    decreases x
  {
    if x != 0 && y != 0 {
      AndBound(x / 2, y / 2);
    }
  }

  function MaskIP(ip: IP, mask: seq<byte>): IP
    requires |mask| == |ip|
  {
    seq(|ip|, i requires 0 <= i < |ip| => And(ip[i], mask[i]))
  }

  /** `net.ParseCIDR`: the address as Go returns it (16 bytes) and the network it lies in. */
  function ParseCIDR(text: AddressText, s: string): (r: Result<(IP, IPNet)>)
    ensures r.Ok? ==> |r.value.0| == 16 && r.value.1.Valid()
  {
    match text.parse(s)
    case None => Err(MalformedCidr(s))
    case Some(c) =>
      var bits := 8 * |c.addr|;
      MaskTwice(c.addr, c.ones);
      var ip := if |c.addr| == 4 then V4_IN_V6_PREFIX + c.addr else c.addr;
      Ok((ip, IPNet(MaskIP(c.addr, CIDRMask(c.ones, bits)), c.ones, bits)))
  }

  /** `networkNumberAndMask`: a mapped network is used as its four IPv4 bytes. */
  function NetworkNumberAndMask(n: IPNet): (IP, seq<byte>)
    requires n.bits == 8 * |n.ip| && (|n.ip| == 4 || |n.ip| == 16)
  {
    var m := CIDRMask(n.ones, n.bits);
    match To4(n.ip)
    case None => (n.ip, m)
    case Some(v4) => (v4, if |m| == 16 then m[12..] else m)
  }

  /** `IPNet.Contains`, byte by byte. */
  predicate Contains(n: IPNet, ip: IP)
    requires n.bits == 8 * |n.ip| && (|n.ip| == 4 || |n.ip| == 16)
  {
    var (nn, m) := NetworkNumberAndMask(n);
    var x := Canonical(ip);
    |x| == |nn| && forall i :: 0 <= i < |x| ==> And(nn[i], m[i]) == And(x[i], m[i])
  }

  // ---------- masks are division ----------

  /** The number of addresses of a network: 2 to the number of its host bits. */
  function BlockSize(n: IPNet): (size: nat)
    requires n.ones <= n.bits
    ensures size >= 1
  {
    Pow2(n.bits - n.ones)
  }

  lemma MaskedByte(x: byte, k: int)
    ensures k >= 8 ==> And(x, MaskByte(k)) == x
    ensures k <= 0 ==> And(x, MaskByte(k)) == 0
    ensures 0 <= k <= 8 ==> And(x, MaskByte(k)) == x - Low(x, 8 - k)
  {
    PowersInByte(8);
    if k >= 8 {
      AndHighMask(x, 8, 0);
      assert Pow2(0) == 1;
    } else if k > 0 {
      AndHighMask(x, 8, 8 - k);
    } else {
      assert BitAnd(x, 0) == 0;
    }
  }

  lemma CIDRMaskPrefix(ones: nat, l: nat)
    requires l >= 1
    ensures CIDRMask(ones, 8 * l)[..l - 1] == CIDRMask(ones, 8 * (l - 1))
  {
  }

  /** Masking an address rounds its number down to a multiple of the block size. */
  lemma {:induction false} MaskIsRounding(ip: IP, ones: nat)
    requires ones <= 8 * |ip|
    ensures |CIDRMask(ones, 8 * |ip|)| == |ip|
    ensures Value(MaskIP(ip, CIDRMask(ones, 8 * |ip|))) == Value(ip) - Low(Value(ip), 8 * |ip| - ones)
    decreases |ip|
  {
    if |ip| > 0 {
      if ones <= 8 * (|ip| - 1) {
        MaskIsRounding(ip[..|ip| - 1], ones);
      } else {
        FullMask(ip[..|ip| - 1], ones);
      }
      MaskIsRoundingStep(ip, ones);
    }
  }

  lemma MaskIsRoundingStep(ip: IP, ones: nat)
    requires |ip| >= 1 && ones <= 8 * |ip|
    requires var front, m := ip[..|ip| - 1], CIDRMask(ones, 8 * (|ip| - 1));
      |m| == |front| && Value(MaskIP(front, m)) ==
        if ones <= 8 * (|ip| - 1) then Value(front) - Low(Value(front), 8 * (|ip| - 1) - ones) else Value(front)
    ensures |CIDRMask(ones, 8 * |ip|)| == |ip|
    ensures Value(MaskIP(ip, CIDRMask(ones, 8 * |ip|))) == Value(ip) - Low(Value(ip), 8 * |ip| - ones)
  {
    hide Low, MaskIP, And, MaskByte;
    var front, last := ip[..|ip| - 1], ip[|ip| - 1];
    var k := ones - 8 * (|ip| - 1);
    MaskLastByte(ip, ones);
    MaskedByte(last, k);
    if k <= 0 {
      ByteRounding(Value(front), last, -k);
    } else {
      LastByteRounding(Value(front), last, 8 - k);
    }
  }

  lemma MaskLastByte(ip: IP, ones: nat)
    requires |ip| >= 1
    ensures |CIDRMask(ones, 8 * |ip|)| == |ip| && |CIDRMask(ones, 8 * (|ip| - 1))| == |ip| - 1
    ensures var front, last := ip[..|ip| - 1], ip[|ip| - 1];
      Value(MaskIP(ip, CIDRMask(ones, 8 * |ip|)))
      == 256 * Value(MaskIP(front, CIDRMask(ones, 8 * (|ip| - 1)))) + And(last, MaskByte(ones - 8 * (|ip| - 1)))
  {
    var m := CIDRMask(ones, 8 * |ip|);
    CIDRMaskPrefix(ones, |ip|);
    assert MaskIP(ip, m)[..|ip| - 1] == MaskIP(ip[..|ip| - 1], CIDRMask(ones, 8 * (|ip| - 1)));
  }

  lemma FullMask(ip: IP, ones: nat)
    requires ones >= 8 * |ip|
    ensures |CIDRMask(ones, 8 * |ip|)| == |ip|
    ensures MaskIP(ip, CIDRMask(ones, 8 * |ip|)) == ip
  {
    forall i | 0 <= i < |ip|
      ensures And(ip[i], MaskByte(ones - 8 * i)) == ip[i]
    {
      MaskedByte(ip[i], ones - 8 * i);
    }
  }

  lemma ByteRounding(v: nat, x: byte, h: nat)
    ensures 256 * (v - Low(v, h)) == (256 * v + x) - Low(256 * v + x, h + 8)
  {
    Pow2Byte(h);
    var m := Pow2(h);
    var q := v / m;
    assert v - v % m == q * m;
    assert q * (256 * m) == 256 * (q * m);
    QuotientUnique(256 * v + x, 256 * m, q);
  }

  lemma LastByteRounding(v: nat, x: byte, h: nat)
    requires h <= 8
    ensures 256 * v + (x - Low(x, h)) == (256 * v + x) - Low(256 * v + x, h)
  {
    Pow2Sum(8 - h, h);
    assert Pow2(8) == 256;
    RoundWithin(v, x, Pow2(8 - h), Pow2(h));
  }

  lemma RoundWithin(v: nat, x: nat, c: nat, m: nat)
    requires m >= 1 && c * m == 256
    ensures 256 * v + (x - x % m) == (256 * v + x) - (256 * v + x) % m
  {
    var q, r := x / m, x % m;
    assert x == q * m + r;
    assert (v * c + q) * m == v * (c * m) + q * m;
    QuotientUnique(256 * v + x, m, v * c + q);
  }

  lemma MaskTwice(ip: IP, ones: nat)
    requires ones <= 8 * |ip|
    ensures |CIDRMask(ones, 8 * |ip|)| == |ip|
    ensures var m := CIDRMask(ones, 8 * |ip|); MaskIP(MaskIP(ip, m), m) == MaskIP(ip, m)
  {
    var m := CIDRMask(ones, 8 * |ip|);
    var p := Pow2(8 * |ip| - ones);
    MaskIsRounding(ip, ones);
    MaskIsRounding(MaskIP(ip, m), ones);
    QuotientBounds(Value(ip), p);
    QuotientUnique((Value(ip) / p) * p, p, Value(ip) / p);
    ValueInjective(MaskIP(MaskIP(ip, m), m), MaskIP(ip, m));
  }

  /** What parsing gives, in numbers: the address, in 16 bytes, and the network of the prefix length that
      starts at the address rounded down to a multiple of 2^(host bits). Text that does not denote a prefix
      is refused. */
  lemma ParseCIDRExact(text: AddressText, s: string)
    ensures var r := ParseCIDR(text, s);
      match text.parse(s)
      case None => r == Err(MalformedCidr(s))
      case Some(c) =>
        r.Ok? &&
        var ip, n := r.value.0, r.value.1;
        && |ip| == 16 && ip == (if |c.addr| == 4 then [0, 0, 0, 0, 0, 0, 0, 0, 0, 0, 255, 255] else []) + c.addr
        && |n.ip| == |c.addr| && n.ones == c.ones && n.bits == 8 * |c.addr|
        && Value(n.ip) == Value(c.addr) - Value(c.addr) % Pow2(8 * |c.addr| - c.ones)
  {
    match text.parse(s)
    case None =>
    case Some(c) => MaskIsRounding(c.addr, c.ones);
  }

  /** The bytes that count: the last four of an IPv4-mapped address, otherwise all. */
  lemma CanonicalExact(ip: IP)
    ensures |ip| == 16 && ip[..12] == [0, 0, 0, 0, 0, 0, 0, 0, 0, 0, 255, 255] ==> Canonical(ip) == ip[12..]
    ensures !(|ip| == 16 && ip[..12] == [0, 0, 0, 0, 0, 0, 0, 0, 0, 0, 255, 255]) ==> Canonical(ip) == ip
  {
  }

  /** Bytewise comparison under a mask compares the numbers divided by the block size. */
  lemma MaskedEqualIffSameBlock(a: IP, b: IP, ones: nat)
    requires |a| == |b| && ones <= 8 * |a|
    ensures |CIDRMask(ones, 8 * |a|)| == |a|
    ensures MaskIP(a, CIDRMask(ones, 8 * |a|)) == MaskIP(b, CIDRMask(ones, 8 * |a|))
       <==> Value(a) / Pow2(8 * |a| - ones) == Value(b) / Pow2(8 * |a| - ones)
  {
    var m := CIDRMask(ones, 8 * |a|);
    MaskIsRounding(a, ones);
    MaskIsRounding(b, ones);
    ValueInjective(MaskIP(a, m), MaskIP(b, m));
    RoundingComparesQuotients(Value(a), Value(b), Pow2(8 * |a| - ones));
  }

  /** A network whose address is IPv4-mapped has at least 96 mask bits. */
  lemma MappedNetworkLength(n: IPNet)
    requires n.Valid() && |n.ip| == 16 && To4(n.ip).Some?
    ensures n.ones >= 96
  {
    var k := n.ones - 88;
    assert n.ip[11] == V4_IN_V6_PREFIX[11] == 255;
    assert MaskIP(n.ip, CIDRMask(n.ones, n.bits))[11] == And(255, MaskByte(k));
    MaskedByte(255, k);
    if 0 <= k < 8 {
      OddNotMultiple(8 - k);
    }
  }

  /** It then works on its four IPv4 bytes, under the IPv4 mask with 96 bits less. */
  lemma EffectiveMask(n: IPNet)
    requires n.Valid()
    ensures NetworkNumberAndMask(n).0 == Canonical(n.ip)
    ensures n.bits - n.ones <= 8 * |Canonical(n.ip)|
    ensures var l := |Canonical(n.ip)|; NetworkNumberAndMask(n).1 == CIDRMask(8 * l - (n.bits - n.ones), 8 * l)
  {
    if |n.ip| == 16 && To4(n.ip).Some? {
      MappedNetworkLength(n);
      var m := CIDRMask(n.ones, n.bits);
      assert m[12..] == CIDRMask(n.ones - 96, 32);
    }
  }

  /** The address of a network is a multiple of its block size. */
  lemma NetworkAligned(n: IPNet)
    requires n.Valid()
    ensures Value(Canonical(n.ip)) % BlockSize(n) == 0
  {
    hide And, MaskByte;
    EffectiveMask(n);
    var (nn, m) := NetworkNumberAndMask(n);
    var off := |n.ip| - |nn|;
    forall i | 0 <= i < |nn|
      ensures And(nn[i], m[i]) == nn[i]
    {
      assert MaskIP(n.ip, CIDRMask(n.ones, n.bits))[off + i] == n.ip[off + i];
    }
    assert MaskIP(nn, m) == nn;
    MaskIsRounding(nn, 8 * |nn| - (n.bits - n.ones));
  }

  lemma OddNotMultiple(j: nat)
    requires 1 <= j <= 8
    ensures 255 % Pow2(j) != 0
  {
    var m := Pow2(j - 1);
    HalfQuotient(255, m);
  }

  /** `Contains`, in numbers: same length, and the same block of 2^(host bits) addresses. */
  lemma ContainsIsBlockMembership(n: IPNet, ip: IP)
    requires n.Valid()
    ensures Contains(n, ip) <==>
      && |Canonical(ip)| == |Canonical(n.ip)|
      && Value(Canonical(n.ip)) <= Value(Canonical(ip)) < Value(Canonical(n.ip)) + BlockSize(n)
  {
    var (nn, m) := NetworkNumberAndMask(n);
    var x := Canonical(ip);
    var h := n.bits - n.ones;
    EffectiveMask(n);
    NetworkAligned(n);
    if |x| == |nn| {
      MaskedEqualIffBytesAgree(nn, x, m);
      SameBlock(Value(nn), Value(x), BlockSize(n));
      hide MaskIP, And, Pow2, CIDRMask, Canonical;
      MaskedEqualIffSameBlock(nn, x, 8 * |nn| - h);
    }
  }

  lemma MaskedEqualIffBytesAgree(a: IP, b: IP, m: seq<byte>)
    requires |a| == |b| == |m|
    ensures MaskIP(a, m) == MaskIP(b, m) <==> forall i :: 0 <= i < |b| ==> And(a[i], m[i]) == And(b[i], m[i])
  {
    forall i | 0 <= i < |b|
      ensures MaskIP(a, m)[i] == And(a[i], m[i]) && MaskIP(b, m)[i] == And(b[i], m[i])
    {
    }
  }

  // ---------- the law about text can be met ----------

  function Chars(ip: IP): string {
    seq(|ip|, i requires 0 <= i < |ip| => ip[i] as char)
  }

  lemma CharsInjective(a: IP, b: IP)
    requires Chars(a) == Chars(b)
    ensures a == b
  {
    assert |a| == |Chars(a)| == |b|;
    forall i | 0 <= i < |a|
      ensures a[i] == b[i]
    {
      assert Chars(a)[i] == a[i] as char && Chars(b)[i] == b[i] as char;
    }
  }

  ghost predicate Denotes(s: string, c: CidrText) {
    s == Joined(Chars(c.addr), '/', c.ones)
  }

  ghost function ReadBack(s: string): Option<CidrText> {
    if c: CidrText :| Denotes(s, c) then Some(c) else None
  }

  /** Some text syntax is faithful: the bytes as characters, then the length. It even has a text for
      every IPv4-mapped prefix. */
  lemma FaithfulExists() returns (text: AddressText)
    ensures text.Faithful()
    ensures forall c: CidrText :: text.parse(text.Cidr(c.addr, c.ones)) == Some(c)
  {
    text := AddressText(s => ReadBack(s), ip => Chars(ip));
    forall ip: IP, ones: nat, c: CidrText | Denotes(text.Cidr(ip, ones), c)
      ensures c == CidrParts(ip, ones)
    {
      JoinedInjective(Chars(c.addr), c.ones, Chars(ip), ones, '/');
      CharsInjective(c.addr, ip);
    }
    forall c: CidrText
      ensures text.parse(text.Cidr(c.addr, c.ones)) == Some(c)
    {
      assert Denotes(text.Cidr(c.addr, c.ones), c);
    }
    forall ip: IP, ones: nat | |ip| == 4 || (|ip| == 16 && To4(ip).None?)
      ensures text.parse(text.Cidr(ip, ones)) == if ones <= 8 * |ip| then Some(CidrParts(ip, ones)) else None
    {
      var c := CidrParts(ip, ones);
      assert ones <= 8 * |ip| ==> text.parse(text.Cidr(c.addr, c.ones)) == Some(c);
    }
  }
}
