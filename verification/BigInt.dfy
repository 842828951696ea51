/** Numbers as `math/big` and the CPU see them: powers of two, bitwise and, and the big-endian byte
    encoding. `Bytes` is `big.Int.Bytes` (minimal: no leading zero byte) and `Value` is
    `big.Int.SetBytes`. */
module BigInt {

  type byte = x: int | 0 <= x < 256

  function Pow2(n: nat): (p: nat)
    ensures p >= 1
  {
    if n == 0 then 1 else 2 * Pow2(n - 1)
  }

  /** The low h bits of a number. */
  function Low(v: nat, h: nat): (r: nat)
    ensures r <= v
  {
    RemainderAtMost(v, Pow2(h));
    v % Pow2(h)
  }

  lemma RemainderAtMost(v: nat, m: nat)
    requires m >= 1
    ensures 0 <= v % m <= v
  {
    if v < m {
      QuotientUnique(v, m, 0);
    }
  }

  function Abs(x: int): nat {
    if x < 0 then -x else x
  }

  function BitAnd(x: nat, y: nat): nat
    decreases x
  {
    if x == 0 || y == 0 then 0
    else 2 * BitAnd(x / 2, y / 2) + (if x % 2 == 1 && y % 2 == 1 then 1 else 0)
  }

  function Value(b: seq<byte>): nat {
    if |b| == 0 then 0 else 256 * Value(b[..|b| - 1]) + b[|b| - 1]
  }

  function Bytes(v: nat): seq<byte> {
    if v == 0 then [] else Bytes(v / 256) + [v % 256]
  }

  // ---------- powers of two and division ----------

  lemma {:induction false} Pow2Sum(m: nat, n: nat)
    ensures Pow2(m + n) == Pow2(m) * Pow2(n)
  {
    if m == 0 {
    } else {
      Pow2Sum(m - 1, n);
      assert Pow2(m + n) == 2 * (Pow2(m - 1) * Pow2(n));
    }
  }

  lemma {:induction false} Pow2Monotone(m: nat, n: nat)
    requires m <= n
    ensures Pow2(m) <= Pow2(n)
  {
    if m < n {
      Pow2Monotone(m, n - 1);
    }
  }

  lemma Pow2Byte(n: nat)
    ensures Pow2(n + 8) == 256 * Pow2(n)
    ensures Pow2(8) == 256
  {
    assert Pow2(8) == 256;
    Pow2Sum(n, 8);
  }

  /** Euclid's quotient is the only number that fits. */
  lemma QuotientUnique(v: int, m: nat, q: int)
    requires m >= 1
    requires q * m <= v < q * m + m
    ensures v / m == q && v % m == v - q * m
  {
    var r := v - q * m;
    assert v == q * m + r && v == (v / m) * m + v % m;
    var d := q - v / m;
    assert d * m == v % m - r;
    assert d >= 1 ==> d * m >= m;
    assert d <= -1 ==> d * m <= 0 - m;
  }

  lemma QuotientBounds(v: int, m: nat)
    requires m >= 1
    ensures (v / m) * m <= v < (v / m) * m + m
    ensures v % m == v - (v / m) * m
  {
  }

  /** Dividing by 2m is dividing by m and then by two, whichever comes first. */
  lemma HalfQuotient(v: nat, m: nat)
    requires m >= 1
    ensures v / (2 * m) == (v / 2) / m
    ensures v % (2 * m) == 2 * ((v / 2) % m) + v % 2
  {
    var q, r := (v / 2) / m, (v / 2) % m;
    assert v / 2 == q * m + r;
    assert q * (2 * m) == 2 * (q * m);
    QuotientUnique(v, 2 * m, q);
  }

  /** Rounding two numbers down to a multiple of m compares their quotients. */
  lemma RoundingComparesQuotients(a: nat, b: nat, m: nat)
    requires m >= 1
    ensures a - a % m == b - b % m <==> a / m == b / m
  {
    var x, y := a / m, b / m;
    QuotientBounds(a, m);
    QuotientBounds(b, m);
    if x * m == y * m {
      QuotientUnique(x * m, m, x);
      QuotientUnique(y * m, m, y);
    }
  }

  /** A block of 2^h addresses starting at a multiple of 2^h holds exactly base .. base + 2^h - 1. */
  lemma SameBlock(base: nat, v: nat, m: nat)
    requires m >= 1 && base % m == 0
    ensures v / m == base / m <==> base <= v < base + m
  {
    QuotientBounds(v, m);
    QuotientBounds(base, m);
    assert (base / m) * m == base;
    if base <= v < base + m {
      QuotientUnique(v, m, base / m);
    }
  }

  // ---------- bitwise and with a contiguous mask ----------

  lemma AndUnfold(x: nat, y: nat)
    ensures BitAnd(x, y) == 2 * BitAnd(x / 2, y / 2) + (if x % 2 == 1 && y % 2 == 1 then 1 else 0)
  {
  }

  /** Masking off the low j bits of an n-bit number subtracts them. */
  lemma {:induction false} AndHighMask(x: nat, n: nat, j: nat)
    requires j <= n && x < Pow2(n)
    ensures Pow2(j) <= Pow2(n)
    ensures BitAnd(x, Pow2(n) - Pow2(j)) == x - Low(x, j)
    decreases n
  {
    Pow2Monotone(j, n);
    if n > 0 {
      var p := Pow2(n - 1);
      assert Pow2(n) == 2 * p && x / 2 < p;
      hide BitAnd, Low, Pow2;
      if j == 0 {
        AndHighMask(x / 2, n - 1, 0);
        assert Pow2(0) == 1 by { Pow2Zero(); }
        AndAllOnes(x, p);
      } else {
        AndHighMask(x / 2, n - 1, j - 1);
        AndShifted(x, p, j);
      }
    }
  }

  lemma Pow2Zero()
    ensures Pow2(0) == 1
  {
  }

  lemma AndAllOnes(x: nat, p: nat)
    requires p >= 1 && BitAnd(x / 2, p - 1) == x / 2 - Low(x / 2, 0)
    ensures BitAnd(x, 2 * p - 1) == x - Low(x, 0)
  {
    hide BitAnd, Low;
    AndUnfold(x, 2 * p - 1);
    LowUnfold(x, 0);
    LowUnfold(x / 2, 0);
    HalfOfMask(p, 1);
  }

  lemma AndShifted(x: nat, p: nat, j: nat)
    requires j >= 1 && Pow2(j - 1) <= p && BitAnd(x / 2, p - Pow2(j - 1)) == x / 2 - Low(x / 2, j - 1)
    ensures Pow2(j) <= 2 * p && BitAnd(x, 2 * p - Pow2(j)) == x - Low(x, j)
  {
    hide BitAnd, Low;
    AndUnfold(x, 2 * p - Pow2(j));
    LowUnfold(x, j);
    HalfOfMask(p, 2 * Pow2(j - 1));
  }

  lemma LowUnfold(x: nat, j: nat)
    ensures j == 0 ==> Low(x, j) == 0
    ensures j >= 1 ==> Low(x, j) == 2 * Low(x / 2, j - 1) + x % 2
  {
    if j >= 1 {
      HalfQuotient(x, Pow2(j - 1));
    }
  }

  /** Halving a mask: 2p - 1 is odd, 2p - 2q even. */
  lemma HalfOfMask(p: nat, q: nat)
    requires q <= 2 * p
    ensures q == 1 ==> (2 * p - q) / 2 == p - 1 && (2 * p - q) % 2 == 1
    ensures q % 2 == 0 ==> (2 * p - q) / 2 == p - q / 2 && (2 * p - q) % 2 == 0
  {
  }

  // ---------- the byte encoding ----------

  lemma {:induction false} ValueBound(b: seq<byte>)
    ensures Value(b) < Pow2(8 * |b|)
  {
    if |b| != 0 {
      ValueBound(b[..|b| - 1]);
      Pow2Byte(8 * (|b| - 1));
    }
  }

  /** Decoding undoes encoding. */
  lemma {:induction false} ValueOfBytes(v: nat)
    ensures Value(Bytes(v)) == v
    ensures |Bytes(v)| > 0 ==> Bytes(v)[0] != 0
  {
    if v != 0 {
      ValueOfBytes(v / 256);
      assert Bytes(v)[..|Bytes(v)| - 1] == Bytes(v / 256);
      if v / 256 == 0 {
        assert Bytes(v / 256) == [];
      }
    }
  }

  /** The minimal encoding of v has exactly n bytes iff 2^(8n-8) <= v < 2^(8n). */
  lemma {:induction false} BytesLength(v: nat, n: nat)
    requires n >= 1
    ensures |Bytes(v)| == n <==> Pow2(8 * n - 8) <= v < Pow2(8 * n)
    decreases n
  {
    Pow2Byte(8 * n - 8);
    if n == 1 {
      assert Pow2(0) == 1;
      if v != 0 && v / 256 != 0 {
        assert |Bytes(v / 256)| > 0;
      }
    } else {
      BytesLength(v / 256, n - 1);
      Pow2Byte(8 * n - 16);
      var lo, hi := Pow2(8 * n - 16), Pow2(8 * n - 8);
      assert lo <= v / 256 < hi <==> 256 * lo <= v < 256 * hi;
    }
  }

  /** Two byte strings of one length are equal iff their values are. */
  lemma {:induction false} ValueInjective(a: seq<byte>, b: seq<byte>)
    requires |a| == |b|
    ensures Value(a) == Value(b) <==> a == b
  {
    if |a| != 0 {
      var n := |a| - 1;
      ValueInjective(a[..n], b[..n]);
      if Value(a) == Value(b) {
        assert a[n] == b[n] && Value(a[..n]) == Value(b[..n]);
        assert a == a[..n] + [a[n]] && b == b[..n] + [b[n]];
      }
    }
  }

  /** A number fills all its bytes iff the leading one is not zero. */
  lemma {:induction false} LeadingByte(b: seq<byte>)
    requires |b| >= 1
    ensures b[0] != 0 <==> Value(b) >= Pow2(8 * |b| - 8)
  {
    if |b| == 1 {
      assert Value(b) == b[0] by { assert Value(b[..0]) == 0; }
      assert Pow2(0) == 1;
    } else {
      LeadingByte(b[..|b| - 1]);
      Pow2Byte(8 * |b| - 16);
    }
  }
}
