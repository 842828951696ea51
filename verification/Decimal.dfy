/** Decimal text (`strconv.Itoa`) and the dotted names built from it. */
module Decimal {

  function Digit(d: nat): (c: char)
    requires d < 10
    ensures '0' <= c <= '9'
    ensures c as int == '0' as int + d
  {
    '0' + d as char
  }

  function Itoa(n: nat): (s: string)
    ensures |s| > 0 && (|s| == 1 <==> n < 10)
    ensures forall i :: 0 <= i < |s| ==> '0' <= s[i] <= '9'
  {
    if n < 10 then [Digit(n)] else Itoa(n / 10) + [Digit(n % 10)]
  }

  /** `strings.Join([]string{name, strconv.Itoa(index)}, sep)` */
  function Joined(name: string, sep: char, index: nat): string {
    name + [sep] + Itoa(index)
  }

  function Dotted(name: string, index: nat): string {
    Joined(name, '.', index)
  }

  lemma {:induction false} ItoaInjective(m: nat, n: nat)
    requires Itoa(m) == Itoa(n)
    ensures m == n
  {
    var s := Itoa(m);
    assert s[|s| - 1] == Digit(m % 10) == Digit(n % 10);
    if m >= 10 {
      assert Itoa(m / 10) == s[..|s| - 1] == Itoa(n / 10);
      ItoaInjective(m / 10, n / 10);
    }
  }

  /** The number a decimal text denotes. */
  function Number(s: string): nat
    requires forall k :: 0 <= k < |s| ==> '0' <= s[k] <= '9'
  {
    if |s| == 0 then 0 else 10 * Number(s[..|s| - 1]) + (s[|s| - 1] as int - '0' as int)
  }

  /** The text of a number denotes it, without leading zeros. */
  lemma {:induction false} ItoaDenotes(n: nat)
    ensures Number(Itoa(n)) == n
    ensures Itoa(n)[0] == '0' ==> n == 0
  {
    if n >= 10 {
      ItoaDenotes(n / 10);
      assert Itoa(n)[..|Itoa(n)| - 1] == Itoa(n / 10);
    }
  }

  /** After the separator that joins the parts there is no other, because an index is all digits. */
  lemma LastSeparator(name: string, sep: char, index: nat)
    requires !('0' <= sep <= '9')
    ensures Joined(name, sep, index)[|name|] == sep
    ensures forall k :: |name| < k < |Joined(name, sep, index)| ==> Joined(name, sep, index)[k] != sep
  {
    forall k | |name| < k < |Joined(name, sep, index)|
      ensures Joined(name, sep, index)[k] != sep
    {
      assert Joined(name, sep, index)[k] == Itoa(index)[k - |name| - 1];
    }
  }

  /** Hence a joined name determines both parts, whatever characters the first one has. */
  lemma JoinedInjective(a: string, m: nat, b: string, n: nat, sep: char)
    requires !('0' <= sep <= '9')
    requires Joined(a, sep, m) == Joined(b, sep, n)
    ensures a == b && m == n
  {
    var s := Joined(a, sep, m);
    LastSeparator(a, sep, m);
    LastSeparator(b, sep, n);
    assert a == s[..|a|] && b == s[..|b|];
    assert Itoa(m) == s[|a| + 1..] && Itoa(n) == s[|b| + 1..];
    ItoaInjective(m, n);
  }
}
