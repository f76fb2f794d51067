/** Decimal digits: `toString()` of a non-negative bigint, and `BigInt(s)` of a string of digits. */
module Decimals {

  function Digit(d: nat): (c: char)
    requires d < 10
    ensures '0' <= c <= '9'
  {
    '0' + d as char
  }

  function Decimal(n: nat): (r: string)
    ensures r != ""
    ensures forall c | c in r :: '0' <= c <= '9'
  {
    if n < 10 then [Digit(n)] else Decimal(n / 10) + [Digit(n % 10)]
  }

  predicate AllDigits(s: string) {
    forall i | 0 <= i < |s| :: '0' <= s[i] <= '9'
  }

  predicate IsDecimal(s: string) {
    |s| > 0 && AllDigits(s)
  }

  function DecimalToNat(s: string): nat
    requires AllDigits(s)
  {
    if s == "" then 0 else 10 * DecimalToNat(s[..|s| - 1]) + (s[|s| - 1] as int - '0' as int)
  }

  function Zeros(k: nat): (r: string)
    ensures |r| == k && forall i | 0 <= i < k :: r[i] == '0'
  {
    seq(k, i => '0')
  }

  lemma {:induction false} ZerosAreNothing(k: nat)
    ensures DecimalToNat(Zeros(k)) == 0
  {
    if k > 0 {
      ZerosAreNothing(k - 1);
      assert Zeros(k)[..k - 1] == Zeros(k - 1);
    }
  }

  /** A number printed in decimal, behind any number of zeros, reads as that number. */
  lemma {:induction false} ReadsPrinted(k: nat, n: nat)
    ensures IsDecimal(Zeros(k) + Decimal(n)) && DecimalToNat(Zeros(k) + Decimal(n)) == n
    decreases n
  {
    var s, t := Zeros(k) + Decimal(n), Decimal(n);
    forall i | 0 <= i < |s|
      ensures '0' <= s[i] <= '9'
    {
      assert i >= k ==> s[i] == t[i - k] && t[i - k] in t;
    }
    if n < 10 {
      assert s[..|s| - 1] == Zeros(k);
      ZerosAreNothing(k);
    } else {
      assert s[..|s| - 1] == Zeros(k) + Decimal(n / 10);
      ReadsPrinted(k, n / 10);
    }
  }

  /** The digits are those of the usual alphabet, the last one that of the ones. */
  lemma LastDigit(n: nat)
    ensures Decimal(n)[|Decimal(n)| - 1] == "0123456789"[n % 10]
  {
  }

  lemma {:induction false} DecimalInjective(a: nat, b: nat)
    requires Decimal(a) == Decimal(b)
    ensures a == b
  {
    var da, db := Decimal(a), Decimal(b);
    assert |da| == 1 <==> a < 10;
    assert |db| == 1 <==> b < 10;
    assert da[|da| - 1] == Digit(a % 10) && db[|db| - 1] == Digit(b % 10);
    if a >= 10 {
      assert da[..|da| - 1] == Decimal(a / 10) && db[..|db| - 1] == Decimal(b / 10);
      DecimalInjective(a / 10, b / 10);
    }
  }
}
