/** Positional numerals: the digits of a number and the number of some digits. */
module Numerals {
  import opened Bits

  /** The digits of n, most significant first. */
  function Digits(n: nat, base: nat): (d: seq<nat>)
    requires base >= 2
    ensures d != [] && forall i | 0 <= i < |d| :: d[i] < base
    decreases n
  {
    if n < base then [n]
    else
      QuotientIsLess(n, base);
      Digits(n / base, base) + [n % base]
  }

  lemma QuotientIsLess(n: nat, base: nat)
    requires base >= 2 && n >= 1
    ensures 0 <= n / base < n
  {
    var q := n / base;
    assert n == base * q + n % base;
    MulAtMost(2, base, q);
  }

  /** The number that digits stand for. */
  function Value(d: seq<nat>, base: nat): nat
    decreases |d|
  {
    if d == [] then 0 else Value(d[..|d| - 1], base) * base + d[|d| - 1]
  }

  predicate Canonical(d: seq<nat>, base: nat) {
    d != [] && (forall i | 0 <= i < |d| :: d[i] < base) && (|d| > 1 ==> d[0] != 0)
  }

  lemma {:induction false} DigitsRoundTrip(n: nat, base: nat)
    requires base >= 2
    ensures Value(Digits(n, base), base) == n && Canonical(Digits(n, base), base)
    ensures Digits(n, base)[0] == 0 ==> n == 0
    decreases n
  {
    hide Value, Canonical;
    if n < base {
      OneDigit(n, base);
    } else {
      QuotientIsLess(n, base);
      DigitsRoundTrip(n / base, base);
      QuotientPositive(n, base);
      OneMoreDigit(Digits(n / base, base), n % base, base);
      ValueOfOneMore(Digits(n / base, base), n % base, base);
      Euclid(n, base);
      MulCommutes(base, n / base);
    }
  }

  lemma OneDigit(n: nat, base: nat)
    requires n < base
    ensures Value([n], base) == n && Canonical([n], base)
  {
    assert [n][..0] == [];
  }

  lemma ValueOfOneMore(high: seq<nat>, low: nat, base: nat)
    ensures Value(high + [low], base) == Value(high, base) * base + low
  {
    assert (high + [low])[..|high|] == high;
  }

  lemma OneMoreDigit(high: seq<nat>, low: nat, base: nat)
    requires Canonical(high, base) && high[0] != 0 && low < base
    ensures Canonical(high + [low], base)
  {
  }

  lemma QuotientPositive(n: nat, base: nat)
    requires 1 <= base <= n
    ensures n / base >= 1
  {
    assert n == base * (n / base) + n % base;
    assert base * (n / base) > 0;
  }

  /** A numeral without leading zero is the one that its value is printed as. */
  lemma {:induction false} CanonicalIsDigits(d: seq<nat>, base: nat)
    requires base >= 2 && Canonical(d, base)
    ensures Digits(Value(d, base), base) == d
    ensures d[0] != 0 ==> Value(d, base) >= 1
    decreases |d|
  {
    var high, last := d[..|d| - 1], d[|d| - 1];
    if |d| == 1 {
      assert high == [];
    } else {
      CanonicalIsDigits(high, base);
      var v := Value(high, base);
      MulAtLeast(base, v);
      assert v * base == base * v;
      DivUnique(v * base + last, base, v, last);
      assert d == high + [last];
    }
  }

  function Power(base: nat, k: nat): nat {
    if k == 0 then 1 else base * Power(base, k - 1)
  }

  lemma {:induction false} DigitCount(n: nat, base: nat, k: nat)
    requires base >= 2 && k >= 1 && n < Power(base, k)
    ensures |Digits(n, base)| <= k
    decreases k
  {
    assert Power(base, 1) == base * Power(base, 0) == base;
    if n >= base && k > 1 {
      QuotientIsLess(n, base);
      QuotientBelow(n, base, Power(base, k - 1));
      DigitCount(n / base, base, k - 1);
    }
  }

  lemma QuotientBelow(n: nat, base: nat, p: nat)
    requires base >= 1 && n < base * p
    ensures 0 <= n / base < p
  {
    DivByParts(n, base, p);
    DivUnique(n, base * p, 0, n);
  }
}
