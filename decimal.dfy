/**
 * Decimal text of natural numbers: how the database and Python render a rule
 * ID (CAST(ID AS VARCHAR), str(ID)) and how a digit string is read back.
 */
module Decimal {
  import opened Text

  predicate IsDigit(c: char) {
    '0' <= c <= '9'
  }

  predicate AllDigits(s: string) {
    forall c :: c in s ==> IsDigit(c)
  }

  function DigitChar(d: nat): (c: char)
    requires d < 10
    ensures IsDigit(c)
  {
    (48 + d) as char
  }

  function DigitValue(c: char): (d: nat)
    ensures d < 10
  {
    if IsDigit(c) then c as int - 48 else 0
  }

  function Pow10(k: nat): (p: nat)
    ensures p >= 1
  {
    if k == 0 then 1 else 10 * Pow10(k - 1)
  }

  /** The decimal text of `n`, without leading zeros. */
  function NatToString(n: nat): (s: string)
    ensures |s| >= 1 && AllDigits(s)
  {
    if n < 10 then [DigitChar(n)] else NatToString(n / 10) + [DigitChar(n % 10)]
  }

  /** The number a text of decimal digits denotes. */
  function DigitsToNat(s: string): nat
  {
    if s == [] then 0 else DigitsToNat(s[..|s| - 1]) * 10 + DigitValue(s[|s| - 1])
  }

  /** Reading back the decimal text of a number gives the number. */
  lemma {:induction false} DecimalRoundTrip(n: nat)
    ensures DigitsToNat(NatToString(n)) == n
  {
    var s := NatToString(n);
    if n >= 10 {
      DecimalRoundTrip(n / 10);
      assert s[..|s| - 1] == NatToString(n / 10);
    }
  }

  /** Distinct numbers have distinct decimal texts. */
  lemma NatToStringInjective(a: nat, b: nat)
    ensures NatToString(a) == NatToString(b) ==> a == b
  {
    DecimalRoundTrip(a);
    DecimalRoundTrip(b);
  }

  /** The decimal text of `n` has at most `k` digits exactly when `n` is below 10 to the `k`. */
  lemma {:induction false} DecimalLength(n: nat, k: nat)
    requires k >= 1
    ensures |NatToString(n)| <= k <==> n < Pow10(k)
  {
    if n >= 10 {
      if k == 1 {
        assert Pow10(1) == 10;
      } else {
        DecimalLength(n / 10, k - 1);
        assert n / 10 < Pow10(k - 1) <==> n < 10 * Pow10(k - 1);
      }
    }
  }

  /** A text of `k` zeros. */
  function Zeros(k: nat): (z: string)
    ensures |z| == k && AllDigits(z)
    ensures forall i :: 0 <= i < k ==> z[i] == '0'
  {
    if k == 0 then "" else "0" + Zeros(k - 1)
  }

  /** A leading zero does not change the value. */
  lemma {:induction false} LeadingZero(s: string)
    ensures DigitsToNat("0" + s) == DigitsToNat(s)
    decreases |s|
  {
    if s != [] {
      var t := "0" + s;
      assert t[..|t| - 1] == "0" + s[..|s| - 1];
      LeadingZero(s[..|s| - 1]);
    }
  }

  /** Leading zeros do not change the value. */
  lemma {:induction false} LeadingZeros(k: nat, s: string)
    ensures DigitsToNat(Zeros(k) + s) == DigitsToNat(s)
  {
    if k > 0 {
      assert Zeros(k) == "0" + Zeros(k - 1);
      assert Zeros(k) + s == "0" + (Zeros(k - 1) + s);
      LeadingZero(Zeros(k - 1) + s);
      LeadingZeros(k - 1, s);
    } else {
      assert Zeros(k) + s == s;
    }
  }

  /** A text of `|s|` digits denotes a number below 10 to the `|s|`. */
  lemma {:induction false} DigitsBound(s: string)
    ensures DigitsToNat(s) < Pow10(|s|)
    decreases |s|
  {
    if s != [] {
      DigitsBound(s[..|s| - 1]);
    }
  }

  /** The first digit counts 10 to the number of digits after it. */
  lemma {:induction false} LeadingDigit(c: char, s: string)
    ensures DigitsToNat([c] + s) == DigitValue(c) * Pow10(|s|) + DigitsToNat(s)
    decreases |s|
  {
    if s != [] {
      var t := [c] + s;
      var u := s[..|s| - 1];
      assert t[..|t| - 1] == [c] + u;
      LeadingDigit(c, u);
      assert t[|t| - 1] == s[|s| - 1];
      assert Pow10(|s|) == 10 * Pow10(|u|);
      ShiftDigit(DigitValue(c), Pow10(|u|), DigitsToNat(u), DigitValue(s[|s| - 1]));
    }
  }

  /** Appending a digit to a number with a leading part `d * p`. */
  lemma ShiftDigit(d: nat, p: nat, n: nat, v: nat)
    ensures (d * p + n) * 10 + v == d * (10 * p) + (n * 10 + v)
  {
    calc {
      (d * p + n) * 10 + v;
      (d * p) * 10 + n * 10 + v;
      d * (p * 10) + n * 10 + v;
    }
  }

  /** A larger leading digit outweighs whatever digits follow. */
  lemma LeadingDigitDominates(x: nat, u: nat, y: nat, v: nat, p: nat)
    requires u < p && v < p
    ensures x < y ==> x * p + u < y * p + v
  {
    if x < y {
      calc {
        x * p + u;
      <
        x * p + p;
      ==
        (x + 1) * p;
      <=  { assert x + 1 <= y; }
        y * p;
      <=
        y * p + v;
      }
    }
  }

  /** Among digit texts of one length, the one with the smaller value comes first in string order. */
  lemma {:induction false} SmallerValueFirst(a: string, b: string)
    requires |a| == |b| && AllDigits(a) && AllDigits(b)
    requires DigitsToNat(a) < DigitsToNat(b)
    ensures StrLt(a, b)
    decreases |a|
  {
    var a', b' := a[1..], b[1..];
    assert a == [a[0]] + a' && b == [b[0]] + b';
    assert a[0] in a && b[0] in b;
    LeadingDigit(a[0], a');
    LeadingDigit(b[0], b');
    DigitsBound(a');
    DigitsBound(b');
    var p := Pow10(|a'|);
    LeadingDigitDominates(DigitValue(b[0]), DigitsToNat(b'), DigitValue(a[0]), DigitsToNat(a'), p);
    LeadingDigitDominates(DigitValue(a[0]), DigitsToNat(a'), DigitValue(b[0]), DigitsToNat(b'), p);
    if a[0] == b[0] {
      assert forall c :: c in a' ==> c in a;
      assert forall c :: c in b' ==> c in b;
      SmallerValueFirst(a', b');
    }
  }
}
