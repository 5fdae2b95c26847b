/** Decimal text: what the library's string-to-number conversions do on digits. */
module Decimal {

  predicate IsDigit(c: char) {
    '0' <= c <= '9'
  }

  predicate AllDigits(s: string) {
    forall i :: 0 <= i < |s| ==> IsDigit(s[i])
  }

  function DigitOf(n: nat): (c: char)
    requires n < 10
    ensures IsDigit(c) && ValueOf(c) == n
  {
    n as char + '0'
  }

  function ValueOf(c: char): nat
    requires IsDigit(c)
  {
    (c - '0') as nat
  }

  function ToNat(s: string): nat
    requires AllDigits(s)
  {
    if s == "" then 0 else ToNat(s[..|s| - 1]) * 10 + ValueOf(s[|s| - 1])
  }

  function OfNat(n: nat): (s: string)
    ensures s != "" && AllDigits(s)
  {
    if n < 10 then [DigitOf(n)] else OfNat(n / 10) + [DigitOf(n % 10)]
  }

  /** Reading back a printed number. */
  lemma {:induction false} ToNatOfNat(n: nat)
    ensures ToNat(OfNat(n)) == n
  {
    if n >= 10 {
      ToNatOfNat(n / 10);
      assert OfNat(n)[..|OfNat(n)| - 1] == OfNat(n / 10);
    } else {
      assert OfNat(n)[..0] == "";
    }
  }

  /** Base ten: a digit behind s makes ten times the number, plus the digit's distance from '0'. */
  lemma ToNatBehind(s: string, c: char)
    requires AllDigits(s) && '0' <= c <= '9'
    ensures AllDigits(s + [c]) && ToNat("") == 0
    ensures ToNat(s + [c]) == 10 * ToNat(s) + (c as int - '0' as int)
  {
    assert (s + [c])[..|s|] == s;
  }

  /** A number as one prints it: digits, at least one, and no zero in front of others. */
  predicate Canonical(s: string) {
    && s != ""
    && (forall i :: 0 <= i < |s| ==> '0' <= s[i] <= '9')
    && (s[0] == '0' ==> s == "0")
  }

  lemma {:induction false} OfNatCanonical(n: nat)
    ensures Canonical(OfNat(n)) && (OfNat(n)[0] == '0' <==> n == 0)
  {
    if n >= 10 {
      OfNatCanonical(n / 10);
    }
  }

  lemma {:induction false} CanonicalPositive(s: string)
    requires AllDigits(s) && s != "" && s[0] != '0'
    ensures ToNat(s) > 0
    decreases |s|
  {
    if |s| > 1 {
      CanonicalPositive(s[..|s| - 1]);
    }
  }

  lemma DigitOfValue(c: char)
    requires IsDigit(c)
    ensures ValueOf(c) < 10 && DigitOf(ValueOf(c)) == c
  {
  }

  lemma OneDigitUnique(s: string)
    requires AllDigits(s) && |s| == 1
    ensures s == OfNat(ToNat(s))
  {
    DigitOfValue(s[0]);
    assert s[..0] == "";
    assert s == [s[0]];
  }

  lemma ToNatLast(s: string)
    requires AllDigits(s) && s != ""
    ensures ToNat(s) / 10 == ToNat(s[..|s| - 1]) && ToNat(s) % 10 == ValueOf(s[|s| - 1])
  {
    DigitOfValue(s[|s| - 1]);
  }

  lemma {:induction false} CanonicalIsOfNat(s: string)
    requires AllDigits(s) && Canonical(s)
    ensures s == OfNat(ToNat(s))
    decreases |s|
  {
    if |s| == 1 {
      OneDigitUnique(s);
    } else {
      var front := s[..|s| - 1];
      CanonicalPositive(front);
      CanonicalIsOfNat(front);
      ToNatLast(s);
      DigitOfValue(s[|s| - 1]);
      assert s == front + [s[|s| - 1]];
    }
  }

  /** The printed number is the only canonical text that reads as the number. */
  lemma OfNatUnique(s: string, n: nat)
    requires AllDigits(s)
    ensures Canonical(s) && ToNat(s) == n <==> s == OfNat(n)
  {
    OfNatCanonical(n);
    ToNatOfNat(n);
    if Canonical(s) {
      CanonicalIsOfNat(s);
    }
  }

  function Abs(n: int): nat {
    if n < 0 then -n else n
  }

  function OfInt(n: int): string {
    if n < 0 then "-" + OfNat(-n) else OfNat(n)
  }

  function StringToInt(s: string, default: nat): nat
    requires AllDigits(s)
  {
    if s == "" then default else ToNat(s)
  }
}
