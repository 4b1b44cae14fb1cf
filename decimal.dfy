/**
 * Decimal rendering of non-negative integers, as the standard formatter prints
 * them with `{}` (no leading zeros) and `{:0w}` (left-padded with zeros to at
 * least w characters).  DigitsValue is the independent reference reading of a
 * digit string against which the renderings are proved.
 */
module Decimal {

  predicate IsDigit(c: char) {
    '0' <= c <= '9'
  }

  predicate AllDigits(s: string) {
    forall i | 0 <= i < |s| :: IsDigit(s[i])
  }

  function DigitChar(d: nat): (c: char)
    requires d < 10
    ensures IsDigit(c) && c as int - '0' as int == d
  {
    ('0' as int + d) as char
  }

  function DigitValue(c: char): (d: nat)
    requires IsDigit(c)
    ensures d < 10
  {
    c as int - '0' as int
  }

  /** The number a digit string denotes, most significant digit first. */
  function DigitsValue(s: string): nat
    requires AllDigits(s)
    decreases |s|
  {
    if s == [] then 0 else DigitsValue(s[..|s| - 1]) * 10 + DigitValue(s[|s| - 1])
  }

  /** The shortest decimal rendering of n, as `{}` prints it. */
  function NatToString(n: nat): (s: string)
    ensures |s| >= 1 && AllDigits(s)
    ensures |s| > 1 ==> s[0] != '0'
    decreases n
  {
    if n < 10 then [DigitChar(n)] else NatToString(n / 10) + [DigitChar(n % 10)]
  }

  /** `{:0w}`: pad s on the left with '0' until it is at least `width` long. */
  function ZeroPad(s: string, width: nat): (r: string)
    ensures |r| == (if |s| >= width then |s| else width)
    decreases width - |s|
  {
    if |s| >= width then s else ZeroPad("0" + s, width)
  }

  lemma {:induction false} NatToStringValue(n: nat)
    ensures DigitsValue(NatToString(n)) == n
    decreases n
  {
    if n >= 10 {
      NatToStringValue(n / 10);
      var s := NatToString(n);
      assert s[..|s| - 1] == NatToString(n / 10);
    }
  }

  lemma NatToStringInjective(m: nat, n: nat)
    ensures NatToString(m) == NatToString(n) ==> m == n
  {
    NatToStringValue(m);
    NatToStringValue(n);
  }

  lemma {:induction false} LeadingZeroValue(s: string)
    requires AllDigits(s)
    ensures AllDigits("0" + s) && DigitsValue("0" + s) == DigitsValue(s)
    decreases |s|
  {
    assert AllDigits("0" + s) by {
      forall i | 0 <= i < |"0" + s| ensures IsDigit(("0" + s)[i]) {
        if i > 0 { assert ("0" + s)[i] == s[i - 1]; }
      }
    }
    if s != [] {
      var t := "0" + s;
      assert t[..|t| - 1] == "0" + s[..|s| - 1];
      LeadingZeroValue(s[..|s| - 1]);
    }
  }

  lemma {:induction false} ZeroPadValue(s: string, width: nat)
    requires AllDigits(s)
    ensures AllDigits(ZeroPad(s, width)) && DigitsValue(ZeroPad(s, width)) == DigitsValue(s)
    decreases width - |s|
  {
    if |s| < width {
      LeadingZeroValue(s);
      ZeroPadValue("0" + s, width);
    }
  }

  /** `{:02}` of a number below 100 is exactly two digits denoting it. */
  lemma TwoDigitPad(n: nat)
    requires n < 100
    ensures var r := ZeroPad(NatToString(n), 2);
      |r| == 2 && AllDigits(r) && DigitsValue(r) == n
  {
    NatToStringValue(n);
    ZeroPadValue(NatToString(n), 2);
    if n >= 10 {
      assert NatToString(n) == NatToString(n / 10) + [DigitChar(n % 10)];
    }
  }
}
