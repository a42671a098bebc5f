/**
 Decimal rendering of a natural number, as Rust's `{}` formats a `usize`,
 together with the parser that reads it back.
 */
module Decimal {

  predicate IsDigit(c: char) {
    '0' <= c <= '9'
  }

  predicate AllDigits(s: string) {
    forall k :: 0 <= k < |s| ==> IsDigit(s[k])
  }

  function DigitChar(d: nat): (c: char)
    requires d < 10
    ensures IsDigit(c)
  {
    ('0' as int + d) as char
  }

  function DigitValue(c: char): (d: nat)
    requires IsDigit(c)
    ensures d < 10
  {
    c as int - '0' as int
  }

  /** The decimal digits of `n`, most significant first, without leading
      zeros. */
  function FromNat(n: nat): (s: string)
    ensures 0 < |s|
    ensures AllDigits(s)
    ensures 1 < |s| ==> s[0] != '0'
  {
    if n < 10 then [DigitChar(n)] else FromNat(n / 10) + [DigitChar(n % 10)]
  }

  /** The number a string of decimal digits denotes. */
  function ToNat(s: string): nat
    requires AllDigits(s)
  {
    if |s| == 0 then 0 else ToNat(s[..|s| - 1]) * 10 + DigitValue(s[|s| - 1])
  }

  /** Reading back a rendered number gives the number. */
  lemma {:induction false} ToNatFromNat(n: nat)
    ensures ToNat(FromNat(n)) == n
  {
    var s := FromNat(n);
    if n < 10 {
    } else {
      ToNatFromNat(n / 10);
      assert s[..|s| - 1] == FromNat(n / 10);
    }
  }

  /** A decimal numeral as `{}` writes one: at least one digit, and no
      leading zero unless the numeral is `0` itself. */
  predicate IsNumeral(s: string) {
    0 < |s| && AllDigits(s) && (1 < |s| ==> s[0] != '0')
  }

  /** A numeral that does not start with `0` denotes a positive number. */
  lemma {:induction false} ToNatPositive(s: string)
    requires 0 < |s| && AllDigits(s) && s[0] != '0'
    ensures 0 < ToNat(s)
    decreases |s|
  {
    if 1 < |s| {
      ToNatPositive(s[..|s| - 1]);
    }
  }

  /** Rendering the number a numeral denotes gives the numeral back, so a
      numeral is the only one that denotes its number. */
  lemma {:induction false} FromNatToNat(s: string)
    requires IsNumeral(s)
    ensures FromNat(ToNat(s)) == s
    decreases |s|
  {
    var n := |s| - 1;
    if n == 0 {
      assert FromNat(ToNat(s)) == [s[0]];
    } else {
      var init := s[..n];
      ToNatPositive(init);
      FromNatToNat(init);
      assert s == init + [s[n]];
    }
  }

  /** Length of the longest prefix of `s` made of digits. */
  function DigitRun(s: string): (k: nat)
    ensures k <= |s|
    ensures AllDigits(s[..k])
    ensures k < |s| ==> !IsDigit(s[k])
    decreases |s|
  {
    if |s| == 0 || !IsDigit(s[0]) then
      0
    else
      var k := DigitRun(s[1..]);
      assert s[..k + 1] == [s[0]] + s[1..][..k];
      k + 1
  }

  /** The digit run of digits followed by a non-digit ends at that non-digit. */
  lemma DigitRunOf(digits: string, rest: string)
    requires AllDigits(digits)
    requires 0 < |rest| && !IsDigit(rest[0])
    ensures DigitRun(digits + rest) == |digits|
  {
    var s := digits + rest;
    assert s[|digits|] == rest[0];
  }
}
