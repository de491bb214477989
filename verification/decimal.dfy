/**
 * Decimal text: the `/^\d+$/` segment test, `Number(segment)` on an all-digit segment, and the
 * decimal text JavaScript gives an integer (`String(n)`, which `JSON.stringify` shares).
 */
module Decimal {

  /** An ASCII decimal digit: what `\d` matches in a regular expression without the `u` flag. */
  predicate IsDigit(c: char) {
    '0' <= c <= '9'
  }

  /** `/^\d+$/.test(s)`: a non-empty run of digits and nothing else. */
  predicate IsDigits(s: string)
    ensures IsDigits(s) <==> |s| > 0 && forall i :: 0 <= i < |s| ==> '0' <= s[i] <= '9'
  {
    |s| > 0 && AllDigits(s)
  }

  predicate AllDigits(s: string) {
    forall i :: 0 <= i < |s| ==> IsDigit(s[i])
  }

  /** A segment whose first character is not a digit is a field name. */
  lemma NotDigits(s: string)
    requires |s| > 0 && !IsDigit(s[0])
    ensures !IsDigits(s)
  {
  }

  function DigitValue(c: char): (d: nat)
    requires IsDigit(c)
    ensures d < 10
  {
    c as int - '0' as int
  }

  function DigitChar(d: nat): (c: char)
    requires d < 10
    ensures IsDigit(c) && DigitValue(c) == d
  {
    ('0' as int + d) as char
  }

  /** `10` to the power `k`. */
  function Pow10(k: nat): (p: nat)
    ensures p >= 1
  {
    if k == 0 then 1 else 10 * Pow10(k - 1)
  }

  /**
   * The number a run of digits denotes, leading zeros and all: `Number("01") == 1`. A run of
   * `k` digits stays below `10^k`, and reaches `10^(k-1)` when it does not start with `0`.
   */
  function DigitsValue(s: string): (n: nat)
    requires AllDigits(s)
    ensures n < Pow10(|s|)
    ensures |s| > 0 && s[0] != '0' ==> Pow10(|s| - 1) <= n
  {
    if |s| == 0 then 0
    else
      var init := s[..|s| - 1];
      assert |init| > 0 ==> init[0] == s[0];
      DigitsValue(init) * 10 + DigitValue(s[|s| - 1])
  }

  /** The shortest decimal text of `n`: no leading zero except for `0` itself. */
  function NatText(n: nat): (r: string)
    ensures IsDigits(r)
    ensures DigitsValue(r) == n
    ensures r[0] == '0' ==> n == 0 && r == "0"
  {
    if n < 10 then [DigitChar(n)]
    else
      var r := NatText(n / 10) + [DigitChar(n % 10)];
      assert r[..|r| - 1] == NatText(n / 10);
      r
  }

  /** The decimal text of an integer, with a leading `-` when it is negative. */
  function IntText(n: int): (r: string)
    ensures |r| > 0
    ensures n >= 0 ==> IsDigits(r) && DigitsValue(r) == n
    ensures n < 0 ==> r[0] == '-' && IsDigits(r[1..]) && DigitsValue(r[1..]) == -n && r[1] != '0'
    ensures n >= 0 ==> Canonical(r)
    ensures n < 0 ==> Canonical(r[1..])
  {
    if n < 0 then "-" + NatText(-n) else NatText(n)
  }

  /** A digit run without a redundant leading zero is the decimal text of its own value. */
  predicate Canonical(s: string) {
    IsDigits(s) && (s[0] == '0' ==> |s| == 1)
  }

  /** The segments that address the same number are exactly those with the same canonical text. */
  lemma {:induction false} NatTextOfCanonical(s: string)
    requires Canonical(s)
    ensures NatText(DigitsValue(s)) == s
  {
    var n := DigitsValue(s);
    if |s| == 1 {
      assert s[..|s| - 1] == [];
      assert DigitsValue(s[..|s| - 1]) == 0;
      assert n == DigitValue(s[0]);
      assert NatText(n) == [DigitChar(n)];
    } else {
      var init := s[..|s| - 1];
      assert init[0] == s[0];
      assert Canonical(init);
      NatTextOfCanonical(init);
      assert DigitsValue(init) >= 1;
      assert n / 10 == DigitsValue(init) && n % 10 == DigitValue(s[|s| - 1]);
      assert init + [s[|s| - 1]] == s;
    }
  }

  /** How many digits `s` starts with. */
  function LeadingDigits(s: string): (k: nat)
    ensures k <= |s|
    ensures AllDigits(s[..k])
    ensures k < |s| ==> !IsDigit(s[k])
  {
    if |s| == 0 || !IsDigit(s[0]) then 0
    else
      var k := 1 + LeadingDigits(s[1..]);
      assert s[..k] == [s[0]] + s[1..][..k - 1];
      k
  }

  /**
   * The `/^\d+$/` segment test agrees with the digit scanner `JSON.parse` uses: a string passes
   * exactly when it is non-empty and the scanner reads all of it.
   */
  lemma DigitTestMatchesScanner(s: string)
    ensures IsDigits(s) <==> |s| > 0 && LeadingDigits(s) == |s|
  {
  }

  /** Digits followed by a non-digit: the leading run is exactly the digits. */
  lemma {:induction false} LeadingDigitsOfRun(digits: string, rest: string)
    requires AllDigits(digits)
    requires rest == [] || !IsDigit(rest[0])
    ensures LeadingDigits(digits + rest) == |digits|
  {
    if |digits| > 0 {
      assert (digits + rest)[1..] == digits[1..] + rest;
      LeadingDigitsOfRun(digits[1..], rest);
    } else {
      assert digits + rest == rest;
    }
  }
}
