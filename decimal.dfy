/** Decimal rendering of integers, as Python's `str(int)` and an f-string `{i}`
    produce it: an optional minus sign followed by decimal digits without
    leading zeros. `ToNat` reads the digits back, which gives injectivity. */
module Decimal {

  predicate IsDigit(c: char) {
    '0' <= c <= '9'
  }

  predicate AllDigits(s: string) {
    forall k :: 0 <= k < |s| ==> IsDigit(s[k])
  }

  function DigitValue(c: char): nat
    requires IsDigit(c)
  {
    c as int - '0' as int
  }

  function DigitChar(d: nat): (c: char)
    requires d < 10
    ensures IsDigit(c) && DigitValue(c) == d
  {
    (d + '0' as int) as char
  }

  /** The digits of `n`, most significant first. */
  function FromNat(n: nat): (s: string)
    ensures 1 <= |s| && AllDigits(s)
    ensures s[0] == '0' ==> n == 0 && s == "0"
    decreases n
  {
    if n < 10 then [DigitChar(n)] else FromNat(n / 10) + [DigitChar(n % 10)]
  }

  /** The number a string of digits denotes. */
  function ToNat(s: string): nat
    requires AllDigits(s)
  {
    if s == [] then 0 else 10 * ToNat(s[..|s| - 1]) + DigitValue(s[|s| - 1])
  }

  lemma {:induction false} ToNatFromNat(n: nat)
    ensures ToNat(FromNat(n)) == n
    decreases n
  {
    if n >= 10 {
      ToNatFromNat(n / 10);
      var s := FromNat(n);
      assert s[..|s| - 1] == FromNat(n / 10);
    }
  }

  lemma FromNatInjective(a: nat, b: nat)
    ensures FromNat(a) == FromNat(b) ==> a == b
  {
    ToNatFromNat(a);
    ToNatFromNat(b);
  }

  /** Python's `str` of an integer. */
  function FromInt(i: int): (s: string)
    ensures 1 <= |s|
    ensures s[0] == '-' <==> i < 0
    ensures i >= 0 ==> AllDigits(s) && ToNat(s) == i
    ensures i < 0 ==> AllDigits(s[1..]) && ToNat(s[1..]) == -i
    // no leading zeros: only 0 itself starts with '0', and no negative has '0' after its sign
    ensures i >= 0 && s[0] == '0' ==> i == 0 && s == "0"
    ensures i < 0 ==> 2 <= |s| && s[1] != '0'
  {
    if i < 0 then
      ToNatFromNat(-i);
      assert ("-" + FromNat(-i))[1..] == FromNat(-i);
      "-" + FromNat(-i)
    else
      ToNatFromNat(i);
      FromNat(i)
  }
}
