/** Decimal text: the digits-only part of `std::stoul` and of writing an unsigned
    integer to a stream. */
module Decimal {
  import opened Bits

  predicate IsDigit(c: char) {
    '0' <= c <= '9'
  }

  function DigitChar(d: nat): (c: char)
    requires d < 10
    ensures IsDigit(c)
  {
    ('0' as int + d) as char
  }

  predicate AllDigits(s: string) {
    forall i :: 0 <= i < |s| ==> IsDigit(s[i])
  }

  /** The decimal text of `x`, without leading zeros. */
  function ToDecimal(x: nat): (s: string)
    ensures |s| >= 1 && AllDigits(s)
  {
    if x < 10 then [DigitChar(x)] else ToDecimal(x / 10) + [DigitChar(x % 10)]
  }

  /** The number a string of digits denotes. */
  function DigitsValue(s: string): nat
    requires AllDigits(s)
  {
    if s == [] then 0
    else DigitsValue(s[..|s| - 1]) * 10 + (s[|s| - 1] as int - '0' as int)
  }

  /** Length of the run of digits `s` starts with. */
  function LeadingDigits(s: string): (n: nat)
    ensures n <= |s| && AllDigits(s[..n])
    ensures n < |s| ==> !IsDigit(s[n])
  {
    if s == [] || !IsDigit(s[0]) then 0
    else
      var n := 1 + LeadingDigits(s[1..]);
      assert s[..n] == [s[0]] + s[1..][..n - 1];
      n
  }

  /** `std::stoul(s, &pos)`: a number and the count of characters it used, or an
      exception when no digit starts `s` or the value exceeds 64 bits. */
  datatype Parsed = Number(value: u64, consumed: nat) | Throws

  function Stoul(s: string): (r: Parsed)
    ensures r.Number? ==> 1 <= r.consumed <= |s|
  {
    var n := LeadingDigits(s);
    if n == 0 then Throws
    else
      var v := DigitsValue(s[..n]);
      if v < TWO_64 then Number(v, n) else Throws
  }

  lemma {:induction false} DigitsValueOfDecimal(x: nat)
    ensures DigitsValue(ToDecimal(x)) == x
  {
    if x >= 10 {
      var s := ToDecimal(x);
      assert s[..|s| - 1] == ToDecimal(x / 10);
      DigitsValueOfDecimal(x / 10);
    }
  }

  lemma {:induction false} LeadingDigitsOf(t: string, rest: string)
    requires AllDigits(t)
    requires rest == [] || !IsDigit(rest[0])
    ensures LeadingDigits(t + rest) == |t|
  {
    if t != [] {
      assert (t + rest)[1..] == t[1..] + rest;
      LeadingDigitsOf(t[1..], rest);
    } else {
      assert t + rest == rest;
    }
  }

  /** `stoul` reads back exactly the text written for a 64-bit value, stopping at
      the first character that is not a digit. */
  lemma StoulOfDecimal(x: u64, rest: string)
    requires rest == [] || !IsDigit(rest[0])
    ensures Stoul(ToDecimal(x) + rest) == Number(x, |ToDecimal(x)|)
  {
    var t := ToDecimal(x);
    LeadingDigitsOf(t, rest);
    assert (t + rest)[..|t|] == t;
    DigitsValueOfDecimal(x);
  }
}
