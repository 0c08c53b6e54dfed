/** Decimal integers as the pets file spells them: `str(age)` when writing and
    `int(age)` when reading. */
module Numerals {
  import opened Wrappers

  predicate IsDigit(c: char) {
    '0' <= c <= '9'
  }

  predicate AllDigits(s: string) {
    forall k :: 0 <= k < |s| ==> IsDigit(s[k])
  }

  function DigitChar(d: nat): (c: char)
    requires d < 10
    ensures IsDigit(c) && c as int - '0' as int == d
  {
    (d + '0' as int) as char
  }

  /** The value of a string of decimal digits, most significant first. */
  function DigitsValue(s: string): nat
    requires AllDigits(s)
  {
    if |s| == 0 then 0
    else DigitsValue(s[..|s| - 1]) * 10 + (s[|s| - 1] as int - '0' as int)
  }

  /** `str(n)` for a natural number: its decimal digits, no leading zero. */
  function FormatNat(n: nat): (s: string)
    ensures |s| >= 1 && AllDigits(s)
    ensures s[0] == '0' ==> n == 0 && s == "0"
    ensures DigitsValue(s) == n
  {
    if n < 10 then [DigitChar(n)]
    else
      var s := FormatNat(n / 10) + [DigitChar(n % 10)];
      assert s[..|s| - 1] == FormatNat(n / 10);
      s
  }

  /** `str(n)`: a minus sign for negative numbers, then the digits. */
  function FormatInt(n: int): (s: string)
    ensures |s| >= 1
    ensures forall k :: 0 <= k < |s| ==> IsDigit(s[k]) || s[k] == '-'
    ensures s[0] == '-' <==> n < 0
    ensures IsCanonicalInt(s)
  {
    if n < 0 then "-" + FormatNat(-n) else FormatNat(n)
  }

  /** The integer literals `int()` accepts in this model: an optional minus sign
      followed by at least one decimal digit. */
  predicate IsIntLiteral(s: string) {
    if |s| > 0 && s[0] == '-' then |s| > 1 && AllDigits(s[1..])
    else |s| > 0 && AllDigits(s)
  }

  /** `int(s)`, or `None` where Python raises `ValueError`. */
  function ParseInt(s: string): (r: Option<int>)
    ensures r.Some? <==> IsIntLiteral(s)
  {
    if |s| > 0 && s[0] == '-' then
      if |s| > 1 && AllDigits(s[1..]) then Some(0 - DigitsValue(s[1..]) as int) else None
    else if |s| > 0 && AllDigits(s) then Some(DigitsValue(s) as int)
    else None
  }

  /** Reading back a written integer gives the same integer. */
  lemma ParseFormat(n: int)
    ensures ParseInt(FormatInt(n)) == Some(n)
  {
    if n < 0 {
      var s := FormatInt(n);
      assert s[1..] == FormatNat(-n);
    }
  }

  /** The spelling `str()` produces: no superfluous leading zero, no `-0`. */
  predicate IsCanonicalInt(s: string) {
    if |s| > 0 && s[0] == '-' then |s| > 1 && AllDigits(s[1..]) && s[1] != '0'
    else |s| > 0 && AllDigits(s) && (s[0] == '0' ==> |s| == 1)
  }

  /** A digit string is worth at least its first digit. */
  lemma {:induction false} DigitsValueAtLeastFirst(s: string)
    requires |s| >= 1 && AllDigits(s)
    ensures DigitsValue(s) >= s[0] as int - '0' as int
    decreases |s|
  {
    if |s| > 1 {
      var init := s[..|s| - 1];
      assert init[0] == s[0];
      DigitsValueAtLeastFirst(init);
    }
  }

  /** Formatting the value of a canonical digit string gives the string back. */
  lemma {:induction false} FormatDigitsValue(s: string)
    requires |s| >= 1 && AllDigits(s) && (s[0] == '0' ==> |s| == 1)
    ensures FormatNat(DigitsValue(s)) == s
    decreases |s|
  {
    if |s| > 1 {
      var init := s[..|s| - 1];
      var last := s[|s| - 1] as int - '0' as int;
      assert init[0] == s[0];
      DigitsValueAtLeastFirst(init);
      FormatDigitsValue(init);
      var n := DigitsValue(s);
      assert n == DigitsValue(init) * 10 + last;
      assert n / 10 == DigitsValue(init) && n % 10 == last;
      assert s == init + [s[|s| - 1]];
    }
  }

  /** Writing back a canonically spelled integer reproduces its spelling. */
  lemma FormatParse(s: string)
    requires IsCanonicalInt(s)
    ensures ParseInt(s).Some? && FormatInt(ParseInt(s).value) == s
  {
    if |s| > 0 && s[0] == '-' {
      var d := s[1..];
      FormatDigitsValue(d);
      DigitsValueAtLeastFirst(d);
      assert s == "-" + d;
    } else {
      FormatDigitsValue(s);
    }
  }

  /** A leading zero adds nothing to a digit string's value. */
  lemma {:induction false} DigitsValueLeadingZero(d: string)
    requires AllDigits(d)
    ensures AllDigits("0" + d) && DigitsValue("0" + d) == DigitsValue(d)
    decreases |d|
  {
    var z := "0" + d;
    assert AllDigits(z) by {
      forall k | 0 <= k < |z| ensures IsDigit(z[k]) {
        if k > 0 { assert z[k] == d[k - 1]; }
      }
    }
    if |d| > 0 {
      var init := d[..|d| - 1];
      assert z[..|z| - 1] == "0" + init;
      assert z[|z| - 1] == d[|d| - 1];
      DigitsValueLeadingZero(init);
    }
  }

  /** `int()` ignores leading zeros, after a minus sign too, and reads `-0` as
      zero. With `FormatParse`, this fixes the value of every literal. */
  lemma ParseIntLeadingZero(d: string)
    requires |d| > 0 && AllDigits(d)
    ensures ParseInt("0" + d) == ParseInt(d)
    ensures ParseInt("-0" + d) == ParseInt("-" + d)
    ensures ParseInt("-0") == Some(0)
  {
    DigitsValueLeadingZero(d);
    assert ("-0" + d)[1..] == "0" + d;
    assert ("-" + d)[1..] == d;
    assert "-0"[1..] == "0";
  }
}
