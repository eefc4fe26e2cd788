/**
  Decimal numerals: the `f"{n}"` rendering of a non-negative integer and the
  parsing done by Python's `int(token)` on a whitespace-free token.
 */
module Numerals {
  import opened Wrappers

  predicate IsDigit(c: char) {
    '0' <= c <= '9'
  }

  predicate AllDigits(s: string) {
    forall i :: 0 <= i < |s| ==> IsDigit(s[i])
  }

  function DigitValue(c: char): (d: nat)
    requires IsDigit(c)
    ensures d < 10
  {
    c as int - '0' as int
  }

  function DigitChar(d: nat): (c: char)
    requires d < 10
    ensures IsDigit(c) && DigitValue(c) == d
  {
    ('0' as int + d) as char
  }

  /** The value of a string of decimal digits, most significant first (empty reads as 0). */
  function DigitsValue(s: string): nat
    requires AllDigits(s)
  {
    if |s| == 0 then 0 else DigitsValue(s[..|s| - 1]) * 10 + DigitValue(s[|s| - 1])
  }

  function Pow10(k: nat): (p: nat)
    ensures p >= 1
  {
    if k == 0 then 1 else 10 * Pow10(k - 1)
  }

  /** A numeral of `k` digits denotes less than `10^k`. */
  lemma {:induction false} DigitsValueBound(s: string)
    requires AllDigits(s)
    ensures DigitsValue(s) < Pow10(|s|)
  {
    if |s| > 0 {
      DigitsValueBound(s[..|s| - 1]);
    }
  }

  /** `str(n)` for `n >= 0`: the shortest decimal numeral, which reads back as `n`. */
  function NatToString(n: nat): (r: string)
    ensures |r| > 0 && AllDigits(r)
    ensures |r| > 1 ==> r[0] != '0'
    ensures DigitsValue(r) == n
    ensures |r| == 1 <==> n < 10
  {
    if n < 10 then [DigitChar(n)]
    else
      var high := NatToString(n / 10);
      var r := high + [DigitChar(n % 10)];
      assert r[..|r| - 1] == high;
      r
  }

  /** Numerals of the magnitudes the bot renders have the expected lengths. */
  lemma NatToStringLength(n: nat)
    ensures 1 <= n < 100 ==> |NatToString(n)| <= 2
    ensures 1000 <= n < 10000 ==> |NatToString(n)| == 4
    ensures n < 1000 ==> |NatToString(n)| < 4
  {
    if n >= 10 {
      if n >= 100 {
        if n >= 1000 {
          assert n / 10 >= 100;
        }
      }
    }
  }

  /** The canonical numeral of a value is the only one without a leading zero. */
  lemma {:induction false} CanonicalNumeral(s: string)
    requires |s| > 0 && AllDigits(s) && (|s| > 1 ==> s[0] != '0')
    ensures NatToString(DigitsValue(s)) == s
  {
    var n := DigitsValue(s);
    var init := s[..|s| - 1];
    if |s| == 1 {
      assert init == "" && DigitsValue(init) == 0;
      assert n == DigitsValue(init) * 10 + DigitValue(s[0]);
      assert [DigitChar(n)] == s;
    } else {
      CanonicalNumeral(init);
      assert init[..|init| - 1] == s[..|s| - 2];
      PositiveNumeral(init);
      assert n / 10 == DigitsValue(init);
      assert NatToString(n) == NatToString(n / 10) + [DigitChar(n % 10)];
      assert s == init + [s[|s| - 1]];
    }
  }

  /** A numeral that does not start with `0` denotes at least `10^(length-1)`. */
  lemma {:induction false} PositiveNumeral(s: string)
    requires |s| > 0 && AllDigits(s) && s[0] != '0'
    ensures DigitsValue(s) > 0
    ensures |s| > 1 ==> DigitsValue(s) >= 10
  {
    if |s| > 1 {
      var init := s[..|s| - 1];
      assert init[0] == s[0];
      PositiveNumeral(init);
    }
  }

  /** `int(s)` for a token: an optional sign followed by at least one ASCII digit. */
  function ParseInt(s: string): (r: Option<int>)
    ensures r.Some? <==> (|s| > 0 && AllDigits(s)) || (|s| > 1 && (s[0] == '+' || s[0] == '-') && AllDigits(s[1..]))
    ensures r.Some? && |s| > 0 && s[0] == '-' ==> r.value <= 0
    ensures r.Some? && |s| > 0 && s[0] != '-' ==> r.value >= 0
    ensures r.Some? && s[0] == '-' ==> r.value == -(DigitsValue(s[1..]) as int)
    ensures r.Some? && s[0] == '+' ==> r.value == DigitsValue(s[1..])
    ensures r.Some? && IsDigit(s[0]) ==> r.value == DigitsValue(s)
  {
    if |s| > 1 && (s[0] == '+' || s[0] == '-') && AllDigits(s[1..]) then
      var magnitude: int := DigitsValue(s[1..]);
      Some(if s[0] == '-' then -magnitude else magnitude)
    else if |s| > 0 && AllDigits(s) then Some(DigitsValue(s))
    else None
  }

  /** A sign and leading zeros do not change the number `int` reads. */
  lemma LenientNumerals()
    ensures ParseInt("1") == Some(1) && ParseInt("+1") == Some(1)
    ensures ParseInt("01") == Some(1) && ParseInt("+01") == Some(1)
    ensures ParseInt("-0") == Some(0) && ParseInt("-2") == Some(-2)
    ensures ParseInt("") == None && ParseInt("+") == None && ParseInt("1a") == None
  {
    assert "+1"[1..] == "1" && "+01"[1..] == "01" && "-0"[1..] == "0" && "-2"[1..] == "2";
    LeadingZero("1");
    assert "0" + "1" == "01";
    assert !IsDigit("1a"[1]);
  }

  /** `str(n)` for any integer. */
  function IntToString(n: int): string {
    if n < 0 then "-" + NatToString(-n) else NatToString(n)
  }

  /** `int(str(n)) == n`. */
  lemma ParseIntRoundTrip(n: int)
    ensures ParseInt(IntToString(n)) == Some(n)
  {
    if n < 0 {
      assert IntToString(n)[1..] == NatToString(-n);
    }
  }

  /** Leading zeros do not change the value `int` reads. */
  lemma {:induction false} LeadingZero(s: string)
    requires AllDigits(s)
    ensures AllDigits("0" + s) && DigitsValue("0" + s) == DigitsValue(s)
  {
    var z := "0" + s;
    if |s| > 0 {
      LeadingZero(s[..|s| - 1]);
      assert z[..|z| - 1] == "0" + s[..|s| - 1];
    }
  }
}
