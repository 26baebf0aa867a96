/** Decimal text of Rust's `i64`: `format!("{}", id)` (Display) and
    `i64::from_str`, the two conversions the preference file relies on. */
module Decimal {
  import opened Common

  predicate IsDigit(c: char) {
    '0' <= c <= '9'
  }

  predicate AllDigits(s: string) {
    forall i :: 0 <= i < |s| ==> IsDigit(s[i])
  }

  function DigitChar(d: nat): (c: char)
    requires d < 10
    ensures IsDigit(c) && c as int - '0' as int == d
  {
    ('0' as int + d) as char
  }

  /** The value of a string of decimal digits, most significant first. */
  function DigitsValue(s: string): nat
    requires AllDigits(s)
  {
    if s == [] then 0
    else DigitsValue(s[..|s| - 1]) * 10 + (s[|s| - 1] as int - '0' as int)
  }

  /** Shortest decimal digits of a natural number (no leading zeros). */
  function NatToDecimal(n: nat): (s: string)
    ensures |s| > 0 && AllDigits(s)
    ensures n == 0 || s[0] != '0'
    decreases n
  {
    if n < 10 then [DigitChar(n)]
    else NatToDecimal(n / 10) + [DigitChar(n % 10)]
  }

  /** The digits of `n` denote `n`. */
  lemma {:induction false} NatToDecimalValue(n: nat)
    ensures DigitsValue(NatToDecimal(n)) == n
    decreases n
  {
    if n >= 10 {
      var prefix := NatToDecimal(n / 10);
      var s := NatToDecimal(n);
      assert s[..|s| - 1] == prefix;
      NatToDecimalValue(n / 10);
    }
  }

  /** `format!("{}", x)` for an `i64`: a '-' only for negative values, never a '+'. */
  function FormatI64(x: int64): string {
    if x < 0 then "-" + NatToDecimal(-(x as int)) else NatToDecimal(x as int)
  }

  /** The value a sign and digits denote, before the range check. */
  function SignedValue(negative: bool, digits: string): int
    requires AllDigits(digits)
  {
    if negative then -(DigitsValue(digits) as int) else DigitsValue(digits)
  }

  /** `i64::from_str`: an optional '+' or '-', then one or more ASCII digits,
      denoting a value in the range of `i64`; None otherwise (empty text, a
      lone sign, any other character, overflow). */
  function ParseI64(s: string): Option<int64>
  {
    if s == [] then None
    else
      var negative := s[0] == '-';
      var body := if s[0] == '+' || s[0] == '-' then s[1..] else s;
      if body == [] || !AllDigits(body) then None
      else
        var v := SignedValue(negative, body);
        if MinI64 <= v <= MaxI64 then Some(v as int64) else None
  }

  /** The decimal text of an id holds only digits and a leading '-': no space, no newline. */
  lemma FormatI64Characters(x: int64)
    ensures |FormatI64(x)| > 0
    ensures forall i :: 0 <= i < |FormatI64(x)| ==> IsDigit(FormatI64(x)[i]) || (i == 0 && x < 0 && FormatI64(x)[i] == '-')
  {
  }

  /** Round trip: parsing the decimal text of any `i64`, negative ones and the
      extremes included, gives the same `i64`. */
  lemma ParseFormatI64(x: int64)
    ensures ParseI64(FormatI64(x)) == Some(x)
  {
    var s := FormatI64(x);
    if x < 0 {
      var digits := NatToDecimal(-(x as int));
      NatToDecimalValue(-(x as int));
      assert s[1..] == digits;
      assert s[0] == '-';
    } else {
      var digits := NatToDecimal(x as int);
      NatToDecimalValue(x as int);
      assert IsDigit(s[0]);
    }
  }
}
