/**
 * Java's 64-bit `long` and the decimal parse `Long.valueOf(String)` that the
 * get-children endpoint applies to a node token.
 */
module JavaLong {
  import opened Wrappers

  const MinLong: int := -0x8000_0000_0000_0000
  const MaxLong: int := 0x7FFF_FFFF_FFFF_FFFF

  /** The values a Java `long` can hold. */
  type Long = x: int | MinLong <= x <= MaxLong

  predicate IsDigit(c: char) {
    '0' <= c <= '9'
  }

  predicate AllDigits(s: string) {
    forall i :: 0 <= i < |s| ==> IsDigit(s[i])
  }

  function DigitValue(c: char): (d: nat)
    requires IsDigit(c)
    ensures d < 10
  {
    c as int - '0' as int
  }

  function DigitChar(d: nat): (c: char)
    requires d < 10
    ensures IsDigit(c) && DigitValue(c) == d
  {
    ('0' as int + d) as char
  }

  /** The number a string of decimal digits denotes, most significant digit first. */
  function DigitsValue(s: string): (v: nat)
    requires AllDigits(s)
  {
    if s == [] then 0 else DigitsValue(s[..|s| - 1]) * 10 + DigitValue(s[|s| - 1])
  }

  /**
   * `Long.valueOf(s)` in radix 10: an optional leading '-' or '+', then at
   * least one digit, and a value that fits in a `long`. Every other string
   * (the empty string, a lone sign, a stray character, an overflow) makes
   * Java throw NumberFormatException, here `None`.
   */
  function ParseLong(s: string): (r: Option<Long>)
    ensures r.Some? ==> |s| > 0 && (s[0] == '-' || s[0] == '+' || IsDigit(s[0]))
    ensures r.Some? && s[0] == '-' ==> r.value <= 0
    ensures r.Some? && s[0] != '-' ==> r.value >= 0
  {
    if |s| == 0 then None
    else
      var digits := if s[0] == '-' || s[0] == '+' then s[1..] else s;
      if |digits| == 0 || !AllDigits(digits) then None
      else
        var v: int := if s[0] == '-' then -(DigitsValue(digits) as int) else DigitsValue(digits);
        if MinLong <= v <= MaxLong then Some(v) else None
  }

  /** Decimal digits of a natural number, without leading zeros. */
  function NatDigits(n: nat): (s: string)
  {
    if n < 10 then [DigitChar(n)] else NatDigits(n / 10) + [DigitChar(n % 10)]
  }

  /** `Long.toString(v)`: the canonical decimal form, '-' only for negatives. */
  function FormatLong(v: Long): (s: string)
  {
    if v < 0 then "-" + NatDigits(-(v as int)) else NatDigits(v)
  }

  lemma {:induction false} NatDigitsValue(n: nat)
    ensures |NatDigits(n)| > 0 && AllDigits(NatDigits(n))
    ensures DigitsValue(NatDigits(n)) == n
  {
    if n >= 10 {
      NatDigitsValue(n / 10);
      var s := NatDigits(n);
      assert s[..|s| - 1] == NatDigits(n / 10);
    }
  }

  /** Parsing the canonical decimal form of a `long` gives that `long` back. */
  lemma ParseFormatLong(v: Long)
    ensures ParseLong(FormatLong(v)) == Some(v)
  {
    var s := FormatLong(v);
    if v < 0 {
      var d := NatDigits(-(v as int));
      NatDigitsValue(-(v as int));
      assert s == "-" + d;
      assert s[0] == '-' && s[1..] == d;
    } else {
      NatDigitsValue(v);
      assert IsDigit(s[0]);
    }
  }
}
