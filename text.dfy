/**
 * Character classes of the field patterns, Rust's `i32` parsing and
 * printing, and the string joins used by the template engine.
 */
module Text {
  import opened Wrappers

  /** `\d`, restricted to ASCII digits (see README, "Left out"). */
  predicate IsDigit(c: char)
  {
    '0' <= c <= '9'
  }

  /** The regex class `[[:space:]]`: space, tab, line feed, vertical tab, form feed, carriage return. */
  predicate IsSpace(c: char)
  {
    c == ' ' || c == '\t' || c == '\n' || c == '\r' || c == 11 as char || c == 12 as char
  }

  /** The regex class `[[:word:]]`: `[0-9A-Za-z_]`. */
  predicate IsWordChar(c: char)
  {
    IsDigit(c) || 'a' <= c <= 'z' || 'A' <= c <= 'Z' || c == '_'
  }

  predicate AllDigits(s: string)
  {
    forall i :: 0 <= i < |s| ==> IsDigit(s[i])
  }

  function DigitValue(c: char): nat
    requires IsDigit(c)
  {
    (c as int) - ('0' as int)
  }

  function DigitChar(d: nat): (c: char)
    requires d < 10
    ensures IsDigit(c) && DigitValue(c) == d
  {
    ('0' as int + d) as char
  }

  /** The value of a string of decimal digits, most significant first. */
  function DigitsValue(s: string): nat
    requires AllDigits(s)
  {
    if |s| == 0 then 0 else DigitsValue(s[..|s| - 1]) * 10 + DigitValue(s[|s| - 1])
  }

  const I32_MIN: int := -0x8000_0000
  const I32_MAX: int := 0x7FFF_FFFF

  predicate IsI32(n: int)
  {
    I32_MIN <= n <= I32_MAX
  }

  /**
   * `str::parse::<i32>`: an optional sign followed by at least one ASCII
   * digit, whose value fits in 32 bits; anything else is an error (None).
   */
  function ParseI32(s: string): (r: Option<int>)
    ensures r.Some? ==> IsI32(r.value)
    ensures r.Some? ==> |s| > 0 && (IsDigit(s[0]) || s[0] == '-' || s[0] == '+')
    ensures |s| > 0 && s[0] == '-' ==>
      (r.Some? <==> |s| > 1 && AllDigits(s[1..]) && DigitsValue(s[1..]) <= -I32_MIN)
    ensures |s| > 0 && s[0] == '-' && r.Some? ==> r.value == -(DigitsValue(s[1..]) as int)
    ensures |s| > 0 && s[0] == '+' ==>
      (r.Some? <==> |s| > 1 && AllDigits(s[1..]) && DigitsValue(s[1..]) <= I32_MAX)
    ensures |s| > 0 && s[0] == '+' && r.Some? ==> r.value == DigitsValue(s[1..])
    ensures AllDigits(s) ==> (r.Some? <==> |s| > 0 && DigitsValue(s) <= I32_MAX)
    ensures AllDigits(s) && r.Some? ==> r.value == DigitsValue(s)
    ensures |s| > 0 && s[0] != '-' && s[0] != '+' && !AllDigits(s) ==> r.None?
  {
    var signed := |s| > 0 && (s[0] == '-' || s[0] == '+');
    var digits := if signed then s[1..] else s;
    if |digits| == 0 || !AllDigits(digits) then None
    else
      var magnitude: int := DigitsValue(digits);
      var v := if signed && s[0] == '-' then -magnitude else magnitude;
      if IsI32(v) then Some(v) else None
  }

  /** Leading zeros do not change the value of a run of digits. */
  lemma {:induction false} LeadingZeroValue(d: string)
    requires AllDigits(d)
    ensures AllDigits("0" + d) && DigitsValue("0" + d) == DigitsValue(d)
    decreases |d|
  {
    var z := "0" + d;
    if |d| > 0 {
      var init := d[..|d| - 1];
      assert z[..|z| - 1] == "0" + init;
      assert z[|z| - 1] == d[|d| - 1];
      LeadingZeroValue(init);
    }
  }

  /** `"007"` parses like `"7"`: a numeral with leading zeros is its digits' value. */
  lemma ParseI32LeadingZero(d: string)
    requires |d| > 0 && AllDigits(d)
    ensures ParseI32("0" + d) == ParseI32(d)
    ensures ParseI32("-0" + d) == ParseI32("-" + d)
  {
    LeadingZeroValue(d);
    assert ("-0" + d)[1..] == "0" + d;
    assert ("-" + d)[1..] == d;
  }

  /** A sign alone or the empty text is no number. */
  lemma ParseI32NoDigits()
    ensures ParseI32("").None? && ParseI32("-").None? && ParseI32("+").None?
  {
  }

  /** A sign or leading zeros before the digits are accepted: `-0` is 0, `+7` and `007` are 7. */
  lemma ParseI32Spellings()
    ensures ParseI32("-0") == Some(0) && ParseI32("+7") == Some(7) && ParseI32("007") == Some(7)
  {
    ParseSevenZeros();
    ParseSigned("-", "0");
    ParseSigned("+", "7");
  }

  lemma ParseSevenZeros()
    ensures ParseI32("007") == Some(7)
  {
    var seven := "7";
    assert AllDigits(seven) && DigitsValue(seven) == 7;
    var zeroSeven := "0" + seven;
    ParseI32LeadingZero(seven);
    ParseI32LeadingZero(zeroSeven);
    assert "0" + zeroSeven == "007";
  }

  lemma ParseSigned(sign: string, d: string)
    requires sign == "-" || sign == "+"
    requires d == "0" || d == "7"
    ensures ParseI32(sign + d) == Some(if sign == "-" then -(DigitValue(d[0]) as int) else DigitValue(d[0]) as int)
  {
    assert (sign + d)[1..] == d && (sign + d)[0] == sign[0];
    assert AllDigits(d) && DigitsValue(d) == DigitValue(d[0]);
  }

  /** Decimal digits of a natural number, without leading zeros. */
  function NatToString(n: nat): (s: string)
    ensures |s| > 0 && AllDigits(s)
  {
    if n < 10 then [DigitChar(n)] else NatToString(n / 10) + [DigitChar(n % 10)]
  }

  /** `i32::to_string`: a minus sign for negative values, then the digits of the magnitude. */
  function IntToString(n: int): (s: string)
    ensures |s| > 0
  {
    if n < 0 then "-" + NatToString(-n) else NatToString(n)
  }

  lemma {:induction false} NatToStringValue(n: nat)
    ensures DigitsValue(NatToString(n)) == n
  {
    if n >= 10 {
      var s := NatToString(n);
      assert s[..|s| - 1] == NatToString(n / 10);
      NatToStringValue(n / 10);
    }
  }

  /** Printing a line number and parsing it back gives the number again. */
  lemma ParseIntToString(n: int)
    requires IsI32(n)
    ensures ParseI32(IntToString(n)) == Some(n)
  {
    var m: nat := if n < 0 then -n else n;
    NatToStringValue(m);
    var d := NatToString(m);
    if n < 0 {
      assert ("-" + d)[1..] == d;
    } else {
      assert IsDigit(d[0]);
    }
  }

  /** `[S]::join(sep)`: the parts with `sep` between consecutive parts. */
  function Join(parts: seq<string>, sep: string): string
  {
    if |parts| == 0 then "" else if |parts| == 1 then parts[0] else parts[0] + sep + Join(parts[1..], sep)
  }

  /** `collect::<String>()` over string pieces: plain concatenation. */
  function Concat(parts: seq<string>): string
  {
    if |parts| == 0 then "" else parts[0] + Concat(parts[1..])
  }

  lemma {:induction false} ConcatAppend(a: seq<string>, b: seq<string>)
    ensures Concat(a + b) == Concat(a) + Concat(b)
  {
    if |a| > 0 {
      assert (a + b)[1..] == a[1..] + b;
      ConcatAppend(a[1..], b);
    } else {
      assert a + b == b;
    }
  }
}
