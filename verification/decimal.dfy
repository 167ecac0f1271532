/** Decimal text for integers as JavaScript produces and reads it: `String(n)`,
    `parseInt(s, 10)` and `padStart(width, '0')`. */
module Decimal {
  import opened Basics
  import Text

  predicate IsDigit(c: char)
  {
    '0' <= c <= '9'
  }

  predicate AllDigits(s: string)
  {
    forall i :: 0 <= i < |s| ==> IsDigit(s[i])
  }

  function DigitChar(d: nat): (c: char)
    requires d < 10
    ensures IsDigit(c)
  {
    ('0' as int + d) as char
  }

  function DigitValue(c: char): (d: nat)
    requires IsDigit(c)
    ensures d < 10
  {
    c as int - '0' as int
  }

  /** `String(n)` for a non-negative integer: most significant digit first, no leading zero. */
  function NatToString(n: nat): (r: string)
    ensures r != [] && AllDigits(r)
    ensures r[0] == '0' ==> n == 0 && r == "0"
  {
    if n < 10 then [DigitChar(n)] else NatToString(n / 10) + [DigitChar(n % 10)]
  }

  /** `String(i)` for an integer. */
  function IntToString(i: int): (r: string)
  {
    if i < 0 then "-" + NatToString(-i) else NatToString(i)
  }

  /** The value of a string of digits, most significant first. */
  function DigitsValue(s: string): nat
    requires AllDigits(s)
  {
    if s == [] then 0 else DigitsValue(s[..|s| - 1]) * 10 + DigitValue(s[|s| - 1])
  }

  /** The longest prefix of `s` made of digits. */
  function LeadingDigits(s: string): (r: string)
    ensures r <= s && AllDigits(r)
    ensures |r| == |s| || !IsDigit(s[|r|])
  {
    if s != [] && IsDigit(s[0]) then [s[0]] + LeadingDigits(s[1..]) else []
  }

  /** `parseInt(s, 10)`: leading white space is skipped, then an optional sign, then the
      longest run of digits; with no digit at all the result is NaN, here `None`. */
  function ParseInt(s: string): Option<int>
  {
    var t := Text.TrimStart(s);
    var negative := t != [] && t[0] == '-';
    var body := if t != [] && (t[0] == '-' || t[0] == '+') then t[1..] else t;
    var digits := LeadingDigits(body);
    if digits == [] then None
    else
      var magnitude: int := DigitsValue(digits);
      Some(if negative then -magnitude else magnitude)
  }

  /** `parseInt(form.get(name) as string, 10)`: a field that was not sent is `null`,
      which `parseInt` reads as the text "null" and so as NaN. */
  function ParseIntField(field: Option<string>): Option<int>
  {
    if field.None? then None else ParseInt(field.value)
  }

  lemma {:induction false} NatToStringValue(n: nat)
    ensures DigitsValue(NatToString(n)) == n
  {
    var r := NatToString(n);
    if n >= 10 {
      NatToStringValue(n / 10);
      assert r[..|r| - 1] == NatToString(n / 10);
    }
  }

  lemma AllDigitsLeading(s: string)
    requires AllDigits(s)
    ensures LeadingDigits(s) == s
  {
  }

  /** A string with no leading white space is left alone by the white-space skip. */
  lemma TrimStartKeeps(s: string)
    requires s != [] && !Text.IsJsSpace(s[0])
    ensures Text.TrimStart(s) == s
  {
  }

  /** `Number.MAX_SAFE_INTEGER`, 2^53 - 1. JavaScript numbers are doubles: integers
      beyond it are not all representable, and from 1e21 on `String(n)` switches to
      exponent notation, which `NatToString` does not produce. */
  const MAX_SAFE_INTEGER: int := 9007199254740991

  /** An integer JavaScript holds exactly and writes with `String` as plain digits. */
  predicate SafeInteger(i: int)
  {
    -MAX_SAFE_INTEGER <= i <= MAX_SAFE_INTEGER
  }

  /** `parseInt(String(i), 10) == i`: decimal text round-trips for every safe integer. */
  lemma ParseIntRoundTrip(i: int)
    requires SafeInteger(i)
    ensures ParseInt(IntToString(i)) == Some(i)
  {
    var s := IntToString(i);
    TrimStartKeeps(s);
    var n: nat := if i < 0 then -i else i;
    var digits := NatToString(n);
    assert (if s[0] == '-' || s[0] == '+' then s[1..] else s) == digits;
    AllDigitsLeading(digits);
    NatToStringValue(n);
  }

  /** A form field sent as `String(i)` parses back to i. */
  lemma ParseIntFieldRoundTrip(i: int)
    requires SafeInteger(i)
    ensures ParseIntField(Some(IntToString(i))) == Some(i)
  {
    ParseIntRoundTrip(i);
  }

  /** Different integers have different decimal texts. */
  lemma IntToStringInjective(i: int, j: int)
    requires IntToString(i) == IntToString(j)
    ensures i == j
  {
    // the sign character tells the signs apart, and the digits give the magnitude
    var s := IntToString(i);
    var m: nat := if i < 0 then -i else i;
    var n: nat := if j < 0 then -j else j;
    assert (i < 0) == (s[0] == '-');
    assert (j < 0) == (s[0] == '-');
    var digits := if i < 0 then s[1..] else s;
    assert NatToString(m) == digits;
    assert NatToString(n) == digits;
    NatToStringValue(m);
    NatToStringValue(n);
  }

  /** `s.padStart(width, c)`. */
  function PadStart(s: string, width: nat, c: char): (r: string)
    ensures |r| == if |s| >= width then |s| else width
    decreases width - |s|
  {
    if |s| >= width then s else PadStart([c] + s, width, c)
  }

  /** The padded text ends with the original and is filled with `c` in front of it. */
  lemma {:induction false} PadStartShape(s: string, width: nat, c: char)
    ensures var r := PadStart(s, width, c);
            r[|r| - |s|..] == s && forall k :: 0 <= k < |r| - |s| ==> r[k] == c
    decreases width - |s|
  {
    if |s| < width {
      PadStartShape([c] + s, width, c);
    }
  }

  /** No superfluous leading zero: the shape of every `String(i)`. */
  predicate Canonical(s: string)
  {
    s != [] && (s[0] == '0' ==> |s| == 1)
  }

  lemma IntToStringCanonical(i: int)
    ensures Canonical(IntToString(i))
  {
  }

  /** Zero-padding is injective on canonical decimal texts. */
  lemma PadStartInjective(a: string, b: string, width: nat)
    requires Canonical(a) && Canonical(b)
    requires PadStart(a, width, '0') == PadStart(b, width, '0')
    ensures a == b
  {
    // the longer text's first digit would sit where the shorter one's padding is:
    // a zero in front of further digits, which a canonical text does not have
    PadStartShape(a, width, '0');
    PadStartShape(b, width, '0');
    var p := PadStart(a, width, '0');
    assert p[|p| - |a|] == a[0] && p[|p| - |b|] == b[0];
  }

  function Pow10(k: nat): (r: nat)
    ensures r >= 1
  {
    if k == 0 then 1 else 10 * Pow10(k - 1)
  }

  /** A number below `10^k` has at most `k` digits. */
  lemma {:induction false} NatToStringLength(n: nat, k: nat)
    requires 1 <= k && n < Pow10(k)
    ensures |NatToString(n)| <= k
  {
    if n >= 10 {
      assert k >= 2;
      assert n / 10 < Pow10(k - 1);
      NatToStringLength(n / 10, k - 1);
    }
  }
}
