/**
 * The few pieces of .NET string behaviour the task handlers rely on:
 * `char.IsWhiteSpace`, `string.IsNullOrWhiteSpace`, `string.IsNullOrEmpty`,
 * `string.Join`, and the decimal text of an `int` used in string
 * interpolation.
 */
module DotNetText {
  import opened Wrappers

  /** `char.IsWhiteSpace`: the Unicode space separators, the line and
      paragraph separators, U+0009..U+000D and U+0085. */
  predicate IsWhiteSpace(c: char) {
    var n := c as int;
    || (0x09 <= n <= 0x0D)
    || n == 0x20
    || n == 0x85
    || n == 0xA0
    || n == 0x1680
    || (0x2000 <= n <= 0x200A)
    || n == 0x2028
    || n == 0x2029
    || n == 0x202F
    || n == 0x205F
    || n == 0x3000
  }

  /** `string.IsNullOrWhiteSpace`: null, empty, or whitespace only. */
  predicate IsNullOrWhiteSpace(s: Option<string>) {
    match s
    case None => true
    case Some(t) => forall i :: 0 <= i < |t| ==> IsWhiteSpace(t[i])
  }

  /** `string.IsNullOrEmpty`: null or of length zero. */
  predicate IsNullOrEmpty(s: Option<string>) {
    s.None? || s.value == ""
  }

  /** A whitespace-only string is caught by IsNullOrWhiteSpace but not by
      IsNullOrEmpty; the two agree on null and on the empty string. */
  lemma BlankIsNotEmpty(s: string)
    requires |s| > 0 && forall i :: 0 <= i < |s| ==> IsWhiteSpace(s[i])
    ensures IsNullOrWhiteSpace(Some(s)) && !IsNullOrEmpty(Some(s))
  {
  }

  /** `string.Join(sep, parts)`: the parts in order with `sep` between
      neighbours and nowhere else. */
  function Join(sep: string, parts: seq<string>): (r: string)
    ensures |parts| == 0 ==> r == ""
    ensures |parts| > 0 ==> |r| == SumOfLengths(parts) + (|parts| - 1) * |sep|
  {
    if |parts| == 0 then ""
    else if |parts| == 1 then parts[0]
    else parts[0] + sep + Join(sep, parts[1..])
  }

  function SumOfLengths(parts: seq<string>): nat {
    if |parts| == 0 then 0 else |parts[0]| + SumOfLengths(parts[1..])
  }

  /** Joining one more part appends the separator and that part: the parts
      appear in order, with `sep` between each pair of neighbours. */
  lemma {:induction false} JoinSnoc(sep: string, parts: seq<string>, p: string)
    requires |parts| > 0
    ensures Join(sep, parts + [p]) == Join(sep, parts) + sep + p
    decreases |parts|
  {
    var all := parts + [p];
    if |parts| == 1 {
      assert all[1..] == [p];
    } else {
      assert all[1..] == parts[1..] + [p];
      JoinSnoc(sep, parts[1..], p);
    }
  }

  // ---------------------------------------------------------------------
  // Decimal text of an integer, as `$"{id}"` produces it for an `int`
  // under a culture whose negative sign is '-': an optional '-' followed by
  // the digits, no leading zeros; and a parser that inverts it.

  predicate IsDigit(c: char) {
    '0' <= c <= '9'
  }

  predicate AllDigits(s: string) {
    forall i :: 0 <= i < |s| ==> IsDigit(s[i])
  }

  function DigitChar(d: nat): (c: char)
    requires d < 10
    ensures IsDigit(c) && c as int - '0' as int == d
  {
    ('0' as int + d) as char
  }

  function NatToDecimal(n: nat): (s: string)
    decreases n
  {
    if n < 10 then [DigitChar(n)] else NatToDecimal(n / 10) + [DigitChar(n % 10)]
  }

  function IntToDecimal(n: int): (s: string) {
    if n < 0 then "-" + NatToDecimal(-n) else NatToDecimal(n)
  }

  /** The value of a string of decimal digits, most significant first. */
  function DigitsValue(s: string): nat
    requires AllDigits(s)
  {
    if |s| == 0 then 0
    else DigitsValue(s[..|s| - 1]) * 10 + (s[|s| - 1] as int - '0' as int)
  }

  /** Reads back an optional '-' and at least one digit; anything else is
      not a decimal integer. */
  function ParseDecimal(s: string): (r: Option<int>) {
    if |s| > 1 && s[0] == '-' && AllDigits(s[1..]) then Some(0 - DigitsValue(s[1..]) as int)
    else if |s| > 0 && AllDigits(s) then Some(DigitsValue(s))
    else None
  }

  lemma {:induction false} NatToDecimalRoundTrip(n: nat)
    ensures |NatToDecimal(n)| > 0 && AllDigits(NatToDecimal(n))
    ensures DigitsValue(NatToDecimal(n)) == n
    decreases n
  {
    if n >= 10 {
      NatToDecimalRoundTrip(n / 10);
      var s := NatToDecimal(n);
      assert s[..|s| - 1] == NatToDecimal(n / 10);
    }
  }

  /** The decimal text of every `int` reads back as that `int`. */
  lemma IntToDecimalRoundTrip(n: int)
    ensures ParseDecimal(IntToDecimal(n)) == Some(n)
  {
    if n < 0 {
      NatToDecimalRoundTrip(-n);
      var s := IntToDecimal(n);
      assert s[1..] == NatToDecimal(-n);
    } else {
      NatToDecimalRoundTrip(n);
    }
  }

  /** Distinct integers have distinct decimal texts. */
  lemma IntToDecimalInjective(a: int, b: int)
    requires IntToDecimal(a) == IntToDecimal(b)
    ensures a == b
  {
    IntToDecimalRoundTrip(a);
    IntToDecimalRoundTrip(b);
  }
}
