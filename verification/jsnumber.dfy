/**
 * The JavaScript number values the pixel code works with, as far as the
 * code can observe them: the integers `parseInt` yields, `NaN`, and
 * `undefined` (a missing destructured component). Also the two conversions
 * the storage key relies on: a number's decimal text inside a template
 * literal, and `parseInt` with no radix argument.
 */
module JsNumber {

  datatype Num = Int(value: int) | NaN | Undefined

  predicate IsDecimalDigit(c: char) {
    '0' <= c <= '9'
  }

  function DigitChar(d: nat): (c: char)
    requires d < 10
    ensures IsDecimalDigit(c)
  {
    ('0' as int + d) as char
  }

  /** Decimal digits of a natural number, most significant first, without leading zeros. */
  function NatToDecimal(n: nat): (s: string)
    ensures |s| >= 1
    ensures forall i :: 0 <= i < |s| ==> IsDecimalDigit(s[i])
    decreases n
  {
    if n < 10 then [DigitChar(n)] else NatToDecimal(n / 10) + [DigitChar(n % 10)]
  }

  /** The text a value produces inside a template literal (`${x}`). */
  function ToString(x: Num): string {
    match x
    case Int(v) => if v < 0 then "-" + NatToDecimal(-v) else NatToDecimal(v)
    case NaN => "NaN"
    case Undefined => "undefined"
  }

  /** The characters `parseInt` skips before the number: JavaScript white space and line terminators. */
  predicate IsWhitespace(c: char) {
    || c == '\t' || c == '\n' || c == '\U{000B}' || c == '\U{000C}' || c == '\r' || c == ' '
    || c == '\U{00A0}' || c == '\U{1680}' || ('\U{2000}' <= c <= '\U{200A}')
    || c == '\U{2028}' || c == '\U{2029}' || c == '\U{202F}' || c == '\U{205F}'
    || c == '\U{3000}' || c == '\U{FEFF}'
  }

  function TrimStart(s: string): (t: string)
    ensures |t| <= |s| && t == s[|s| - |t|..]
    ensures forall i :: 0 <= i < |s| - |t| ==> IsWhitespace(s[i])
    ensures |t| > 0 ==> !IsWhitespace(t[0])
  {
    if |s| > 0 && IsWhitespace(s[0]) then TrimStart(s[1..]) else s
  }

  /** The value of a digit character in radix 36; 36 for anything that is not a digit. */
  function DigitValue(c: char): (d: nat)
    ensures d <= 36
  {
    if '0' <= c <= '9' then c as int - '0' as int
    else if 'a' <= c <= 'z' then c as int - 'a' as int + 10
    else if 'A' <= c <= 'Z' then c as int - 'A' as int + 10
    else 36
  }

  /** The longest prefix of `s` made of digits of the given radix. */
  function DigitPrefix(s: string, radix: nat): (z: string)
    ensures z <= s
    ensures forall i :: 0 <= i < |z| ==> DigitValue(z[i]) < radix
    ensures |z| < |s| ==> DigitValue(s[|z|]) >= radix
  {
    if |s| == 0 || DigitValue(s[0]) >= radix then [] else [s[0]] + DigitPrefix(s[1..], radix)
  }

  /** The value of a digit string, most significant digit first. */
  function DigitsValue(z: string, radix: nat): nat {
    if |z| == 0 then 0 else DigitsValue(z[..|z| - 1], radix) * radix + DigitValue(z[|z| - 1])
  }

  /** The number read from the longest digit prefix of `w`, or NaN when `w` does not start with a digit. */
  function DigitsToNum(w: string, radix: nat): (r: Num)
    ensures r.NaN? || r.Int?
    ensures r.NaN? <==> (|w| == 0 || DigitValue(w[0]) >= radix)
  {
    var z := DigitPrefix(w, radix);
    if |z| == 0 then NaN else Int(DigitsValue(z, radix))
  }

  /** The unsigned part of `parseInt`: hexadecimal after a `0x`/`0X` prefix, decimal otherwise. */
  function ParseUnsigned(u: string): (r: Num)
    ensures r.NaN? || r.Int?
    ensures var hex := |u| >= 2 && u[0] == '0' && (u[1] == 'x' || u[1] == 'X');
      r.NaN? <==> if hex then |u| == 2 || DigitValue(u[2]) >= 16 else |u| == 0 || DigitValue(u[0]) >= 10
  {
    if |u| >= 2 && u[0] == '0' && (u[1] == 'x' || u[1] == 'X') then DigitsToNum(u[2..], 16)
    else DigitsToNum(u, 10)
  }

  /** Unary minus; -0 is the same number as 0 for every comparison the code makes. */
  function Negate(x: Num): Num {
    if x.Int? then Int(-x.value) else x
  }

  /**
   * `parseInt(s)` with no radix: skip leading white space, take an optional
   * sign, read hexadecimal after a `0x`/`0X` prefix and decimal otherwise,
   * and stop at the first character that is not a digit; no digit at all
   * gives NaN. The value is the exact integer (see README for rounding).
   */
  function ParseInt(s: string): (r: Num)
    ensures r != Undefined
  {
    var t := TrimStart(s);
    if |t| > 0 && t[0] == '-' then Negate(ParseUnsigned(t[1..]))
    else if |t| > 0 && t[0] == '+' then ParseUnsigned(t[1..])
    else ParseUnsigned(t)
  }

  lemma {:induction false} DigitPrefixOfDigits(s: string, radix: nat)
    requires forall i :: 0 <= i < |s| ==> DigitValue(s[i]) < radix
    ensures DigitPrefix(s, radix) == s
  {
    if |s| > 0 {
      DigitPrefixOfDigits(s[1..], radix);
    }
  }

  lemma {:induction false} DecimalValue(n: nat)
    ensures DigitsValue(NatToDecimal(n), 10) == n
    decreases n
  {
    if n >= 10 {
      var s := NatToDecimal(n);
      assert s[..|s| - 1] == NatToDecimal(n / 10);
      DecimalValue(n / 10);
    }
  }

  /** A decimal rendering never contains the key separator. */
  lemma ToStringHasNoUnderscore(x: Num)
    ensures '_' !in ToString(x)
  {
    var s := ToString(x);
    if x.Int? {
      var digits := NatToDecimal(if x.value < 0 then -x.value else x.value);
      assert forall i :: 0 <= i < |s| ==> s[i] == '-' || IsDecimalDigit(s[i]);
    } else {
      assert forall i :: 0 <= i < |s| ==> s[i] != '_';
    }
  }

  /** `parseInt` of a string of decimal digits. */
  lemma ParseDecimal(digits: string)
    requires |digits| >= 1 && forall i :: 0 <= i < |digits| ==> IsDecimalDigit(digits[i])
    ensures ParseUnsigned(digits) == Int(DigitsValue(digits, 10))
  {
    assert !(|digits| >= 2 && digits[0] == '0' && (digits[1] == 'x' || digits[1] == 'X')) by {
      if |digits| >= 2 { assert IsDecimalDigit(digits[1]); }
    }
    DigitPrefixOfDigits(digits, 10);
  }

  /** `parseInt` reads past leading zeros. */
  lemma ParseLeadingZeros(zeros: string, digits: string)
    requires |zeros| > 0 && forall i :: 0 <= i < |zeros| ==> zeros[i] == '0'
    requires |digits| >= 1 && forall i :: 0 <= i < |digits| ==> IsDecimalDigit(digits[i])
    ensures ParseInt(zeros + digits) == ParseInt(digits)
  {
    var padded := zeros + digits;
    assert forall i :: 0 <= i < |padded| ==> IsDecimalDigit(padded[i]);
    DecimalDigitsParse(padded, DigitsValue(padded, 10));
    DecimalDigitsParse(digits, DigitsValue(digits, 10));
    ZerosAddNothing(zeros, digits);
  }

  lemma {:induction false} ZerosAddNothing(zeros: string, digits: string)
    requires forall i :: 0 <= i < |zeros| ==> zeros[i] == '0'
    ensures DigitsValue(zeros + digits, 10) == DigitsValue(digits, 10)
    decreases |digits|
  {
    if |digits| == 0 {
      assert zeros + digits == zeros;
      ZerosValue(zeros);
    } else {
      var n := |digits|;
      assert (zeros + digits)[..|zeros| + n - 1] == zeros + digits[..n - 1];
      ZerosAddNothing(zeros, digits[..n - 1]);
    }
  }

  lemma {:induction false} ZerosValue(zeros: string)
    requires forall i :: 0 <= i < |zeros| ==> zeros[i] == '0'
    ensures DigitsValue(zeros, 10) == 0
  {
    if |zeros| > 0 {
      ZerosValue(zeros[..|zeros| - 1]);
    }
  }

  /** `parseInt` of text that starts with a digit reads it unsigned. */
  lemma ParseFromDigit(t: string)
    requires |t| > 0 && IsDecimalDigit(t[0])
    ensures ParseInt(t) == ParseUnsigned(t)
  {
    assert !IsWhitespace(t[0]);
    assert TrimStart(t) == t;
  }

  /** `parseInt` of `-` followed by text reads the text unsigned and negates it. */
  lemma ParseMinus(u: string)
    ensures ParseInt("-" + u) == Negate(ParseUnsigned(u))
  {
    var t := "-" + u;
    assert t[0] == '-' && !IsWhitespace(t[0]);
    assert TrimStart(t) == t;
    assert t[1..] == u;
  }

  /** `parseInt` of a string of decimal digits is their value. */
  lemma DecimalDigitsParse(digits: string, n: nat)
    requires |digits| >= 1 && forall i :: 0 <= i < |digits| ==> IsDecimalDigit(digits[i])
    requires DigitsValue(digits, 10) == n
    ensures ParseInt(digits) == Int(n)
  {
    ParseDecimal(digits);
    ParseFromDigit(digits);
  }

  /** `parseInt` of the text "NaN" is NaN. */
  lemma ParseNaN()
    ensures ParseInt("NaN") == NaN
  {
    var t := "NaN";
    assert !IsWhitespace(t[0]) && t[0] != '-' && t[0] != '+' && t[0] != '0';
    assert TrimStart(t) == t;
    assert DigitValue(t[0]) >= 10;
    assert DigitPrefix(t, 10) == [];
  }

  /** `parseInt` reads back every number it can be given as text; only `undefined` does not survive. */
  lemma ParseIntToString(x: Num)
    requires x != Undefined
    ensures ParseInt(ToString(x)) == x
  {
    match x
    case NaN =>
      ParseNaN();
    case Int(v) =>
      var n: nat := if v < 0 then -v else v;
      var digits := NatToDecimal(n);
      ParseDecimal(digits);
      DecimalValue(n);
      if v < 0 {
        assert ToString(x) == "-" + digits;
        ParseMinus(digits);
      } else {
        assert ToString(x) == digits;
        ParseFromDigit(digits);
      }
  }
}
