/**
 * The part of JavaScript's number semantics the encoder depends on: the
 * global `parseInt`, and `NaN`, which is what `parseInt` returns when it finds
 * no digits and what every arithmetic or byte conversion turns `undefined`
 * into.
 */
module JsNumber {
  import opened JsString

  /**
   * A JavaScript number as the encoder meets it: an integer, or `NaN`.
   * `undefined` (an attribute table miss) is represented by `NaN`, since every
   * use of it in the encoder (a sum, a conversion to a byte) yields `NaN`'s
   * result.
   */
  datatype Num = NaN | Int(value: int)

  /** JavaScript `+` on two numbers: `NaN` if either side is. */
  function Add(a: Num, b: Num): (r: Num)
    ensures r.Int? <==> a.Int? && b.Int?
    ensures r.Int? ==> r.value == a.value + b.value
  {
    if a.Int? && b.Int? then Int(a.value + b.value) else NaN
  }

  /** The radix argument of `parseInt`: left out, or 10. */
  datatype Radix = Unspecified | Ten

  predicate IsDecimalDigit(c: char) {
    '0' <= c <= '9'
  }

  predicate IsDigit(c: char, base: nat) {
    if base == 16 then IsDecimalDigit(c) || 'a' <= c <= 'f' || 'A' <= c <= 'F'
    else IsDecimalDigit(c)
  }

  function DigitValue(c: char): nat {
    if IsDecimalDigit(c) then c as int - '0' as int
    else if 'a' <= c <= 'f' then c as int - 'a' as int + 10
    else if 'A' <= c <= 'F' then c as int - 'A' as int + 10
    else 0
  }

  /** Every character of `s` is a digit of the given base. */
  predicate AllDigits(s: string, base: nat) {
    forall k :: 0 <= k < |s| ==> IsDigit(s[k], base)
  }

  /** The longest prefix of `s` made of digits of the given base. */
  function DigitPrefix(s: string, base: nat): (r: string)
    ensures |r| <= |s| && r == s[..|r|]
    ensures AllDigits(r, base)
    ensures |r| < |s| ==> !IsDigit(s[|r|], base)
  {
    if s != [] && IsDigit(s[0], base) then
      var rest := DigitPrefix(s[1..], base);
      assert s[..|rest| + 1] == [s[0]] + rest;
      [s[0]] + rest
    else []
  }

  /** The value of a digit string in the given base, most significant digit first. */
  function DigitsValue(z: string, base: nat): nat {
    if z == [] then 0 else DigitsValue(z[..|z| - 1], base) * base + DigitValue(z[|z| - 1])
  }

  /**
   * The global `parseInt(s)` (radix left out) and `parseInt(s, 10)`: skip
   * leading white space, take one optional sign, and, when the radix is left
   * out, a `0x`/`0X` prefix that switches to base 16; then read the longest
   * run of digits. No digits gives `NaN`. (`-0` is represented by 0, which every
   * use in the encoder treats alike.)
   */
  function ParseInt(s: string, radix: Radix): Num {
    ParseSigned(TrimStart(s), radix)
  }

  /** The sign step of `parseInt`, on text that starts after the white space. */
  function ParseSigned(t: string, radix: Radix): Num {
    if t != [] && t[0] == '-' then Negate(ParseMagnitude(t[1..], radix))
    else if t != [] && t[0] == '+' then ParseMagnitude(t[1..], radix)
    else ParseMagnitude(t, radix)
  }

  function Negate(v: Num): Num {
    match v
    case NaN => NaN
    case Int(i) => Int(-i)
  }

  /** The digits step of `parseInt`: the optional `0x` prefix, then the longest digit run. */
  function ParseMagnitude(u: string, radix: Radix): Num {
    var hex := radix == Unspecified && |u| >= 2 && u[0] == '0' && (u[1] == 'x' || u[1] == 'X');
    var base := if hex then 16 else 10;
    var digits := DigitPrefix(if hex then u[2..] else u, base);
    if digits == [] then NaN else Int(DigitsValue(digits, base))
  }

  function DigitChar(d: nat): (c: char)
    requires d < 10
    ensures IsDecimalDigit(c) && DigitValue(c) == d
  {
    ('0' as int + d) as char
  }

  /** The decimal numeral of `n`, as `String(n)` writes it: no sign, no leading zeros. */
  function DecimalString(n: nat): (s: string)
    ensures |s| > 0
    ensures AllDigits(s, 10)
  {
    if n < 10 then [DigitChar(n)] else DecimalString(n / 10) + [DigitChar(n % 10)]
  }

  lemma {:induction false} DigitsValueOfDecimalString(n: nat)
    ensures DigitsValue(DecimalString(n), 10) == n
  {
    var s := DecimalString(n);
    if n >= 10 {
      DigitsValueOfDecimalString(n / 10);
      assert s[..|s| - 1] == DecimalString(n / 10);
    }
  }

  lemma {:induction false} DigitPrefixOfDigits(z: string, rest: string, base: nat)
    requires AllDigits(z, base)
    requires rest == [] || !IsDigit(rest[0], base)
    ensures DigitPrefix(z + rest, base) == z
  {
    if z != [] {
      assert (z + rest)[1..] == z[1..] + rest;
      DigitPrefixOfDigits(z[1..], rest, base);
    } else {
      assert z + rest == rest;
    }
  }

  /** A digit run followed by text that is neither a digit nor an `x` carries no `0x` prefix. */
  lemma NoHexPrefix(d: string, rest: string)
    requires |d| > 0 && AllDigits(d, 10)
    requires rest == [] || (!IsDecimalDigit(rest[0]) && rest[0] != 'x' && rest[0] != 'X')
    ensures var s := d + rest; |s| >= 2 ==> s[1] != 'x' && s[1] != 'X'
  {
    var s := d + rest;
    if |d| >= 2 {
      assert s[1] == d[1];
    } else if |s| >= 2 {
      assert s[1] == rest[0];
    }
  }

  /** The digits step reads a run of decimal digits followed by text that does not continue it. */
  lemma MagnitudeOfDigits(d: string, rest: string, radix: Radix)
    requires |d| > 0 && AllDigits(d, 10)
    requires rest == [] || !IsDecimalDigit(rest[0])
    requires radix == Unspecified && rest != [] ==> rest[0] != 'x' && rest[0] != 'X'
    ensures ParseMagnitude(d + rest, radix) == Int(DigitsValue(d, 10))
  {
    if radix == Unspecified {
      NoHexPrefix(d, rest);
    }
    DigitPrefixOfDigits(d, rest, 10);
  }

  /** The digits step reads back the numeral of a natural number followed by text that does not continue it. */
  lemma MagnitudeOfDecimalString(n: nat, rest: string, radix: Radix)
    requires rest == [] || !IsDecimalDigit(rest[0])
    requires radix == Unspecified && rest != [] ==> rest[0] != 'x' && rest[0] != 'X'
    ensures ParseMagnitude(DecimalString(n) + rest, radix) == Int(n)
  {
    MagnitudeOfDigits(DecimalString(n), rest, radix);
    DigitsValueOfDecimalString(n);
  }

  /** The sign step passes text that starts with neither sign straight to the digits step. */
  lemma SignedOfUnsigned(t: string, radix: Radix)
    requires t == [] || (t[0] != '-' && t[0] != '+')
    ensures ParseSigned(t, radix) == ParseMagnitude(t, radix)
  {
  }

  /** Text that starts with neither white space nor a sign goes straight to the digits step. */
  lemma ParseIntOfUnsigned(s: string, radix: Radix)
    requires s == [] || (!IsWhiteSpace(s[0]) && s[0] != '-' && s[0] != '+')
    ensures ParseInt(s, radix) == ParseMagnitude(s, radix)
  {
    TrimStartOfNonBlank(s);
    SignedOfUnsigned(s, radix);
  }

  /** The white-space step leaves text that starts with a non-blank unchanged. */
  lemma TrimStartOfNonBlank(s: string)
    requires s == [] || !IsWhiteSpace(s[0])
    ensures TrimStart(s) == s
  {
  }

  /**
   * `parseInt` reads back the numeral of any natural number, also when other
   * text follows that does not continue the number.
   */
  lemma ParseDecimalString(n: nat, rest: string, radix: Radix)
    requires rest == [] || !IsDecimalDigit(rest[0])
    requires radix == Unspecified && rest != [] ==> rest[0] != 'x' && rest[0] != 'X'
    ensures ParseInt(DecimalString(n) + rest, radix) == Int(n)
  {
    var d := DecimalString(n);
    var s := d + rest;
    assert s[0] == d[0] && IsDecimalDigit(s[0]);
    ParseIntOfUnsigned(s, radix);
    MagnitudeOfDecimalString(n, rest, radix);
  }

  /** `parseInt` reads a leading minus sign as a negative number. */
  lemma ParseNegativeDecimalString(n: nat, radix: Radix)
    ensures ParseInt("-" + DecimalString(n), radix) == Int(-(n as int))
  {
    var d := DecimalString(n);
    var s := "-" + d;
    assert s[0] == '-' && s[1..] == d;
    ParseIntOfNegative(s, radix);
    MagnitudeOfNumeral(n, radix);
  }

  /** After a leading minus sign, `parseInt` negates what the digits step reads. */
  lemma ParseIntOfNegative(s: string, radix: Radix)
    requires s != [] && s[0] == '-'
    ensures ParseInt(s, radix) == Negate(ParseMagnitude(s[1..], radix))
  {
    TrimStartOfNonBlank(s);
  }

  /** The digits step reads back the numeral of a natural number. */
  lemma MagnitudeOfNumeral(n: nat, radix: Radix)
    ensures ParseMagnitude(DecimalString(n), radix) == Int(n)
  {
    MagnitudeOfDecimalString(n, [], radix);
    assert DecimalString(n) + [] == DecimalString(n);
  }

  /** The digits step finds no number in text that does not start with a digit. */
  lemma MagnitudeOfNonDigit(u: string, radix: Radix)
    requires u == [] || !IsDecimalDigit(u[0])
    ensures ParseMagnitude(u, radix) == NaN
  {
    assert DigitPrefix(u, 10) == [];
  }

  /** A string that does not start (after white space and a sign) with a digit parses to `NaN`. */
  lemma ParseNoDigits(s: string, radix: Radix)
    requires s == [] || (!IsDecimalDigit(s[0]) && !IsWhiteSpace(s[0]) && s[0] != '-' && s[0] != '+')
    ensures ParseInt(s, radix) == NaN
  {
    ParseIntOfUnsigned(s, radix);
    MagnitudeOfNonDigit(s, radix);
  }

  /** With the radix left out, a `0x` prefix selects base 16. */
  lemma ParseHexPrefix()
    ensures ParseInt("0x1F", Unspecified) == Int(31)
  {
    assert "0x1F"[2..] == "1F";
    HexDigits();
    ParseHex("0x1F", "1F");
  }

  /** `0x` and then hexadecimal digits `d`, with the radix left out, parse as the digits' base-16 value. */
  lemma ParseHex(s: string, d: string)
    requires |s| >= 2 && s[0] == '0' && s[1] == 'x' && s[2..] == d
    requires d != [] && AllDigits(d, 16)
    ensures ParseInt(s, Unspecified) == Int(DigitsValue(d, 16))
  {
    assert d + [] == d;
    DigitPrefixOfDigits(d, [], 16);
    assert DigitPrefix(s[2..], 16) == d;
    MagnitudeOfHex(s);
    ParseIntOfUnsigned(s, Unspecified);
  }

  /** Text starting `0x`, with the radix left out, is read as base-16 digits after the prefix. */
  lemma MagnitudeOfHex(u: string)
    requires |u| >= 2 && u[0] == '0' && u[1] == 'x'
    ensures var d := DigitPrefix(u[2..], 16);
      ParseMagnitude(u, Unspecified) == if d == [] then NaN else Int(DigitsValue(d, 16))
  {
  }

  lemma HexDigits()
    ensures AllDigits("1F", 16) && DigitsValue("1F", 16) == 31
  {
    assert "1F"[..1] == "1";
    assert "1"[..0] == "";
  }

  /** With radix 10 the same text stops at the `x`. */
  lemma ParseHexPrefixDecimal()
    ensures ParseInt("0x1F", Ten) == Int(0)
  {
    ParseIntOfUnsigned("0x1F", Ten);
    DecimalDigitsBeforeX();
  }

  lemma DecimalDigitsBeforeX()
    ensures DigitPrefix("0x1F", 10) == "0" && DigitsValue("0", 10) == 0
  {
    assert "0x1F"[1..] == "x1F";
    assert "0"[..0] == "";
  }
}
