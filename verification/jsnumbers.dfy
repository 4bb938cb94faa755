/**
 * The JavaScript number values the worker computes with, and the global
 * `parseInt` called without a radix (section 19.2.5 of ECMA-262).
 */
module JsNumbers {
  import opened Strings

  /**
   * A number as the worker produces it: `NaN` or an integer. The worker only
   * parses integers, so fractional values never arise; `-0` and `+0` are
   * both `Num(0)`.
   */
  datatype JsNum = NaN | Num(value: int) {
    /** JavaScript truthiness: `NaN` and zero are falsy. */
    predicate Truthy() {
      Num? && value != 0
    }
  }

  predicate IsHexLetter(c: char) {
    ('a' <= c <= 'f') || ('A' <= c <= 'F')
  }

  predicate IsRadixDigit(c: char, radix: nat) {
    IsDigit(c) || (radix == 16 && IsHexLetter(c))
  }

  function RadixDigitValue(c: char, radix: nat): (d: nat)
    requires IsRadixDigit(c, radix)
    ensures d < 16
    ensures radix == 10 ==> d == DigitValue(c)
  {
    if IsDigit(c) then DigitValue(c)
    else if 'a' <= c <= 'f' then c as int - 'a' as int + 10
    else c as int - 'A' as int + 10
  }

  /** The longest prefix of `s` made of digits of the given radix. */
  function LeadingDigits(s: string, radix: nat): (r: string)
    ensures r <= s
    ensures forall i :: 0 <= i < |r| ==> IsRadixDigit(r[i], radix)
    ensures |r| < |s| ==> !IsRadixDigit(s[|r|], radix)
  {
    if |s| > 0 && IsRadixDigit(s[0], radix) then [s[0]] + LeadingDigits(s[1..], radix) else ""
  }

  function RadixValue(s: string, radix: nat): nat
    requires forall i :: 0 <= i < |s| ==> IsRadixDigit(s[i], radix)
  {
    if |s| == 0 then 0
    else RadixValue(s[..|s| - 1], radix) * radix + RadixDigitValue(s[|s| - 1], radix)
  }

  /** The value of the longest run of radix digits at the start of `s`, if any. */
  function LeadingValue(s: string, radix: nat): JsNum {
    var z := LeadingDigits(s, radix);
    if |z| == 0 then NaN else Num(RadixValue(z, radix))
  }

  predicate HasHexPrefix(u: string) {
    |u| >= 2 && u[0] == '0' && (u[1] == 'x' || u[1] == 'X')
  }

  /** Reads an unsigned literal: hexadecimal after `0x`/`0X`, decimal otherwise. */
  function ParseUnsigned(u: string): JsNum {
    if HasHexPrefix(u) then LeadingValue(u[2..], 16) else LeadingValue(u, 10)
  }

  /**
   * `parseInt(s)`: skip leading white space, take an optional sign, switch
   * to radix 16 after a `0x`/`0X` prefix, then read the longest run of digits;
   * no digit at all gives `NaN`. Trailing characters are ignored.
   */
  function ParseInt(s: string): JsNum {
    var t := TrimStart(s);
    if |t| > 0 && t[0] == '-' then
      match ParseUnsigned(t[1..])
      case NaN => NaN
      case Num(v) => Num(-v)
    else if |t| > 0 && t[0] == '+' then ParseUnsigned(t[1..])
    else ParseUnsigned(t)
  }

  /** In radix 10, `RadixValue` is the ordinary decimal value. */
  lemma {:induction false} RadixTenValue(s: string)
    requires AllDigits(s)
    ensures RadixValue(s, 10) == DigitsValue(s)
  {
    if |s| > 0 {
      RadixTenValue(s[..|s| - 1]);
    }
  }

  /**
   * A decimal run followed by anything that does not continue it parses to
   * the run's value: `parseInt("8443/x") == 8443`. The one exception, a lone
   * `0` followed by `x`, starts a hexadecimal literal and is excluded.
   */
  lemma {:induction false} ParseIntDecimalPrefix(d: string, rest: string)
    requires |d| >= 1 && AllDigits(d)
    requires |rest| == 0 || !IsDigit(rest[0])
    requires !(d == "0" && |rest| > 0 && (rest[0] == 'x' || rest[0] == 'X'))
    ensures ParseInt(d + rest) == Num(DigitsValue(d))
  {
    var s := d + rest;
    DigitStart(d, rest);
    LeadingDecimalRun(d, rest);
    RadixTenValue(d);
    assert ParseInt(s) == ParseUnsigned(s);
  }

  /** A text that opens with a decimal literal has no white space, sign or hex prefix to skip. */
  lemma {:induction false} DigitStart(d: string, rest: string)
    requires |d| >= 1 && AllDigits(d)
    requires |rest| == 0 || !IsDigit(rest[0])
    requires !(d == "0" && |rest| > 0 && (rest[0] == 'x' || rest[0] == 'X'))
    ensures TrimStart(d + rest) == d + rest
    ensures IsDigit((d + rest)[0])
    ensures !HasHexPrefix(d + rest)
  {
    var s := d + rest;
    assert s[0] == d[0];
    NoLeadingWhitespace(s);
    if |d| >= 2 {
      assert s[1] == d[1];
    }
  }

  lemma {:induction false} NoLeadingWhitespace(s: string)
    requires |s| > 0 && IsDigit(s[0])
    ensures TrimStart(s) == s
  {
    assert !IsJsWhitespace(s[0]);
  }

  lemma {:induction false} LeadingDecimalRun(d: string, rest: string)
    requires AllDigits(d)
    requires |rest| == 0 || !IsDigit(rest[0])
    ensures LeadingDigits(d + rest, 10) == d
  {
    if |d| > 0 {
      assert (d + rest)[1..] == d[1..] + rest;
      LeadingDecimalRun(d[1..], rest);
      assert d == [d[0]] + d[1..];
    } else {
      assert d + rest == rest;
    }
  }

  /** Rendering a number and parsing it back gives the number. */
  lemma {:induction false} ParseIntNatToString(n: nat)
    ensures ParseInt(NatToString(n)) == Num(n)
  {
    NatToStringValue(n);
    var s := NatToString(n);
    assert s + "" == s;
    ParseIntDecimalPrefix(s, "");
  }
}
