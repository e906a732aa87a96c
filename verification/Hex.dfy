/** Hexadecimal text, and how JavaScript parses a number in base 16 out of any string. */
module Hex {
  import opened Wrappers
  import opened JsText

  predicate IsHexDigit(c: CodeUnit) {
    0x30 <= c <= 0x39 || 0x41 <= c <= 0x46 || 0x61 <= c <= 0x66
  }

  predicate IsHex(s: JsString) {
    forall i :: 0 <= i < |s| ==> IsHexDigit(s[i])
  }

  function DigitValue(c: CodeUnit): (d: nat)
    requires IsHexDigit(c)
    ensures d < 16
  {
    if c <= 0x39 then c - 0x30 else if c <= 0x46 then c - 0x37 else c - 0x57
  }

  function Value(digits: JsString): nat
    requires IsHex(digits)
  {
    if digits == [] then 0
    else 16 * Value(digits[..|digits| - 1]) + DigitValue(digits[|digits| - 1])
  }

  /** The longest prefix made of hexadecimal digits. */
  function LeadingDigits(s: JsString): (d: JsString)
    ensures IsHex(d) && d <= s && (|d| < |s| ==> !IsHexDigit(s[|d|]))
  {
    if s == [] || !IsHexDigit(s[0]) then []
    else
      var rest := LeadingDigits(s[1..]);
      assert s == [s[0]] + s[1..];
      [s[0]] + rest
  }

  predicate StartsWith0x(s: JsString) {
    |s| >= 2 && s[0] == 0x30 && (s[1] == 0x78 || s[1] == 0x58)
  }

  function Magnitude(s: JsString): Option<int> {
    var digits := LeadingDigits(if StartsWith0x(s) then s[2..] else s);
    if digits == [] then None else Some(Value(digits))
  }

  /** Parsing in base 16, with None for NaN: leading white space, a sign and 0x are skipped, and
      whatever follows the digits is ignored. */
  function ParseInt16(s: JsString): Option<int> {
    var t := TrimStart(s);
    var negative := t != [] && t[0] == 0x2D;
    var m := Magnitude(if t != [] && (t[0] == 0x2D || t[0] == 0x2B) then t[1..] else t);
    if m.None? then None else Some(if negative then 0 - m.value else m.value)
  }

  lemma {:induction false} LeadingDigitsOfHex(s: JsString)
    requires IsHex(s)
    ensures LeadingDigits(s) == s
  {
    if s != [] {
      LeadingDigitsOfHex(s[1..]);
    }
  }

  lemma ParseIntOfHex(s: JsString)
    requires IsHex(s) && s != []
    ensures ParseInt16(s) == Some(Value(s))
  {
    assert IsHexDigit(s[0]) && !IsWhiteSpace(s[0]);
    assert |s| >= 2 ==> IsHexDigit(s[1]);
    LeadingDigitsOfHex(s);
  }

  function LowerDigit(d: nat): (c: CodeUnit)
    requires d < 16
    ensures IsHexDigit(c) && DigitValue(c) == d
  {
    if d < 10 then 0x30 + d else 0x57 + d
  }

  /** The lower-case digits of a whole number. */
  function ToHex(n: nat): (s: JsString)
    ensures IsHex(s) && s != [] && Value(s) == n
  {
    if n < 16 then [LowerDigit(n)]
    else
      var front := ToHex(n / 16);
      var s := front + [LowerDigit(n % 16)];
      assert s[..|s| - 1] == front;
      s
  }
}
