/** Writing a text to a buffer and reading it back: UTF-8 (RFC 3629) with the replacement
    character for a lone surrogate on the way out and for a maximal ill-formed subpart on the way
    in. */
module Utf8 {
  import opened JsText

  /** A Unicode scalar value. */
  type Scalar = c: int | 0 <= c <= 0x10FFFF && !(0xD800 <= c <= 0xDFFF)

  const REPLACEMENT: Scalar := 0xFFFD

  function FromPair(high: int, low: int): Scalar
    requires IsHigh(high) && IsLow(low)
  {
    0x10000 + (high - 0xD800) * 0x400 + (low - 0xDC00)
  }

  function ToScalars(s: JsString): seq<Scalar> {
    if s == [] then []
    else if StartsPair(s) then [FromPair(s[0], s[1])] + ToScalars(s[2..])
    else [if IsSurrogate(s[0]) then REPLACEMENT else s[0]] + ToScalars(s[1..])
  }

  function Units(c: Scalar): JsString {
    if c < 0x10000 then [c]
    else [0xD800 + (c - 0x10000) / 0x400, 0xDC00 + (c - 0x10000) % 0x400]
  }

  function FromScalars(cs: seq<Scalar>): JsString {
    if cs == [] then [] else Units(cs[0]) + FromScalars(cs[1..])
  }

  function EncodeScalar(c: Scalar): Bytes {
    if c < 0x80 then [c]
    else if c < 0x800 then [0xC0 + c / 0x40, 0x80 + c % 0x40]
    else if c < 0x10000 then [0xE0 + c / 0x1000, 0x80 + c / 0x40 % 0x40, 0x80 + c % 0x40]
    else [0xF0 + c / 0x40000, 0x80 + c / 0x1000 % 0x40, 0x80 + c / 0x40 % 0x40, 0x80 + c % 0x40]
  }

  function EncodeScalars(cs: seq<Scalar>): Bytes {
    if cs == [] then [] else EncodeScalar(cs[0]) + EncodeScalars(cs[1..])
  }

  /** How many continuation bytes a lead byte announces; zero for a byte that leads nothing. */
  function Announced(lead: Byte): nat {
    if 0xC2 <= lead <= 0xDF then 1
    else if 0xE0 <= lead <= 0xEF then 2
    else if 0xF0 <= lead <= 0xF4 then 3
    else 0
  }

  /** The second byte shuts out overlong forms, surrogates and values past U+10FFFF. */
  predicate ValidSecond(lead: Byte, b: Byte) {
    && 0x80 <= b <= 0xBF
    && (lead == 0xE0 ==> b >= 0xA0)
    && (lead == 0xED ==> b <= 0x9F)
    && (lead == 0xF0 ==> b >= 0x90)
    && (lead == 0xF4 ==> b <= 0x8F)
  }

  predicate IsContinuation(b: Byte) {
    0x80 <= b <= 0xBF
  }

  /** How many of the announced continuation bytes are really there. */
  function Present(bs: Bytes): (k: nat)
    requires bs != []
    ensures k <= Announced(bs[0]) && k < |bs|
  {
    if Announced(bs[0]) == 0 || |bs| < 2 || !ValidSecond(bs[0], bs[1]) then 0
    else if Announced(bs[0]) == 1 || |bs| < 3 || !IsContinuation(bs[2]) then 1
    else if Announced(bs[0]) == 2 || |bs| < 4 || !IsContinuation(bs[3]) then 2
    else 3
  }

  /** The value of a complete sequence with n continuation bytes. */
  function SequenceValue(bs: Bytes, n: nat): Scalar
    requires bs != [] && 1 <= n && n == Announced(bs[0]) == Present(bs)
  {
    if n == 1 then Bits(bs[0], 0xC0) * 0x40 + Bits(bs[1], 0x80)
    else if n == 2 then Bits(bs[0], 0xE0) * 0x1000 + Bits(bs[1], 0x80) * 0x40 + Bits(bs[2], 0x80)
    else Bits(bs[0], 0xF0) * 0x40000 + Bits(bs[1], 0x80) * 0x1000 + Bits(bs[2], 0x80) * 0x40 + Bits(bs[3], 0x80)
  }

  function Bits(b: int, marker: int): int {
    b - marker
  }

  function DecodeScalars(bs: Bytes): seq<Scalar> {
    if bs == [] then []
    else if bs[0] < 0x80 then [bs[0]] + DecodeScalars(bs[1..])
    else
      var n := Announced(bs[0]);
      var k := Present(bs);
      [if n >= 1 && k == n then SequenceValue(bs, n) else REPLACEMENT] + DecodeScalars(bs[1 + k..])
  }

  function Encode(s: JsString): Bytes {
    EncodeScalars(ToScalars(s))
  }

  function Decode(bs: Bytes): JsString {
    FromScalars(DecodeScalars(bs))
  }

  lemma EncodedTwo(c: Scalar, rest: Bytes)
    requires 0x80 <= c < 0x800
    ensures var bs := EncodeScalar(c) + rest;
            Announced(bs[0]) == 1 == Present(bs) && SequenceValue(bs, 1) == c
  {
    var bs := EncodeScalar(c) + rest;
    assert bs[0] == 0xC0 + c / 0x40 && bs[1] == 0x80 + c % 0x40;
  }

  lemma EncodedThree(c: Scalar, rest: Bytes)
    requires 0x800 <= c < 0x10000
    ensures var bs := EncodeScalar(c) + rest;
            Announced(bs[0]) == 2 == Present(bs) && SequenceValue(bs, 2) == c
  {
    var bs := EncodeScalar(c) + rest;
    assert bs[0] == 0xE0 + c / 0x1000 && bs[1] == 0x80 + c / 0x40 % 0x40 && bs[2] == 0x80 + c % 0x40;
    ThreeByteSecond(c);
    assert c / 0x1000 == c / 0x40 / 0x40;
  }

  lemma EncodedFour(c: Scalar, rest: Bytes)
    requires 0x10000 <= c
    ensures var bs := EncodeScalar(c) + rest;
            Announced(bs[0]) == 3 == Present(bs) && SequenceValue(bs, 3) == c
  {
    var bs := EncodeScalar(c) + rest;
    assert bs[0] == 0xF0 + c / 0x40000 && bs[1] == 0x80 + c / 0x1000 % 0x40;
    assert bs[2] == 0x80 + c / 0x40 % 0x40 && bs[3] == 0x80 + c % 0x40;
    FourByteSecond(c);
    assert c / 0x40000 == c / 0x1000 / 0x40 && c / 0x1000 == c / 0x40 / 0x40;
  }

  lemma EncodedLead(c: Scalar, rest: Bytes)
    requires c >= 0x80
    ensures var bs := EncodeScalar(c) + rest;
            var n := |EncodeScalar(c)| - 1;
            bs[0] >= 0x80 && n >= 1 && n == Announced(bs[0]) == Present(bs) && SequenceValue(bs, n) == c
  {
    if c < 0x800 {
      EncodedTwo(c, rest);
    } else if c < 0x10000 {
      EncodedThree(c, rest);
    } else {
      EncodedFour(c, rest);
    }
  }

  lemma ThreeByteSecond(c: Scalar)
    requires 0x800 <= c < 0x10000
    ensures ValidSecond(0xE0 + c / 0x1000, 0x80 + c / 0x40 % 0x40)
  {
    assert c / 0x1000 == c / 0x40 / 0x40;
  }

  lemma FourByteSecond(c: Scalar)
    requires 0x10000 <= c
    ensures 0xF0 + c / 0x40000 <= 0xF4
    ensures ValidSecond(0xF0 + c / 0x40000, 0x80 + c / 0x1000 % 0x40)
  {
    assert c / 0x40000 == c / 0x1000 / 0x40;
  }

  lemma {:induction false} DecodeEncodeScalars(cs: seq<Scalar>)
    ensures DecodeScalars(EncodeScalars(cs)) == cs
  {
    if cs != [] {
      var head, rest := EncodeScalar(cs[0]), EncodeScalars(cs[1..]);
      DecodeEncodeScalars(cs[1..]);
      if cs[0] >= 0x80 {
        EncodedLead(cs[0], rest);
      }
      assert (head + rest)[|head|..] == rest;
    }
  }

  lemma UnitsOfPair(high: int, low: int)
    requires IsHigh(high) && IsLow(low)
    ensures Units(FromPair(high, low)) == [high, low]
  {
  }

  lemma {:induction false} RepairLength(s: JsString)
    ensures |FromScalars(ToScalars(s))| == |s|
  {
    if s != [] {
      if StartsPair(s) {
        UnitsOfPair(s[0], s[1]);
        RepairLength(s[2..]);
        assert ToScalars(s)[1..] == ToScalars(s[2..]);
      } else {
        RepairLength(s[1..]);
        assert ToScalars(s)[1..] == ToScalars(s[1..]);
      }
    }
  }

  lemma {:induction false} RepairIff(s: JsString)
    ensures FromScalars(ToScalars(s)) == s <==> WellFormed(s)
  {
    if s != [] {
      var r := FromScalars(ToScalars(s));
      if StartsPair(s) {
        UnitsOfPair(s[0], s[1]);
        assert ToScalars(s)[1..] == ToScalars(s[2..]);
        RepairIff(s[2..]);
        assert r == s[..2] + FromScalars(ToScalars(s[2..]));
        assert r[2..] == FromScalars(ToScalars(s[2..])) && s == s[..2] + s[2..];
      } else {
        assert ToScalars(s)[1..] == ToScalars(s[1..]);
        RepairIff(s[1..]);
        assert r[1..] == FromScalars(ToScalars(s[1..]));
        assert r == [r[0]] + r[1..] && s == [s[0]] + s[1..];
        assert r[0] == if IsSurrogate(s[0]) then REPLACEMENT else s[0];
      }
    }
  }

  /** A string survives the trip through UTF-8 exactly when no surrogate in it stands alone. */
  lemma RoundTripIff(s: JsString)
    ensures Decode(Encode(s)) == s <==> WellFormed(s)
  {
    DecodeEncodeScalars(ToScalars(s));
    RepairIff(s);
  }

  lemma EncodeInjective(s: JsString, t: JsString)
    requires WellFormed(s) && WellFormed(t) && Encode(s) == Encode(t)
    ensures s == t
  {
    RoundTripIff(s);
    RoundTripIff(t);
  }

  /** ASCII text is its own encoding. */
  lemma {:induction false} AsciiIsItself(s: JsString)
    requires forall i :: 0 <= i < |s| ==> s[i] < 0x80
    ensures |Encode(s)| == |s| && forall i :: 0 <= i < |s| ==> Encode(s)[i] == s[i]
  {
    if s != [] {
      AsciiIsItself(s[1..]);
      assert ToScalars(s) == [s[0]] + ToScalars(s[1..]);
      assert ToScalars(s)[1..] == ToScalars(s[1..]);
      assert Encode(s) == [s[0]] + Encode(s[1..]);
    }
  }
}
