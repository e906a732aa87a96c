/** JavaScript strings: sequences of 16-bit code units, in which a surrogate may stand alone. */
module JsText {
  type CodeUnit = c: int | 0 <= c < 0x10000
  type Byte = b: int | 0 <= b < 256
  type JsString = seq<CodeUnit>
  type Bytes = seq<Byte>

  predicate IsHigh(c: int) { 0xD800 <= c <= 0xDBFF }
  predicate IsLow(c: int) { 0xDC00 <= c <= 0xDFFF }
  predicate IsSurrogate(c: int) { 0xD800 <= c <= 0xDFFF }

  predicate StartsPair(s: JsString) {
    |s| >= 2 && IsHigh(s[0]) && IsLow(s[1])
  }

  /** No surrogate stands alone. */
  predicate WellFormed(s: JsString) {
    if s == [] then true
    else if StartsPair(s) then WellFormed(s[2..])
    else !IsSurrogate(s[0]) && WellFormed(s[1..])
  }

  lemma {:induction false} WellFormedConcat(a: JsString, b: JsString)
    requires WellFormed(a) && WellFormed(b)
    ensures WellFormed(a + b)
  {
    if a == [] {
      assert a + b == b;
    } else if StartsPair(a) {
      WellFormedConcat(a[2..], b);
      assert (a + b)[2..] == a[2..] + b;
    } else {
      WellFormedConcat(a[1..], b);
      assert (a + b)[1..] == a[1..] + b;
    }
  }

  lemma {:induction false} WellFormedPlain(s: JsString)
    requires forall i :: 0 <= i < |s| ==> !IsSurrogate(s[i])
    ensures WellFormed(s)
  {
    if s != [] {
      WellFormedPlain(s[1..]);
    }
  }

  /** White space and line terminators: what trimming strips and a white-space class matches. */
  predicate IsWhiteSpace(c: CodeUnit) {
    0x09 <= c <= 0x0D || c == 0x20 || c == 0xA0 || c == 0x1680 || 0x2000 <= c <= 0x200A ||
    c == 0x2028 || c == 0x2029 || c == 0x202F || c == 0x205F || c == 0x3000 || c == 0xFEFF
  }

  function TrimStart(s: JsString): JsString {
    if s != [] && IsWhiteSpace(s[0]) then TrimStart(s[1..]) else s
  }

  function TrimEnd(s: JsString): JsString {
    if s != [] && IsWhiteSpace(s[|s| - 1]) then TrimEnd(s[..|s| - 1]) else s
  }

  function Trim(s: JsString): JsString {
    TrimEnd(TrimStart(s))
  }

  /** One more unit in front of a text already split. */
  function Push(c: CodeUnit, parts: seq<JsString>, sep: CodeUnit): seq<JsString>
    requires parts != []
  {
    if c == sep then [[]] + parts else [[c] + parts[0]] + parts[1..]
  }

  /** The parts of a text between the occurrences of a one-unit separator. */
  function Split(s: JsString, sep: CodeUnit): (parts: seq<JsString>)
    ensures parts != []
  {
    if s == [] then [[]] else Push(s[0], Split(s[1..], sep), sep)
  }

  lemma {:induction false} SplitPart(a: JsString, sep: CodeUnit, rest: JsString)
    requires sep !in a
    ensures Split(a, sep) == [a]
    ensures Split(a + [sep] + rest, sep) == [a] + Split(rest, sep)
  {
    if a == [] {
      assert ([sep] + rest)[1..] == rest && a + [sep] + rest == [sep] + rest;
    } else {
      SplitPart(a[1..], sep, rest);
      assert (a + [sep] + rest)[1..] == a[1..] + [sep] + rest;
      assert a == [a[0]] + a[1..];
    }
  }

  function Join(parts: seq<JsString>, sep: CodeUnit): JsString {
    if parts == [] then []
    else if |parts| == 1 then parts[0]
    else parts[0] + [sep] + Join(parts[1..], sep)
  }

  lemma PushConcat(c: CodeUnit, front: seq<JsString>, back: seq<JsString>, sep: CodeUnit)
    requires front != []
    ensures Push(c, front + back, sep) == Push(c, front, sep) + back
  {
    assert (front + back)[1..] == front[1..] + back;
  }

  lemma SplitCons(c: CodeUnit, s: JsString, sep: CodeUnit)
    ensures Split([c] + s, sep) == Push(c, Split(s, sep), sep)
  {
    assert ([c] + s)[1..] == s;
  }

  lemma {:induction false} SplitConcat(a: JsString, sep: CodeUnit, b: JsString)
    ensures Split(a + [sep] + b, sep) == Split(a, sep) + Split(b, sep)
  {
    if a == [] {
      assert a + [sep] + b == [sep] + b;
      SplitCons(sep, b, sep);
    } else {
      var rest := a[1..] + [sep] + b;
      SplitConcat(a[1..], sep, b);
      assert a + [sep] + b == [a[0]] + rest && a == [a[0]] + a[1..];
      SplitCons(a[0], rest, sep);
      SplitCons(a[0], a[1..], sep);
      PushConcat(a[0], Split(a[1..], sep), Split(b, sep), sep);
    }
  }

  lemma {:induction false} SplitJoin(parts: seq<JsString>, sep: CodeUnit)
    requires parts != [] && forall k :: 0 <= k < |parts| ==> sep !in parts[k]
    ensures Split(Join(parts, sep), sep) == parts
  {
    SplitPart(parts[0], sep, []);
    if |parts| > 1 {
      SplitPart(parts[0], sep, Join(parts[1..], sep));
      SplitJoin(parts[1..], sep);
      assert parts == [parts[0]] + parts[1..];
    }
  }
}
