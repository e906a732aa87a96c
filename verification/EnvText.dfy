/** The text of a .env file, read (parseExistingEnv in scripts/generate-env.ts) and written
    (scripts/env-json-helpers.ts). */
module EnvText {
  import opened Wrappers
  import opened JsText

  const NEWLINE: CodeUnit := 0x0A
  const CR: CodeUnit := 0x0D
  const SPACE: CodeUnit := 0x20
  const HASH: CodeUnit := 0x23
  const EQUALS: CodeUnit := 0x3D
  const MAX_LINE: nat := 10000

  predicate IsNameStart(c: CodeUnit) {
    0x41 <= c <= 0x5A || c == 0x5F
  }

  predicate IsNameChar(c: CodeUnit) {
    IsNameStart(c) || 0x30 <= c <= 0x39
  }

  /** Capital letters, digits and underscores, not starting with a digit. */
  predicate IsName(s: JsString) {
    s != [] && IsNameStart(s[0]) && forall i :: 0 <= i < |s| ==> IsNameChar(s[i])
  }

  /** What a dot does not match. */
  predicate IsTerminator(c: CodeUnit) {
    c == NEWLINE || c == CR || c == 0x2028 || c == 0x2029
  }

  predicate OnOneLine(s: JsString) {
    forall i :: 0 <= i < |s| ==> !IsTerminator(s[i])
  }

  datatype Assignment = Assignment(name: JsString, value: JsString)

  function NameLength(t: JsString): (n: nat)
    ensures n <= |t| && (forall i :: 0 <= i < n ==> IsNameChar(t[i])) && (n < |t| ==> !IsNameChar(t[n]))
  {
    if t == [] || !IsNameChar(t[0]) then 0 else 1 + NameLength(t[1..])
  }

  /** A line that is an assignment: a name, an equals sign, and a value on the same line. */
  function Active(t: JsString): Option<Assignment> {
    var n := NameLength(t);
    if n == 0 || n == |t| || !IsNameStart(t[0]) || t[n] != EQUALS || !OnOneLine(t[n + 1..]) then None
    else Some(Assignment(t[..n], t[n + 1..]))
  }

  /** A line that is an assignment commented out: a hash, white space, and an assignment. */
  function Commented(t: JsString): Option<Assignment> {
    if t == [] || t[0] != HASH then None else Active(TrimStart(t[1..]))
  }

  predicate AllWhite(s: JsString) {
    forall i :: 0 <= i < |s| ==> IsWhiteSpace(s[i])
  }

  lemma NameEnds(name: JsString, rest: JsString)
    requires forall i :: 0 <= i < |name| ==> IsNameChar(name[i])
    requires rest == [] || !IsNameChar(rest[0])
    ensures NameLength(name + rest) == |name|
  {
    var t := name + rest;
    assert forall i :: 0 <= i < |name| ==> t[i] == name[i];
    assert rest != [] ==> t[|name|] == rest[0];
  }

  /** The recogniser finds exactly the decompositions the regular expression allows, so there is never
      more than one. */
  lemma ActiveIff(t: JsString, name: JsString, value: JsString)
    ensures Active(t) == Some(Assignment(name, value)) <==>
              IsName(name) && OnOneLine(value) && t == name + [EQUALS] + value
  {
    if Active(t) == Some(Assignment(name, value)) {
      assert t == t[..|name|] + [t[|name|]] + t[|name| + 1..];
    }
    if IsName(name) && OnOneLine(value) && t == name + [EQUALS] + value {
      NameEnds(name, [EQUALS] + value);
      assert t == name + ([EQUALS] + value);
      assert t[|name| + 1..] == value && t[..|name|] == name;
    }
  }

  lemma {:induction false} TrimStartSplits(s: JsString)
    ensures exists white :: AllWhite(white) && s == white + TrimStart(s)
    ensures TrimStart(s) == [] || !IsWhiteSpace(TrimStart(s)[0])
  {
    if s != [] && IsWhiteSpace(s[0]) {
      TrimStartSplits(s[1..]);
      var white :| AllWhite(white) && s[1..] == white + TrimStart(s[1..]);
      assert s == [s[0]] + white + TrimStart(s) && AllWhite([s[0]] + white);
    } else {
      assert AllWhite([]) && s == [] + TrimStart(s);
    }
  }

  lemma {:induction false} TrimStartDrops(white: JsString, s: JsString)
    requires AllWhite(white) && (s == [] || !IsWhiteSpace(s[0]))
    ensures TrimStart(white + s) == s
  {
    if white == [] {
      assert white + s == s;
    } else {
      TrimStartDrops(white[1..], s);
      assert (white + s)[1..] == white[1..] + s;
    }
  }

  lemma CommentedIff(t: JsString, name: JsString, value: JsString)
    ensures Commented(t) == Some(Assignment(name, value)) <==>
              IsName(name) && OnOneLine(value) &&
              exists white :: AllWhite(white) && t == [HASH] + (white + (name + [EQUALS] + value))
  {
    if Commented(t) == Some(Assignment(name, value)) {
      TrimStartSplits(t[1..]);
      var white :| AllWhite(white) && t[1..] == white + TrimStart(t[1..]);
      ActiveIff(TrimStart(t[1..]), name, value);
      assert t == [HASH] + t[1..];
    }
    if IsName(name) && OnOneLine(value) {
      if white :| AllWhite(white) && t == [HASH] + (white + (name + [EQUALS] + value)) {
        var rest := name + [EQUALS] + value;
        assert rest[0] == name[0];
        TrimStartDrops(white, rest);
        assert t[1..] == white + rest;
        ActiveIff(rest, name, value);
      }
    }
  }

  /** The control characters of ASCII, but for tab. */
  predicate IsControl(c: CodeUnit) {
    (c < 0x20 && c != 0x09) || c == 0x7F
  }

  function SanitizeEnvValue(value: JsString): JsString {
    if value == [] then []
    else if IsControl(value[0]) then SanitizeEnvValue(value[1..])
    else [value[0]] + SanitizeEnvValue(value[1..])
  }

  predicate Clean(s: JsString) {
    forall i :: 0 <= i < |s| ==> !IsControl(s[i])
  }

  /** A sanitised value is clean, so it stays on its line; a clean one is left alone. */
  lemma {:induction false} SanitizedIsClean(value: JsString)
    ensures Clean(SanitizeEnvValue(value)) && |SanitizeEnvValue(value)| <= |value|
    ensures SanitizeEnvValue(value) == value <==> Clean(value)
  {
    if value != [] {
      SanitizedIsClean(value[1..]);
      if Clean(value[1..]) && !IsControl(value[0]) {
        assert value == [value[0]] + value[1..];
      }
      if Clean(value) {
        assert !IsControl(value[0]);
        assert forall i :: 0 <= i < |value[1..]| ==> value[1..][i] == value[i + 1];
      }
    }
  }

  /** It works unit by unit: exactly the control characters go, and the others keep their order. */
  lemma {:induction false} SanitizedUnitByUnit(a: JsString, b: JsString, c: CodeUnit)
    ensures SanitizeEnvValue(a + b) == SanitizeEnvValue(a) + SanitizeEnvValue(b)
    ensures SanitizeEnvValue([c]) == if IsControl(c) then [] else [c]
  {
    assert SanitizeEnvValue([c]) == (if IsControl(c) then [] else [c]) + SanitizeEnvValue([]);
    if a == [] {
      assert a + b == b;
    } else {
      SanitizedUnitByUnit(a[1..], b, c);
      assert (a + b)[1..] == a[1..] + b;
    }
  }

  function ReplaceCrLf(s: JsString): JsString {
    if s == [] then []
    else if |s| >= 2 && s[0] == CR && s[1] == NEWLINE then [SPACE] + ReplaceCrLf(s[2..])
    else [s[0]] + ReplaceCrLf(s[1..])
  }

  function ReplaceLf(s: JsString): JsString {
    if s == [] then [] else [if s[0] == NEWLINE then SPACE else s[0]] + ReplaceLf(s[1..])
  }

  function RemoveCr(s: JsString): JsString {
    if s == [] then [] else (if s[0] == CR then [] else [s[0]]) + RemoveCr(s[1..])
  }

  function EscapeEnvComment(text: JsString): JsString {
    RemoveCr(ReplaceLf(ReplaceCrLf(text)))
  }

  lemma {:induction false} NoLfLeft(s: JsString)
    ensures NEWLINE !in ReplaceLf(s)
  {
    if s != [] {
      NoLfLeft(s[1..]);
    }
  }

  lemma {:induction false} NoCrLeft(s: JsString)
    ensures CR !in RemoveCr(s) && (NEWLINE !in s ==> NEWLINE !in RemoveCr(s))
  {
    if s != [] {
      NoCrLeft(s[1..]);
    }
  }

  lemma {:induction false} NothingToEscape(s: JsString)
    requires NEWLINE !in s && CR !in s
    ensures ReplaceCrLf(s) == s && ReplaceLf(s) == s && RemoveCr(s) == s
  {
    if s != [] {
      assert s[0] in s && forall c :: c in s[1..] ==> c in s;
      NothingToEscape(s[1..]);
      assert s == [s[0]] + s[1..];
    }
  }

  /** Comment text stays on its line, and is only changed if it did not. */
  lemma EscapedIsOneLine(text: JsString)
    ensures NEWLINE !in EscapeEnvComment(text) && CR !in EscapeEnvComment(text)
    ensures EscapeEnvComment(text) == text <==> NEWLINE !in text && CR !in text
  {
    NoLfLeft(ReplaceCrLf(text));
    NoCrLeft(ReplaceLf(ReplaceCrLf(text)));
    if NEWLINE !in text && CR !in text {
      NothingToEscape(text);
    }
  }

  /** The three passes come to one from left to right: a line break of any kind but a lone carriage return
      becomes a space, and that goes. */
  lemma EscapeInOnePass(text: JsString)
    requires text != []
    ensures EscapeEnvComment(text) ==
            if |text| >= 2 && text[0] == CR && text[1] == NEWLINE then [SPACE] + EscapeEnvComment(text[2..])
            else if text[0] == NEWLINE then [SPACE] + EscapeEnvComment(text[1..])
            else if text[0] == CR then EscapeEnvComment(text[1..])
            else [text[0]] + EscapeEnvComment(text[1..])
  {
    var crLf := |text| >= 2 && text[0] == CR && text[1] == NEWLINE;
    var c, rest := if crLf then SPACE else text[0], ReplaceCrLf(if crLf then text[2..] else text[1..]);
    assert ReplaceCrLf(text) == [c] + rest && ([c] + rest)[1..] == rest;
    var d, left := if c == NEWLINE then SPACE else c, ReplaceLf(rest);
    assert ReplaceLf([c] + rest) == [d] + left && ([d] + left)[1..] == left;
    assert RemoveCr([d] + left) == (if d == CR then [] else [d]) + RemoveCr(left);
  }

  /** What one line says: an active assignment, a commented one, or nothing. */
  datatype Saying = Sets(name: JsString, value: JsString) | Mentions(name: JsString) | Nothing

  function Says(line: JsString): Saying {
    var t := Trim(line);
    if t == [] || |t| > MAX_LINE then Nothing
    else if Active(t).Some? then Sets(Active(t).value.name, SanitizeEnvValue(Active(t).value.value))
    else if Commented(t).Some? then Mentions(Commented(t).value.name)
    else Nothing
  }

  type EnvMap = map<JsString, JsString>

  function ReadLine(known: EnvMap, line: JsString): EnvMap {
    match Says(line)
    case Sets(name, value) => known[name := value]
    case Mentions(name) => if name in known then known else known[name := []]
    case Nothing => known
  }

  function ReadLines(known: EnvMap, lines: seq<JsString>): EnvMap
    decreases lines
  {
    if lines == [] then known else ReadLines(ReadLine(known, lines[0]), lines[1..])
  }

  function ReadText(content: JsString): EnvMap {
    ReadLines(map[], Split(content, NEWLINE))
  }

  lemma {:induction false} ReadLinesConcat(known: EnvMap, one: seq<JsString>, two: seq<JsString>)
    ensures ReadLines(known, one + two) == ReadLines(ReadLines(known, one), two)
    decreases one
  {
    if one == [] {
      assert one + two == two;
    } else {
      assert (one + two)[1..] == one[1..] + two;
      ReadLinesConcat(ReadLine(known, one[0]), one[1..], two);
    }
  }

  /** The loop of parseExistingEnv. The second test of the name against its own pattern always passes. */
  method ParseExistingEnv(fileExists: bool, content: JsString) returns (envMap: EnvMap)
    ensures envMap == if fileExists then ReadText(content) else map[]
  {
    envMap := map[];
    if !fileExists { return; }
    var lines := Split(content, NEWLINE);
    var k := 0;
    while k < |lines|
      invariant k <= |lines|
      invariant ReadText(content) == ReadLines(envMap, lines[k..])
    {
      ghost var before := envMap;
      var trimmed := Trim(lines[k]);
      if trimmed != [] && |trimmed| <= MAX_LINE {
        var active := Active(trimmed);
        if active.Some? {
          var name, value := active.value.name, active.value.value;
          ActiveIff(trimmed, name, value);
          if IsName(name) {
            envMap := envMap[name := SanitizeEnvValue(value)];
          }
        } else {
          var commented := Commented(trimmed);
          if commented.Some? {
            var name := commented.value.name;
            CommentedIff(trimmed, name, commented.value.value);
            if IsName(name) && name !in envMap {
              envMap := envMap[name := []];
            }
          }
        }
      }
      assert envMap == ReadLine(before, lines[k]);
      assert lines[k..][1..] == lines[k + 1..];
      k := k + 1;
    }
  }

  predicate Teaches(line: JsString, name: JsString) {
    !Says(line).Nothing? && Says(line).name == name
  }

  /** The names known after some lines are those known before and those a line speaks of. */
  lemma {:induction false} KnownIff(known: EnvMap, lines: seq<JsString>, name: JsString)
    ensures name in ReadLines(known, lines) <==>
              name in known || exists k :: 0 <= k < |lines| && Teaches(lines[k], name)
    decreases lines
  {
    if lines != [] {
      KnownIff(ReadLine(known, lines[0]), lines[1..], name);
      assert name in ReadLine(known, lines[0]) <==> name in known || Teaches(lines[0], name);
      assert forall k :: 0 <= k < |lines[1..]| ==> lines[1..][k] == lines[k + 1];
      assert forall k :: 0 < k < |lines| ==> lines[k] == lines[1..][k - 1];
    }
  }

  predicate Overrides(line: JsString, name: JsString) {
    Says(line).Sets? && Says(line).name == name
  }

  /** A value stands until a later line sets the name again; comments never change it. */
  lemma {:induction false} ValueStands(known: EnvMap, lines: seq<JsString>, name: JsString)
    requires name in known && forall k :: 0 <= k < |lines| ==> !Overrides(lines[k], name)
    ensures name in ReadLines(known, lines) && ReadLines(known, lines)[name] == known[name]
    decreases lines
  {
    if lines != [] {
      assert !Overrides(lines[0], name);
      assert forall k :: 0 <= k < |lines[1..]| ==> lines[1..][k] == lines[k + 1];
      ValueStands(ReadLine(known, lines[0]), lines[1..], name);
    }
  }
}
