/** canonicalContext (src/domain/common/utils/encryption.ts): the entries of a string-to-string
    context, sorted by key, as UTF-8 JSON. Strings are written as JSON.stringify writes them
    (section 7 of RFC 8259; a lone surrogate is escaped, never written raw). */
module CanonicalContext {
  import opened JsText
  import Hex
  import Utf8

  datatype Entry = Entry(key: JsString, value: JsString)

  const QUOTE: CodeUnit := 0x22
  const BACKSLASH: CodeUnit := 0x5C
  const COMMA: CodeUnit := 0x2C
  const OPEN: CodeUnit := 0x5B
  const CLOSE: CodeUnit := 0x5D
  const LETTER_U: CodeUnit := 0x75

  /** The letter of a two-character escape, or zero when the unit has none. */
  function ShortEscape(c: CodeUnit): (e: CodeUnit)
    ensures e == 0 || (0x22 <= e < 0x7B && e != LETTER_U)
  {
    if c == QUOTE then QUOTE
    else if c == BACKSLASH then BACKSLASH
    else if c == 0x08 then 0x62
    else if c == 0x0C then 0x66
    else if c == 0x0A then 0x6E
    else if c == 0x0D then 0x72
    else if c == 0x09 then 0x74
    else 0
  }

  function Unescape(e: CodeUnit): CodeUnit {
    if e == 0x62 then 0x08
    else if e == 0x66 then 0x0C
    else if e == 0x6E then 0x0A
    else if e == 0x72 then 0x0D
    else if e == 0x74 then 0x09
    else e
  }

  function UnicodeEscape(c: CodeUnit): (r: JsString)
    ensures |r| == 6 && r[0] == BACKSLASH && r[1] == LETTER_U
  {
    [BACKSLASH, LETTER_U,
     Hex.LowerDigit(c / 0x1000), Hex.LowerDigit(c / 0x100 % 16), Hex.LowerDigit(c / 16 % 16), Hex.LowerDigit(c % 16)]
  }

  /** One unit that does not start a surrogate pair. */
  function WriteUnit(c: CodeUnit): JsString {
    if ShortEscape(c) != 0 then [BACKSLASH, ShortEscape(c)]
    else if c < 0x20 || IsSurrogate(c) then UnicodeEscape(c)
    else [c]
  }

  function Body(s: JsString): JsString {
    if s == [] then []
    else if StartsPair(s) then [s[0], s[1]] + Body(s[2..])
    else WriteUnit(s[0]) + Body(s[1..])
  }

  function Quoted(s: JsString): JsString {
    [QUOTE] + (Body(s) + [QUOTE])
  }

  function WriteEntry(e: Entry): JsString {
    [OPEN] + (Quoted(e.key) + ([COMMA] + (Quoted(e.value) + [CLOSE])))
  }

  /** What follows the first entry. */
  function WriteTail(es: seq<Entry>): JsString {
    if es == [] then [CLOSE] else [COMMA] + (WriteEntry(es[0]) + WriteTail(es[1..]))
  }

  function WriteEntries(es: seq<Entry>): JsString {
    [OPEN] + (if es == [] then [CLOSE] else WriteEntry(es[0]) + WriteTail(es[1..]))
  }

  /** Strings are ordered by their code units. */
  predicate Less(a: JsString, b: JsString) {
    b != [] && (a == [] || a[0] < b[0] || (a[0] == b[0] && Less(a[1..], b[1..])))
  }

  function Insert(e: Entry, es: seq<Entry>): (r: seq<Entry>)
    ensures multiset(r) == multiset(es) + multiset{e}
  {
    if es == [] then [e]
    else if Less(es[0].key, e.key) then
      assert es == [es[0]] + es[1..];
      [es[0]] + Insert(e, es[1..])
    else [e] + es
  }

  /** The entries sorted by key. */
  function Sort(es: seq<Entry>): (r: seq<Entry>)
    ensures multiset(r) == multiset(es)
  {
    if es == [] then []
    else
      assert es == [es[0]] + es[1..];
      Insert(es[0], Sort(es[1..]))
  }

  /** `es` is what Object.entries gives for the context, in whatever insertion order. */
  function Canonical(es: seq<Entry>): Bytes {
    Utf8.Encode(WriteEntries(Sort(es)))
  }

  predicate DistinctKeys(es: seq<Entry>) {
    forall i, j :: 0 <= i < j < |es| ==> es[i].key != es[j].key
  }

  /** The context as a map. */
  function AsMap(es: seq<Entry>): map<JsString, JsString> {
    if es == [] then map[] else AsMap(es[..|es| - 1])[es[|es| - 1].key := es[|es| - 1].value]
  }

  predicate Sorted(es: seq<Entry>) {
    forall i, j :: 0 <= i < j < |es| ==> Less(es[i].key, es[j].key)
  }

  lemma {:induction false} LessIrreflexive(a: JsString)
    ensures !Less(a, a)
  {
    if a != [] {
      LessIrreflexive(a[1..]);
    }
  }

  lemma {:induction false} LessTransitive(a: JsString, b: JsString, c: JsString)
    requires Less(a, b) && Less(b, c)
    ensures Less(a, c)
  {
    if a != [] && a[0] == b[0] == c[0] {
      LessTransitive(a[1..], b[1..], c[1..]);
    }
  }

  lemma {:induction false} LessTotal(a: JsString, b: JsString)
    ensures Less(a, b) || Less(b, a) || a == b
  {
    if a != [] && b != [] && a[0] == b[0] {
      LessTotal(a[1..], b[1..]);
      assert a == [a[0]] + a[1..] && b == [b[0]] + b[1..];
    }
  }

  lemma {:induction false} InsertSorted(e: Entry, es: seq<Entry>)
    requires Sorted(es) && forall x :: x in es ==> x.key != e.key
    ensures Sorted(Insert(e, es))
  {
    if es != [] {
      var r := Insert(e, es);
      if Less(es[0].key, e.key) {
        InsertSorted(e, es[1..]);
        var rest := Insert(e, es[1..]);
        forall j | 0 <= j < |rest| ensures Less(es[0].key, rest[j].key) {
          assert rest[j] in multiset(rest);
          assert rest[j] == e || rest[j] in es[1..];
        }
      } else {
        LessTotal(es[0].key, e.key);
        assert es[0] in es;
        forall j | 0 <= j < |es| ensures Less(e.key, es[j].key) {
          if j > 0 {
            LessTransitive(e.key, es[0].key, es[j].key);
          }
        }
      }
    }
  }

  lemma MultisetMembers(a: seq<Entry>, b: seq<Entry>)
    requires multiset(a) == multiset(b)
    ensures forall x :: x in a <==> x in b
  {
    forall x ensures x in a <==> x in b {
      assert x in a <==> x in multiset(a);
      assert x in b <==> x in multiset(b);
    }
  }

  lemma {:induction false} SortSorted(es: seq<Entry>)
    requires DistinctKeys(es)
    ensures Sorted(Sort(es))
  {
    if es != [] {
      SortSorted(es[1..]);
      MultisetMembers(Sort(es[1..]), es[1..]);
      InsertSorted(es[0], Sort(es[1..]));
    }
  }

  /** Two sorted lists with the same entries are the same list. */
  lemma {:induction false} SortedUnique(a: seq<Entry>, b: seq<Entry>)
    requires Sorted(a) && Sorted(b) && forall x :: x in a <==> x in b
    ensures a == b
  {
    if a == [] {
      forall x ensures x !in multiset(b) {
        assert x in b <==> x in multiset(b);
      }
      assert |b| == |multiset(b)| == 0;
    } else {
      assert a[0] in a && a[0] in b;
      assert b[0] in b && b[0] in a;
      var i :| 0 <= i < |b| && b[i] == a[0];
      var j :| 0 <= j < |a| && a[j] == b[0];
      if i > 0 && j > 0 {
        LessTransitive(a[0].key, a[j].key, a[0].key);
        LessIrreflexive(a[0].key);
      }
      assert a[0] == b[0];
      forall x ensures x in a[1..] <==> x in b[1..] {
        SortedTail(a, x);
        SortedTail(b, x);
      }
      SortedUnique(a[1..], b[1..]);
    }
  }

  lemma SortedTail(a: seq<Entry>, x: Entry)
    requires Sorted(a) && a != []
    ensures x in a[1..] <==> x in a && x != a[0]
  {
    LessIrreflexive(a[0].key);
    if x in a[1..] {
      var k :| 0 <= k < |a| - 1 && a[1..][k] == x;
      assert Less(a[0].key, a[k + 1].key);
    }
  }

  lemma {:induction false} AsMapEntries(es: seq<Entry>)
    requires DistinctKeys(es)
    ensures forall k, v :: k in AsMap(es) && AsMap(es)[k] == v <==> Entry(k, v) in es
  {
    if es != [] {
      var front, last := es[..|es| - 1], es[|es| - 1];
      AsMapEntries(front);
      assert es == front + [last];
      forall k, v ensures k in AsMap(es) && AsMap(es)[k] == v <==> Entry(k, v) in es {
        if k == last.key && Entry(k, v) in es {
          var i :| 0 <= i < |es| && es[i] == Entry(k, v);
          assert i == |es| - 1;
        }
      }
    }
  }

  /** Reads the rest of a string literal, up to its closing quote: the contents and what follows. */
  datatype Read = Unterminated | Read(contents: JsString, rest: JsString)

  function ReadBody(t: JsString): Read
    decreases |t|
  {
    if t == [] then Unterminated
    else if t[0] == QUOTE then Read([], t[1..])
    else if t[0] != BACKSLASH then Prepend(t[0], ReadBody(t[1..]))
    else if |t| >= 2 && t[1] != LETTER_U then Prepend(Unescape(t[1]), ReadBody(t[2..]))
    else if |t| >= 6 then Prepend(ReadUnicode(t), ReadBody(t[6..]))
    else Unterminated
  }

  function ReadUnicode(t: JsString): CodeUnit
    requires |t| >= 6
  {
    var digits := t[2..6];
    if Hex.IsHex(digits) && Hex.Value(digits) < 0x10000 then Hex.Value(digits) else 0
  }

  function Prepend(c: CodeUnit, r: Read): Read {
    if r.Unterminated? then r else r.(contents := [c] + r.contents)
  }

  lemma FourDigits(c: CodeUnit)
    ensures c == (((c / 0x1000) * 16 + c / 0x100 % 16) * 16 + c / 16 % 16) * 16 + c % 16
  {
    assert c / 0x100 == c / 16 / 16 && c / 0x1000 == c / 16 / 16 / 16;
  }

  lemma FourDigitValue(u: JsString)
    requires |u| == 4 && Hex.IsHex(u)
    ensures Hex.Value(u) ==
            ((Hex.DigitValue(u[0]) * 16 + Hex.DigitValue(u[1])) * 16 + Hex.DigitValue(u[2])) * 16 + Hex.DigitValue(u[3])
  {
    assert u[..3][..2] == u[..2] && u[..2][..1] == u[..1] && u[..1][..0] == [];
    assert Hex.Value(u[..1]) == Hex.DigitValue(u[0]);
    assert Hex.Value(u[..2]) == Hex.DigitValue(u[0]) * 16 + Hex.DigitValue(u[1]);
    assert Hex.Value(u[..3]) == 16 * Hex.Value(u[..2]) + Hex.DigitValue(u[2]);
  }

  lemma UnicodeReadsBack(c: CodeUnit, t: JsString)
    requires |t| >= 6 && t[2..6] == UnicodeEscape(c)[2..]
    ensures ReadUnicode(t) == c
  {
    var u := UnicodeEscape(c)[2..];
    FourDigitValue(u);
    FourDigits(c);
  }

  lemma ReadWrittenUnit(c: CodeUnit, t: JsString)
    ensures ReadBody(WriteUnit(c) + t) == Prepend(c, ReadBody(t))
  {
    var w := WriteUnit(c) + t;
    if ShortEscape(c) != 0 {
      assert w[2..] == t && Unescape(ShortEscape(c)) == c;
    } else if c < 0x20 || IsSurrogate(c) {
      assert w[6..] == t && w[2..6] == UnicodeEscape(c)[2..];
      UnicodeReadsBack(c, w);
    } else {
      assert w[1..] == t;
    }
  }

  lemma Assoc(a: JsString, b: JsString, c: JsString)
    ensures (a + b) + c == a + (b + c)
  {
  }

  lemma ReadPair(high: CodeUnit, low: CodeUnit, t: JsString)
    requires IsHigh(high) && IsLow(low)
    ensures ReadBody([high, low] + t) == Prepend(high, Prepend(low, ReadBody(t)))
  {
    assert ([high, low] + t)[1..] == [low] + t;
    assert ([low] + t)[1..] == t;
  }

  lemma PairContents(s: JsString, rest: JsString)
    requires |s| >= 2
    ensures Prepend(s[0], Prepend(s[1], Read(s[2..], rest))) == Read(s, rest)
  {
    assert s == [s[0]] + ([s[1]] + s[2..]);
  }

  lemma BodyPair(s: JsString, t: JsString)
    requires StartsPair(s)
    ensures Body(s) + t == [s[0], s[1]] + (Body(s[2..]) + t)
  {
    Assoc([s[0], s[1]], Body(s[2..]), t);
  }

  lemma ReadBodyPair(s: JsString, t: JsString, rest: JsString)
    requires StartsPair(s) && ReadBody(Body(s[2..]) + t) == Read(s[2..], rest)
    ensures ReadBody(Body(s) + t) == Read(s, rest)
  {
    BodyPair(s, t);
    ReadPair(s[0], s[1], Body(s[2..]) + t);
    PairContents(s, rest);
  }

  lemma ReadBodyUnit(s: JsString, t: JsString, rest: JsString)
    requires s != [] && !StartsPair(s) && ReadBody(Body(s[1..]) + t) == Read(s[1..], rest)
    ensures ReadBody(Body(s) + t) == Read(s, rest)
  {
    Assoc(WriteUnit(s[0]), Body(s[1..]), t);
    ReadWrittenUnit(s[0], Body(s[1..]) + t);
    assert s == [s[0]] + s[1..];
  }

  lemma {:induction false} ReadWrittenBody(s: JsString, t: JsString)
    requires t != [] && t[0] == QUOTE
    ensures ReadBody(Body(s) + t) == Read(s, t[1..])
  {
    if s == [] {
      assert Body(s) + t == t;
    } else if StartsPair(s) {
      ReadWrittenBody(s[2..], t);
      ReadBodyPair(s, t, t[1..]);
    } else {
      ReadWrittenBody(s[1..], t);
      ReadBodyUnit(s, t, t[1..]);
    }
  }

  lemma ReadQuoted(s: JsString, t: JsString)
    ensures ReadBody((Quoted(s) + t)[1..]) == Read(s, t)
  {
    assert (Quoted(s) + t)[1..] == (Body(s) + [QUOTE]) + t;
    Assoc(Body(s), [QUOTE], t);
    ReadWrittenBody(s, [QUOTE] + t);
    assert ([QUOTE] + t)[1..] == t;
  }

  lemma QuotedInjective(a: JsString, b: JsString, x: JsString, y: JsString)
    requires Quoted(a) + x == Quoted(b) + y
    ensures a == b && x == y
  {
    ReadQuoted(a, x);
    ReadQuoted(b, y);
  }

  function AfterKey(e: Entry, x: JsString): JsString {
    [COMMA] + (Quoted(e.value) + ([CLOSE] + x))
  }

  lemma EntrySplit(e: Entry, x: JsString)
    ensures (WriteEntry(e) + x)[1..] == Quoted(e.key) + AfterKey(e, x)
    ensures AfterKey(e, x)[1..] == Quoted(e.value) + ([CLOSE] + x)
  {
    var value := Quoted(e.value) + [CLOSE];
    assert (WriteEntry(e) + x)[1..] == (Quoted(e.key) + ([COMMA] + value)) + x;
    Assoc(Quoted(e.key), [COMMA] + value, x);
    Assoc([COMMA], value, x);
    Assoc(Quoted(e.value), [CLOSE], x);
  }

  lemma EntryInjective(a: Entry, b: Entry, x: JsString, y: JsString)
    requires WriteEntry(a) + x == WriteEntry(b) + y
    ensures a == b && x == y
  {
    EntrySplit(a, x);
    EntrySplit(b, y);
    QuotedInjective(a.key, b.key, AfterKey(a, x), AfterKey(b, y));
    QuotedInjective(a.value, b.value, [CLOSE] + x, [CLOSE] + y);
    assert ([CLOSE] + x)[1..] == x && ([CLOSE] + y)[1..] == y;
  }

  lemma TailHead(es: seq<Entry>)
    ensures WriteTail(es) != [] && (WriteTail(es)[0] == COMMA <==> es != [])
    ensures es != [] ==> WriteTail(es)[1..] == WriteEntry(es[0]) + WriteTail(es[1..])
  {
  }

  lemma {:induction false} TailInjective(a: seq<Entry>, b: seq<Entry>)
    requires WriteTail(a) == WriteTail(b)
    ensures a == b
  {
    TailHead(a);
    TailHead(b);
    if a != [] {
      EntryInjective(a[0], b[0], WriteTail(a[1..]), WriteTail(b[1..]));
      TailInjective(a[1..], b[1..]);
      assert a == [a[0]] + a[1..] && b == [b[0]] + b[1..];
    }
  }

  lemma EntriesHead(es: seq<Entry>)
    ensures |WriteEntries(es)| >= 2 && (WriteEntries(es)[1] == OPEN <==> es != [])
    ensures es != [] ==> WriteEntries(es)[1..] == WriteEntry(es[0]) + WriteTail(es[1..])
  {
  }

  lemma EntriesInjective(a: seq<Entry>, b: seq<Entry>)
    requires WriteEntries(a) == WriteEntries(b)
    ensures a == b
  {
    EntriesHead(a);
    EntriesHead(b);
    if a != [] {
      EntryInjective(a[0], b[0], WriteTail(a[1..]), WriteTail(b[1..]));
      TailInjective(a[1..], b[1..]);
      assert a == [a[0]] + a[1..] && b == [b[0]] + b[1..];
    }
  }

  lemma {:induction false} BodyWellFormed(s: JsString)
    ensures WellFormed(Body(s))
  {
    if s != [] {
      if StartsPair(s) {
        BodyWellFormed(s[2..]);
        assert [s[0], s[1]][2..] == [];
        WellFormedConcat([s[0], s[1]], Body(s[2..]));
      } else {
        BodyWellFormed(s[1..]);
        WellFormedPlain(WriteUnit(s[0]));
        WellFormedConcat(WriteUnit(s[0]), Body(s[1..]));
      }
    }
  }

  lemma QuotedWellFormed(s: JsString)
    ensures WellFormed(Quoted(s))
  {
    BodyWellFormed(s);
    WellFormedPlain([QUOTE]);
    WellFormedConcat(Body(s), [QUOTE]);
    WellFormedConcat([QUOTE], Body(s) + [QUOTE]);
  }

  lemma EntryWellFormed(e: Entry)
    ensures WellFormed(WriteEntry(e))
  {
    QuotedWellFormed(e.key);
    QuotedWellFormed(e.value);
    WellFormedPlain([OPEN]);
    WellFormedPlain([COMMA]);
    WellFormedPlain([CLOSE]);
    var value := Quoted(e.value) + [CLOSE];
    WellFormedConcat(Quoted(e.value), [CLOSE]);
    WellFormedConcat([COMMA], value);
    WellFormedConcat(Quoted(e.key), [COMMA] + value);
    WellFormedConcat([OPEN], Quoted(e.key) + ([COMMA] + value));
  }

  lemma {:induction false} TailWellFormed(es: seq<Entry>)
    ensures WellFormed(WriteTail(es))
  {
    if es == [] {
      WellFormedPlain([CLOSE]);
    } else {
      WellFormedPlain([COMMA]);
      EntryWellFormed(es[0]);
      TailWellFormed(es[1..]);
      WellFormedConcat(WriteEntry(es[0]), WriteTail(es[1..]));
      WellFormedConcat([COMMA], WriteEntry(es[0]) + WriteTail(es[1..]));
    }
  }

  lemma EntriesWellFormed(es: seq<Entry>)
    ensures WellFormed(WriteEntries(es))
  {
    WellFormedPlain([OPEN]);
    if es == [] {
      WellFormedPlain([CLOSE]);
      WellFormedConcat([OPEN], [CLOSE]);
    } else {
      EntryWellFormed(es[0]);
      TailWellFormed(es[1..]);
      WellFormedConcat(WriteEntry(es[0]), WriteTail(es[1..]));
      WellFormedConcat([OPEN], WriteEntry(es[0]) + WriteTail(es[1..]));
    }
  }

  /** Two contexts have the same canonical bytes exactly when they are equal as maps, in whatever
      order their entries were inserted and whatever characters they hold. */
  lemma CanonicalIff(a: seq<Entry>, b: seq<Entry>)
    requires DistinctKeys(a) && DistinctKeys(b)
    ensures Canonical(a) == Canonical(b) <==> AsMap(a) == AsMap(b)
  {
    AsMapEntries(a);
    AsMapEntries(b);
    MultisetMembers(Sort(a), a);
    MultisetMembers(Sort(b), b);
    if Canonical(a) == Canonical(b) {
      EntriesWellFormed(Sort(a));
      EntriesWellFormed(Sort(b));
      Utf8.EncodeInjective(WriteEntries(Sort(a)), WriteEntries(Sort(b)));
      EntriesInjective(Sort(a), Sort(b));
      SameEntriesSameMap(a, b);
    }
    if AsMap(a) == AsMap(b) {
      SortSorted(a);
      SortSorted(b);
      forall x ensures x in Sort(a) <==> x in Sort(b) {
        assert Entry(x.key, x.value) == x;
      }
      SortedUnique(Sort(a), Sort(b));
    }
  }

  lemma SameEntriesSameMap(a: seq<Entry>, b: seq<Entry>)
    requires DistinctKeys(a) && DistinctKeys(b) && forall x :: x in a <==> x in b
    ensures AsMap(a) == AsMap(b)
  {
    AsMapEntries(a);
    AsMapEntries(b);
    forall k ensures k in AsMap(a) <==> k in AsMap(b) {
      if k in AsMap(a) {
        assert Entry(k, AsMap(a)[k]) in a;
      }
      if k in AsMap(b) {
        assert Entry(k, AsMap(b)[k]) in b;
      }
    }
    forall k | k in AsMap(a) ensures AsMap(a)[k] == AsMap(b)[k] {
      assert Entry(k, AsMap(a)[k]) in b;
    }
  }

  lemma SamePrefix(a: JsString, b: JsString, i: nat)
    requires 0 < i <= |a| && i <= |b|
    ensures a[..i] == b[..i] ==> a[0] == b[0]
  {
    assert a[..i][0] == a[0] && b[..i][0] == b[0];
  }

  /** The units before `i` agree, and there `a` ends or has the smaller unit. */
  predicate DiffersAt(a: JsString, b: JsString, i: nat) {
    i <= |a| && i < |b| && a[..i] == b[..i] && (i == |a| || a[i] < b[i])
  }

  lemma DiffersLater(a: JsString, b: JsString, i: nat)
    requires a != [] && b != [] && a[0] == b[0]
    ensures DiffersAt(a[1..], b[1..], i) == DiffersAt(a, b, i + 1)
  {
    if i < |a| && i < |b| {
      assert a[..i + 1] == [a[0]] + a[1..][..i] && b[..i + 1] == [b[0]] + b[1..][..i];
      assert a[1..][..i] == a[..i + 1][1..] && b[1..][..i] == b[..i + 1][1..];
    }
  }

  /** Keys are ordered by their first differing unit, and a key comes before those it starts. */
  lemma {:induction false} LessIff(a: JsString, b: JsString)
    ensures Less(a, b) <==> exists i: nat :: DiffersAt(a, b, i)
  {
    forall i: nat | 0 < i <= |a| && i <= |b| {
      SamePrefix(a, b, i);
    }
    if a != [] && b != [] && a[0] == b[0] {
      LessIff(a[1..], b[1..]);
      if Less(a, b) {
        var i: nat :| DiffersAt(a[1..], b[1..], i);
        DiffersLater(a, b, i);
        assert DiffersAt(a, b, i + 1);
      }
      if i: nat :| DiffersAt(a, b, i) {
        DiffersLater(a, b, i - 1);
        assert DiffersAt(a[1..], b[1..], i - 1);
      }
    } else if Less(a, b) {
      assert DiffersAt(a, b, 0);
    }
  }

  predicate IsPlain(s: JsString) {
    forall i :: 0 <= i < |s| ==> 0x20 <= s[i] < 0x80 && s[i] != QUOTE && s[i] != BACKSLASH
  }

  lemma {:induction false} PlainBody(s: JsString)
    requires IsPlain(s)
    ensures Body(s) == s
  {
    if s != [] {
      PlainBody(s[1..]);
      assert !StartsPair(s) && s == [s[0]] + s[1..];
    }
  }

  function PairText(key: JsString, value: JsString): JsString {
    [0x5B, 0x5B, 0x22] + key + [0x22, 0x2C, 0x22] + value + [0x22, 0x5D, 0x5D]
  }

  lemma PlainQuoted(before: CodeUnit, s: JsString, rest: JsString)
    requires Body(s) == s
    ensures [before] + (Quoted(s) + rest) == [before, 0x22] + s + ([0x22] + rest)
  {
    assert Quoted(s) == [0x22] + s + [0x22];
  }

  lemma PlainEntryText(key: JsString, value: JsString)
    requires Body(key) == key && Body(value) == value
    ensures WriteEntry(Entry(key, value)) == [0x5B, 0x22] + key + [0x22, 0x2C, 0x22] + value + [0x22, 0x5D]
  {
    PlainQuoted(COMMA, value, [CLOSE]);
    var rest := [COMMA] + (Quoted(value) + [CLOSE]);
    PlainQuoted(OPEN, key, rest);
    assert [0x22] + [CLOSE] == [0x22, 0x5D];
    var start := [0x5B, 0x22] + key;
    assert [0x22] + rest == [0x22, 0x2C, 0x22] + value + [0x22, 0x5D];
    Assoc(start, [0x22, 0x2C, 0x22] + value, [0x22, 0x5D]);
    Assoc(start, [0x22, 0x2C, 0x22], value);
  }

  lemma PlainPairText(key: JsString, value: JsString)
    requires Body(key) == key && Body(value) == value
    ensures WriteEntries([Entry(key, value)]) == PairText(key, value)
  {
    var es := [Entry(key, value)];
    var entry := WriteEntry(es[0]);
    PlainEntryText(key, value);
    assert WriteTail(es[1..]) == [CLOSE];
    assert WriteEntries(es) == [0x5B] + entry + [0x5D];
  }

  lemma PlainPairIsAscii(key: JsString, value: JsString, i: nat)
    requires IsPlain(key) && IsPlain(value) && i < |PairText(key, value)|
    ensures PairText(key, value)[i] < 0x80
  {
  }

  /** The bytes of an owner's context, whose key and value are plain ASCII: the JSON text of a list with
      one pair of strings. */
  lemma CanonicalOfOwner(key: JsString, value: JsString)
    requires IsPlain(key) && IsPlain(value)
    ensures var text := [0x5B, 0x5B, 0x22] + key + [0x22, 0x2C, 0x22] + value + [0x22, 0x5D, 0x5D];
            var bytes := Canonical([Entry(key, value)]);
            |bytes| == |text| && forall i :: 0 <= i < |text| ==> bytes[i] == text[i]
  {
    var es := [Entry(key, value)];
    assert Sort(es[1..]) == [] && Sort(es) == es;
    PlainBody(key);
    PlainBody(value);
    PlainPairText(key, value);
    forall i | 0 <= i < |PairText(key, value)| ensures PairText(key, value)[i] < 0x80 {
      PlainPairIsAscii(key, value, i);
    }
    Utf8.AsciiIsItself(PairText(key, value));
  }
}
