/** The parser of concatenated Safe signatures (src/domain/common/utils/signatures.ts): 65 bytes a
    signature, followed for a contract signature (v = 00) by a 32-byte length and that many bytes. */
module Signatures {
  import opened Wrappers
  import opened JsText
  import opened Hex

  const HEX_PREFIX_LENGTH: nat := 2
  const R_OR_S_HEX_LENGTH: nat := 64
  const V_HEX_LENGTH: nat := 2
  const SIGNATURE_HEX_LENGTH: nat := R_OR_S_HEX_LENGTH + R_OR_S_HEX_LENGTH + V_HEX_LENGTH
  const LENGTH_FIELD_HEX_LENGTH: nat := 64
  /** 0x */
  const ZERO_X: JsString := [0x30, 0x78]

  /** 00 */
  const CONTRACT_V: JsString := [0x30, 0x30]

  /** How the two fields the parser looks at are read: whether v marks a contract signature, and the number
      a length field stands for (None is NaN). */
  datatype Reader = Reader(isContractV: JsString -> bool, number: JsString -> Option<int>)

  /** As the program reads them: v is two zero digits, and the field is a number in base 16. */
  const SOURCE := Reader(v => v == CONTRACT_V, ParseInt16)

  /** All that is needed of a reader to parse hex strings. */
  ghost predicate ReadsHex(read: Reader) {
    && (forall v: JsString :: read.isContractV(v) <==> v == CONTRACT_V)
    && (forall field: JsString :: |field| == LENGTH_FIELD_HEX_LENGTH && IsHex(field) ==>
          read.number(field) == Some(Value(field)))
  }

  lemma SourceReadsHex()
    ensures ReadsHex(SOURCE)
  {
    forall field: JsString | |field| == LENGTH_FIELD_HEX_LENGTH && IsHex(field)
      ensures SOURCE.number(field) == Some(Value(field))
    {
      ParseIntOfHex(field);
    }
  }

  datatype Error =
    | NotPrefixed | OddLength | TooShort
    | MissingStaticPart | MissingLengthField | MissingDynamicPart

  predicate IsPrefixed(s: JsString) {
    |s| >= 2 && s[0] == ZERO_X[0] && s[1] == ZERO_X[1]
  }

  /** The first n units, or all; a negative n counts from the end. */
  function SliceTo(s: JsString, n: int): JsString {
    if n < 0 then (if |s| + n <= 0 then [] else s[..|s| + n])
    else if n <= |s| then s[..n] else s
  }

  function StaticPart(signature: JsString, offset: nat): JsString
    requires offset + SIGNATURE_HEX_LENGTH <= |signature|
  {
    signature[offset..offset + SIGNATURE_HEX_LENGTH]
  }

  predicate IsContractSignature(read: Reader, staticPart: JsString)
    requires |staticPart| == SIGNATURE_HEX_LENGTH
  {
    read.isContractV(staticPart[SIGNATURE_HEX_LENGTH - V_HEX_LENGTH..])
  }

  /** A length field that is not a number never equals the length of a slice. */
  function DynamicPart(read: Reader, signature: JsString, offset: nat): Result<JsString, Error>
    requires offset + SIGNATURE_HEX_LENGTH <= |signature|
  {
    if |signature| - offset < SIGNATURE_HEX_LENGTH + LENGTH_FIELD_HEX_LENGTH then Err(MissingLengthField)
    else
      var remaining := signature[offset + SIGNATURE_HEX_LENGTH..];
      var byteLength := read.number(remaining[..LENGTH_FIELD_HEX_LENGTH]);
      if byteLength.None? then Err(MissingDynamicPart)
      else
        var hexLength := LENGTH_FIELD_HEX_LENGTH + byteLength.value * 2;
        var part := SliceTo(remaining, hexLength);
        if |part| != hexLength then Err(MissingDynamicPart) else Ok(part)
  }

  /** How much of a non-empty rest the next signature takes. */
  function Next(read: Reader, rest: JsString): (r: Result<nat, Error>)
    ensures r.Ok? ==> SIGNATURE_HEX_LENGTH <= r.value <= |rest|
  {
    if |rest| < SIGNATURE_HEX_LENGTH then Err(MissingStaticPart)
    else if !IsContractSignature(read, StaticPart(rest, 0)) then Ok(SIGNATURE_HEX_LENGTH)
    else
      match DynamicPart(read, rest, 0)
      case Err(e) => Err(e)
      case Ok(part) => Ok(SIGNATURE_HEX_LENGTH + |part|)
  }

  function Prepend(done: seq<JsString>, r: Result<seq<JsString>, Error>): Result<seq<JsString>, Error> {
    if r.Ok? then Ok(done + r.value) else r
  }

  function Parts(read: Reader, rest: JsString): Result<seq<JsString>, Error>
    decreases |rest|
  {
    if rest == [] then Ok([])
    else
      match Next(read, rest)
      case Err(e) => Err(e)
      case Ok(n) => Prepend([ZERO_X + rest[..n]], Parts(read, rest[n..]))
  }

  function Guard(signature: JsString): (e: Option<Error>)
    ensures e.None? ==> |signature| >= HEX_PREFIX_LENGTH + SIGNATURE_HEX_LENGTH
  {
    if !IsPrefixed(signature) then Some(NotPrefixed)
    else if |signature| % 2 != 0 then Some(OddLength)
    else if |signature| - HEX_PREFIX_LENGTH < SIGNATURE_HEX_LENGTH then Some(TooShort)
    else None
  }

  function Parse(read: Reader, signature: JsString): Result<seq<JsString>, Error> {
    var refused := Guard(signature);
    if refused.Some? then Err(refused.value) else Parts(read, signature[HEX_PREFIX_LENGTH..])
  }

  lemma PrependNothing(r: Result<seq<JsString>, Error>)
    ensures Prepend([], r) == r
  {
    assert r.Ok? ==> [] + r.value == r.value;
  }

  lemma PrependTwice(one: seq<JsString>, two: seq<JsString>, r: Result<seq<JsString>, Error>)
    ensures Prepend(one, Prepend(two, r)) == Prepend(one + two, r)
  {
    assert r.Ok? ==> one + (two + r.value) == one + two + r.value;
  }

  lemma DynamicPartOfRest(read: Reader, signature: JsString, offset: nat)
    requires offset + SIGNATURE_HEX_LENGTH <= |signature|
    ensures StaticPart(signature, offset) == StaticPart(signature[offset..], 0)
    ensures DynamicPart(read, signature, offset) == DynamicPart(read, signature[offset..], 0)
    ensures DynamicPart(read, signature, offset).Ok? ==>
              StaticPart(signature, offset) + DynamicPart(read, signature, offset).value ==
              signature[offset..][..SIGNATURE_HEX_LENGTH + |DynamicPart(read, signature, offset).value|]
  {
    var rest := signature[offset..];
    assert rest[SIGNATURE_HEX_LENGTH..] == signature[offset + SIGNATURE_HEX_LENGTH..];
  }

  /** The next signature, read at an offset of the whole string. */
  lemma NextAt(read: Reader, signature: JsString, i: nat)
    requires i + SIGNATURE_HEX_LENGTH <= |signature|
    ensures Next(read, signature[i..]) ==
            if !IsContractSignature(read, StaticPart(signature, i)) then Ok(SIGNATURE_HEX_LENGTH)
            else match DynamicPart(read, signature, i)
                 case Err(e) => Err(e)
                 case Ok(part) => Ok(SIGNATURE_HEX_LENGTH + |part|)
  {
    DynamicPartOfRest(read, signature, i);
  }

  /** The part at an offset: the static part, and for a contract signature its dynamic part. */
  function PartAt(read: Reader, signature: JsString, i: nat): (part: Result<JsString, Error>)
    requires i <= |signature|
    ensures part.Ok? ==> SIGNATURE_HEX_LENGTH <= |part.value| <= |signature| - i
  {
    if |signature| - i < SIGNATURE_HEX_LENGTH then Err(MissingStaticPart)
    else
      var staticPart := StaticPart(signature, i);
      if !IsContractSignature(read, staticPart) then Ok(staticPart)
      else
        var dynamicPart := DynamicPart(read, signature, i);
        if dynamicPart.Err? then dynamicPart else Ok(staticPart + dynamicPart.value)
  }

  /** The loop's own recursion: what it still collects from an offset on. */
  function PartsFrom(read: Reader, signature: JsString, i: nat): Result<seq<JsString>, Error>
    requires i <= |signature|
    decreases |signature| - i
  {
    if i == |signature| then Ok([])
    else
      var part := PartAt(read, signature, i);
      if part.Err? then Err(part.error)
      else Prepend([ZERO_X + part.value], PartsFrom(read, signature, i + |part.value|))
  }

  lemma PartAtIsNext(read: Reader, signature: JsString, i: nat)
    requires i <= |signature|
    ensures var part := PartAt(read, signature, i);
            Next(read, signature[i..]) == if part.Err? then Err(part.error) else Ok(|part.value|)
    ensures PartAt(read, signature, i).Ok? ==>
              signature[i..][..|PartAt(read, signature, i).value|] == PartAt(read, signature, i).value
  {
    if |signature| - i >= SIGNATURE_HEX_LENGTH {
      NextAt(read, signature, i);
      DynamicPartOfRest(read, signature, i);
    }
  }

  lemma PartsStep(read: Reader, rest: JsString, n: nat, part: JsString)
    requires rest != [] && Next(read, rest) == Ok(n) && rest[..n] == part
    ensures Parts(read, rest) == Prepend([ZERO_X + part], Parts(read, rest[n..]))
  {
  }

  /** What it collects depends on the rest of the string only. */
  lemma {:induction false} PartsFromIsParts(read: Reader, signature: JsString, i: nat)
    requires i <= |signature|
    ensures PartsFrom(read, signature, i) == Parts(read, signature[i..])
    decreases |signature| - i
  {
    if i < |signature| {
      var part := PartAt(read, signature, i);
      PartAtIsNext(read, signature, i);
      if part.Ok? {
        var n := |part.value|;
        PartsFromIsParts(read, signature, i + n);
        PartsStep(read, signature[i..], n, part.value);
        assert signature[i..][n..] == signature[i + n..];
      }
    }
  }

  method ParseSignaturesByType(read: Reader, signature: JsString) returns (r: Result<seq<JsString>, Error>)
    ensures r == Parse(read, signature)
  {
    var refused := Guard(signature);
    if refused.Some? { return Err(refused.value); }
    r := ParseParts(read, signature);
    PartsFromIsParts(read, signature, HEX_PREFIX_LENGTH);
  }

  /** The loop: it moves forward by at least 65 bytes a turn. */
  method ParseParts(read: Reader, signature: JsString) returns (r: Result<seq<JsString>, Error>)
    requires |signature| >= HEX_PREFIX_LENGTH
    ensures r == PartsFrom(read, signature, HEX_PREFIX_LENGTH)
  {
    var signatures: seq<JsString> := [];
    var i: nat := HEX_PREFIX_LENGTH;
    PrependNothing(PartsFrom(read, signature, i));
    while i < |signature|
      invariant i <= |signature|
      invariant PartsFrom(read, signature, HEX_PREFIX_LENGTH) == Prepend(signatures, PartsFrom(read, signature, i))
      decreases |signature| - i
    {
      if |signature| - i < SIGNATURE_HEX_LENGTH { return Err(MissingStaticPart); }
      var staticPart := StaticPart(signature, i);
      if !IsContractSignature(read, staticPart) {
        PrependTwice(signatures, [ZERO_X + staticPart], PartsFrom(read, signature, i + SIGNATURE_HEX_LENGTH));
        signatures := signatures + [ZERO_X + staticPart];
        i := i + SIGNATURE_HEX_LENGTH;
        continue;
      }
      var dynamicPart := DynamicPart(read, signature, i);
      if dynamicPart.Err? { return Err(dynamicPart.error); }
      var part := staticPart + dynamicPart.value;
      PrependTwice(signatures, [ZERO_X + part], PartsFrom(read, signature, i + |part|));
      signatures := signatures + [ZERO_X + part];
      i := i + SIGNATURE_HEX_LENGTH + |dynamicPart.value|;
    }
    assert signatures + [] == signatures;
    return Ok(signatures);
  }

  function Body(part: JsString): JsString {
    if |part| < HEX_PREFIX_LENGTH then [] else part[HEX_PREFIX_LENGTH..]
  }

  /** The parts without their 0x, one after another. */
  function Flat(parts: seq<JsString>): JsString {
    if parts == [] then [] else Body(parts[0]) + Flat(parts[1..])
  }

  lemma FlatCons(first: JsString, parts: seq<JsString>)
    ensures Flat([first] + parts) == Body(first) + Flat(parts)
  {
    assert ([first] + parts)[1..] == parts;
  }

  lemma FlatConsTail(first: JsString, parts: seq<JsString>, tail: JsString)
    ensures Body(first) + (Flat(parts) + tail) == Flat([first] + parts) + tail
  {
    FlatCons(first, parts);
  }

  lemma PartsSplit(read: Reader, rest: JsString)
    requires rest != [] && Parts(read, rest).Ok?
    ensures Next(read, rest).Ok?
    ensures var n := Next(read, rest).value;
            && Parts(read, rest[n..]).Ok?
            && Parts(read, rest).value == [ZERO_X + rest[..n]] + Parts(read, rest[n..]).value
  {
  }

  lemma FlatSplit(rest: JsString, n: nat, tail: seq<JsString>)
    requires n <= |rest| && Flat(tail) == rest[n..]
    ensures Flat([ZERO_X + rest[..n]] + tail) == rest
  {
    FlatCons(ZERO_X + rest[..n], tail);
    assert Body(ZERO_X + rest[..n]) == rest[..n];
    assert rest == rest[..n] + rest[n..];
  }

  lemma {:induction false} PartsFlatten(read: Reader, rest: JsString)
    requires Parts(read, rest).Ok?
    ensures Flat(Parts(read, rest).value) == rest
    decreases |rest|
  {
    if rest != [] {
      PartsSplit(read, rest);
      var n := Next(read, rest).value;
      PartsFlatten(read, rest[n..]);
      FlatSplit(rest, n, Parts(read, rest[n..]).value);
    }
  }

  /** Nothing is lost, repeated or reordered, whatever the accepted string contains. */
  lemma PartsConcatenate(read: Reader, signature: JsString)
    requires Parse(read, signature).Ok?
    ensures var parts := Parse(read, signature).value;
            && parts != []
            && (forall k :: 0 <= k < |parts| ==>
                  IsPrefixed(parts[k]) && |parts[k]| >= HEX_PREFIX_LENGTH + SIGNATURE_HEX_LENGTH)
            && ZERO_X + Flat(parts) == signature
  {
    PartsFlatten(read, signature[2..]);
    PartsAreLong(read, signature[2..]);
    assert signature == ZERO_X + signature[2..];
  }

  lemma {:induction false} PartsAreLong(read: Reader, rest: JsString)
    requires Parts(read, rest).Ok?
    ensures forall k :: 0 <= k < |Parts(read, rest).value| ==>
              && IsPrefixed(Parts(read, rest).value[k])
              && |Parts(read, rest).value[k]| >= HEX_PREFIX_LENGTH + SIGNATURE_HEX_LENGTH
    decreases |rest|
  {
    if rest != [] {
      PartsAreLong(read, rest[Next(read, rest).value..]);
    }
  }

  /** The 65th byte is written 00. */
  predicate HasZeroV(s: JsString)
    requires |s| >= SIGNATURE_HEX_LENGTH
  {
    s[SIGNATURE_HEX_LENGTH - 2] == 0x30 && s[SIGNATURE_HEX_LENGTH - 1] == 0x30
  }

  lemma ContractIffZeroV(read: Reader, s: JsString)
    requires ReadsHex(read) && |s| >= SIGNATURE_HEX_LENGTH
    ensures IsContractSignature(read, StaticPart(s, 0)) <==> HasZeroV(s)
  {
    var v := StaticPart(s, 0)[SIGNATURE_HEX_LENGTH - V_HEX_LENGTH..];
    assert v[0] == s[128] && v[1] == s[129];
    assert HasZeroV(s) ==> v == CONTRACT_V;
  }

  /** One signature, read on its own: 65 bytes with v other than 00, or 65 bytes with v = 00, a 32-byte
      length and exactly that many bytes. */
  predicate IsSignature(body: JsString) {
    && IsHex(body) && |body| >= SIGNATURE_HEX_LENGTH
    && if HasZeroV(body)
       then |body| >= 194 && |body| == 194 + 2 * Value(body[130..194])
       else |body| == SIGNATURE_HEX_LENGTH
  }

  predicate IsPart(part: JsString) {
    IsPrefixed(part) && IsSignature(Body(part))
  }

  predicate AllParts(parts: seq<JsString>) {
    forall k :: 0 <= k < |parts| ==> IsPart(parts[k])
  }

  /** Why a rest that is not empty holds no further signature. */
  predicate Breaks(rest: JsString, e: Error) {
    match e
    case MissingStaticPart => 0 < |rest| < SIGNATURE_HEX_LENGTH
    case MissingLengthField => SIGNATURE_HEX_LENGTH <= |rest| < 194 && HasZeroV(rest)
    case MissingDynamicPart => && |rest| >= 194 && HasZeroV(rest)
                               && IsHex(rest[130..194]) && 194 + 2 * Value(rest[130..194]) > |rest|
    case _ => false
  }

  lemma FieldOfHex(read: Reader, rest: JsString)
    requires ReadsHex(read)
    requires IsHex(rest) && |rest| >= 194
    ensures read.number(rest[130..][..64]) == Some(Value(rest[130..194]))
  {
    assert rest[130..][..64] == rest[130..194];
  }

  lemma PlainNextOfHex(read: Reader, rest: JsString)
    requires ReadsHex(read)
    requires IsHex(rest) && |rest| >= SIGNATURE_HEX_LENGTH && !HasZeroV(rest)
    ensures Next(read, rest) == Ok(SIGNATURE_HEX_LENGTH) && IsSignature(rest[..SIGNATURE_HEX_LENGTH])
  {
    ContractIffZeroV(read, rest);
  }

  lemma ContractNextOfHex(read: Reader, rest: JsString)
    requires ReadsHex(read)
    requires IsHex(rest) && |rest| >= 194 && HasZeroV(rest)
    ensures var n := 194 + 2 * Value(rest[130..194]);
            Next(read, rest) == if n <= |rest| then Ok(n) else Err(MissingDynamicPart)
  {
    ContractIffZeroV(read, rest);
    FieldOfHex(read, rest);
  }

  lemma ContractPrefix(rest: JsString, n: nat)
    requires IsHex(rest) && 194 <= n <= |rest| && HasZeroV(rest) && n == 194 + 2 * Value(rest[130..194])
    ensures IsSignature(rest[..n])
  {
    assert rest[..n][130..194] == rest[130..194];
  }

  lemma NextOfHex(read: Reader, rest: JsString)
    requires ReadsHex(read)
    requires IsHex(rest) && rest != []
    ensures Next(read, rest).Ok? ==> IsSignature(rest[..Next(read, rest).value])
    ensures Next(read, rest).Err? ==> Breaks(rest, Next(read, rest).error)
  {
    if |rest| >= SIGNATURE_HEX_LENGTH {
      ContractIffZeroV(read, rest);
    }
    if |rest| < SIGNATURE_HEX_LENGTH {
    } else if !HasZeroV(rest) {
      PlainNextOfHex(read, rest);
    } else if |rest| >= 194 {
      ContractNextOfHex(read, rest);
      if Next(read, rest).Ok? {
        ContractPrefix(rest, Next(read, rest).value);
      }
    }
  }

  lemma NextOfSignature(read: Reader, body: JsString, rest: JsString)
    requires ReadsHex(read)
    requires IsSignature(body)
    ensures Next(read, body + rest) == Ok(|body|)
  {
    var s := body + rest;
    ContractIffZeroV(read, s);
    if HasZeroV(body) {
      var field := s[130..][..64];
      assert field == body[130..194];
    }
  }

  lemma FirstPartParses(read: Reader, body: JsString, tail: JsString)
    requires ReadsHex(read)
    requires IsSignature(body)
    ensures Parts(read, body + tail) == Prepend([ZERO_X + body], Parts(read, tail))
  {
    NextOfSignature(read, body, tail);
    assert (body + tail)[..|body|] == body && (body + tail)[|body|..] == tail;
  }

  /** One more signature in front. */
  lemma OneMoreParses(read: Reader, first: JsString, parts: seq<JsString>, rest: JsString)
    requires ReadsHex(read) && IsPart(first)
    requires Parts(read, Flat(parts) + rest) == Prepend(parts, Parts(read, rest))
    ensures Parts(read, Flat([first] + parts) + rest) == Prepend([first] + parts, Parts(read, rest))
  {
    FlatConsTail(first, parts, rest);
    PartOfBody(first);
    FirstPartParses(read, Body(first), Flat(parts) + rest);
    PrependTwice([first], parts, Parts(read, rest));
  }

  lemma PartOfBody(part: JsString)
    requires IsPrefixed(part)
    ensures ZERO_X + Body(part) == part
  {
  }

  lemma {:induction false} LeadingPartsParse(read: Reader, parts: seq<JsString>, rest: JsString)
    requires ReadsHex(read)
    requires AllParts(parts)
    ensures Parts(read, Flat(parts) + rest) == Prepend(parts, Parts(read, rest))
  {
    if parts == [] {
      assert Flat(parts) + rest == rest;
      PrependNothing(Parts(read, rest));
    } else {
      assert IsPart(parts[0]);
      LeadingPartsParse(read, parts[1..], rest);
      OneMoreParses(read, parts[0], parts[1..], rest);
      assert [parts[0]] + parts[1..] == parts;
    }
  }

  lemma {:induction false} PartsOfHex(read: Reader, rest: JsString)
    requires ReadsHex(read)
    requires IsHex(rest)
    ensures Parts(read, rest).Ok? ==> AllParts(Parts(read, rest).value)
    decreases |rest|
  {
    if rest != [] && Next(read, rest).Ok? {
      var n := Next(read, rest).value;
      NextOfHex(read, rest);
      PartsOfHex(read, rest[n..]);
      assert Body(ZERO_X + rest[..n]) == rest[..n];
    }
  }

  lemma TwiceIsEven(n: int, k: int)
    requires n == 2 * k
    ensures n % 2 == 0
  {
  }

  lemma SignatureIsEven(part: JsString)
    requires IsPart(part)
    ensures |Body(part)| % 2 == 0 && |Body(part)| >= SIGNATURE_HEX_LENGTH
  {
    var body := Body(part);
    TwiceIsEven(|body|, if HasZeroV(body) then 97 + Value(body[130..194]) else 65);
  }

  lemma EvenAppend(a: JsString, b: JsString)
    requires |a| % 2 == 0 && |b| % 2 == 0
    ensures |a + b| % 2 == 0 && |a + b| >= |a|
  {
  }

  lemma {:induction false} FlatIsEven(parts: seq<JsString>)
    requires AllParts(parts)
    ensures |Flat(parts)| % 2 == 0 && (parts != [] ==> |Flat(parts)| >= SIGNATURE_HEX_LENGTH)
  {
    if parts != [] {
      FlatIsEven(parts[1..]);
      SignatureIsEven(parts[0]);
      EvenAppend(Body(parts[0]), Flat(parts[1..]));
    }
  }

  lemma WholeListParses(read: Reader, parts: seq<JsString>)
    requires ReadsHex(read)
    requires AllParts(parts)
    ensures Parts(read, Flat(parts)) == Ok(parts)
  {
    LeadingPartsParse(read, parts, []);
    assert Flat(parts) + [] == Flat(parts) && parts + [] == parts;
  }

  lemma BodyOfPrefixed(body: JsString)
    ensures IsPrefixed(ZERO_X + body) && (ZERO_X + body)[HEX_PREFIX_LENGTH..] == body && Body(ZERO_X + body) == body
  {
  }

  lemma GuardOfBody(body: JsString)
    ensures Guard(ZERO_X + body).None? <==> |body| % 2 == 0 && |body| >= SIGNATURE_HEX_LENGTH
  {
  }

  lemma ParseOfBody(read: Reader, body: JsString)
    requires |body| % 2 == 0 && |body| >= SIGNATURE_HEX_LENGTH
    ensures Parse(read, ZERO_X + body) == Parts(read, body)
  {
    GuardOfBody(body);
    var s := ZERO_X + body;
    assert s[HEX_PREFIX_LENGTH..] == body;
  }

  lemma ParsedListIsParts(read: Reader, body: JsString)
    requires ReadsHex(read)
    requires IsHex(body) && Parse(read, ZERO_X + body).Ok?
    ensures var parts := Parse(read, ZERO_X + body).value; parts != [] && AllParts(parts) && Flat(parts) == body
  {
    BodyOfPrefixed(body);
    PartsFlatten(read, body);
    PartsOfHex(read, body);
  }

  lemma PartsListParses(read: Reader, parts: seq<JsString>)
    requires ReadsHex(read)
    requires parts != [] && AllParts(parts)
    ensures Parse(read, ZERO_X + Flat(parts)) == Ok(parts)
  {
    FlatIsEven(parts);
    ParseOfBody(read, Flat(parts));
    WholeListParses(read, parts);
  }

  /** Parsing is exactly the inverse of concatenation: a hex string parses to a list when the list is not
      empty, each member is one signature, and together they are the string. */
  lemma ParseIff(read: Reader, body: JsString, parts: seq<JsString>)
    requires ReadsHex(read)
    requires IsHex(body)
    ensures Parse(read, ZERO_X + body) == Ok(parts) <==> parts != [] && AllParts(parts) && Flat(parts) == body
  {
    if Parse(read, ZERO_X + body) == Ok(parts) {
      ParsedListIsParts(read, body);
    }
    if parts != [] && AllParts(parts) && Flat(parts) == body {
      PartsListParses(read, parts);
    }
  }

  /** Hence the code is uniquely decodable: two lists of signatures never have the same concatenation. */
  lemma UniquelyDecodable(read: Reader, one: seq<JsString>, other: seq<JsString>)
    requires ReadsHex(read)
    requires AllParts(one) && AllParts(other) && Flat(one) == Flat(other)
    ensures one == other
  {
    WholeListParses(read, one);
    WholeListParses(read, other);
  }

  ghost predicate BreaksAfterParts(rest: JsString, e: Error) {
    exists parts, tail :: AllParts(parts) && rest == Flat(parts) + tail && Breaks(tail, e)
  }

  lemma AllPartsCons(first: JsString, parts: seq<JsString>)
    requires IsPart(first) && AllParts(parts)
    ensures AllParts([first] + parts)
  {
  }

  lemma BreaksAfterOneMore(first: JsString, rest: JsString, e: Error)
    requires IsPart(first) && BreaksAfterParts(rest, e)
    ensures BreaksAfterParts(Body(first) + rest, e)
  {
    var parts, tail :| AllParts(parts) && rest == Flat(parts) + tail && Breaks(tail, e);
    AllPartsCons(first, parts);
    FlatConsTail(first, parts, tail);
  }

  lemma NextIsPart(read: Reader, rest: JsString)
    requires ReadsHex(read)
    requires IsHex(rest) && rest != [] && Next(read, rest).Ok?
    ensures var n := Next(read, rest).value;
            && IsPart(ZERO_X + rest[..n]) && IsHex(rest[n..]) && |rest[n..]| < |rest|
            && Body(ZERO_X + rest[..n]) + rest[n..] == rest
  {
    var n := Next(read, rest).value;
    NextOfHex(read, rest);
    BodyOfPrefixed(rest[..n]);
    assert rest == rest[..n] + rest[n..];
  }

  lemma PartsFail(read: Reader, rest: JsString)
    requires rest != [] && Parts(read, rest).Err?
    ensures if Next(read, rest).Err? then Parts(read, rest).error == Next(read, rest).error
            else Parts(read, rest[Next(read, rest).value..]) == Err(Parts(read, rest).error)
  {
  }

  lemma {:induction false} BreaksSomewhere(read: Reader, rest: JsString, e: Error)
    requires ReadsHex(read)
    requires IsHex(rest) && rest != [] && Parts(read, rest) == Err(e)
    ensures BreaksAfterParts(rest, e)
    decreases |rest|
  {
    NextOfHex(read, rest);
    PartsFail(read, rest);
    if Next(read, rest).Err? {
      assert AllParts([]) && rest == Flat([]) + rest;
    } else {
      var n := Next(read, rest).value;
      NextIsPart(read, rest);
      BreaksSomewhere(read, rest[n..], e);
      BreaksAfterOneMore(ZERO_X + rest[..n], rest[n..], e);
    }
  }

  /** And a hex string of the right size is refused with a given error exactly when it is some
      signatures followed by a rest that breaks off in that way. */
  lemma RefusedIff(read: Reader, body: JsString, e: Error)
    requires ReadsHex(read)
    requires IsHex(body) && |body| % 2 == 0 && |body| >= SIGNATURE_HEX_LENGTH
    ensures Parse(read, ZERO_X + body) == Err(e) <==> BreaksAfterParts(body, e)
  {
    ParseOfBody(read, body);
    if Parse(read, ZERO_X + body) == Err(e) {
      BreaksSomewhere(read, body, e);
    }
    if BreaksAfterParts(body, e) {
      var parts, tail :| AllParts(parts) && body == Flat(parts) + tail && Breaks(tail, e);
      LeadingPartsParse(read, parts, tail);
      BrokenRest(read, tail, e);
    }
  }

  lemma BrokenRest(read: Reader, rest: JsString, e: Error)
    requires ReadsHex(read)
    requires Breaks(rest, e)
    ensures Parts(read, rest) == Err(e)
  {
    if |rest| >= 130 {
      ContractIffZeroV(read, rest);
      if |rest| >= 194 {
        var field := rest[130..][..64];
        assert field == rest[130..194];
      }
    }
  }

  function Repeat(c: CodeUnit, n: nat): (s: JsString)
    ensures |s| == n && forall i :: 0 <= i < n ==> s[i] == c
  {
    seq(n, i => c)
  }

  /** What the program's parser returns. */
  function ParsedByType(signature: JsString): Result<seq<JsString>, Error> {
    Parse(SOURCE, signature)
  }

  lemma MinusThirtyTwo(field: JsString)
    requires |field| >= 4 && field[0] == 0x2D && field[1] == 0x32 && field[2] == 0x30 && field[3] == 0x7A
    ensures ParseInt16(field) == Some(-32)
  {
    var digits := field[1..];
    assert digits[0] == 0x32 && digits[1] == 0x30 && digits[2] == 0x7A;
    TwoDigits(digits);
    assert LeadingDigits(digits) == [0x32, 0x30];
    assert [0x32, 0x30][..1] == [0x32] && Value([0x32]) == 2;
  }

  lemma PlainSource(rest: JsString)
    requires |rest| >= SIGNATURE_HEX_LENGTH && rest[129] != 0x30
    ensures Next(SOURCE, rest) == Ok(SIGNATURE_HEX_LENGTH)
  {
    SourceReadsHex();
    ContractIffZeroV(SOURCE, rest);
  }

  lemma EmptyDynamicPart(rest: JsString)
    requires |rest| >= 194 && HasZeroV(rest) && ParseInt16(rest[130..][..64]) == Some(-32)
    ensures Next(SOURCE, rest) == Ok(SIGNATURE_HEX_LENGTH)
  {
    SourceReadsHex();
    ContractIffZeroV(SOURCE, rest);
  }

  lemma TwoPartsParse(read: Reader, one: JsString, two: JsString)
    requires |one| == |two| == SIGNATURE_HEX_LENGTH
    requires Next(read, one + two) == Ok(SIGNATURE_HEX_LENGTH) && Next(read, two) == Ok(SIGNATURE_HEX_LENGTH)
    ensures Parts(read, one + two) == Ok([ZERO_X + one, ZERO_X + two])
  {
    assert (one + two)[..130] == one && (one + two)[130..] == two;
    assert two[..130] == two && two[130..] == [];
    PartsStep(read, one + two, 130, one);
    PartsStep(read, two, 130, two);
    assert [ZERO_X + two] + [] == [ZERO_X + two];
    assert [ZERO_X + one] + [ZERO_X + two] == [ZERO_X + one, ZERO_X + two];
  }

  /** The hex form is needed: with a length field of -20 (minus thirty-two) the first part is accepted
      with no field at all, since the field is read from the signature that follows it. */
  lemma NegativeLengthIsAccepted()
    ensures var one := Repeat(0x30, 130);
            var two := [0x2D, 0x32, 0x30] + Repeat(0x7A, 127);
            ParsedByType(ZERO_X + (one + two)) == Ok([ZERO_X + one, ZERO_X + two]) && !IsPart(ZERO_X + one)
  {
    var one := Repeat(0x30, 130);
    var two := [0x2D, 0x32, 0x30] + Repeat(0x7A, 127);
    var rest := one + two;
    var field := rest[130..][..64];
    assert field[0] == two[0] && field[1] == two[1] && field[2] == two[2] && field[3] == two[3];
    MinusThirtyTwo(field);
    EmptyDynamicPart(rest);
    PlainSource(two);
    TwoPartsParse(SOURCE, one, two);
    ParseOfBody(SOURCE, rest);
    BodyOfPrefixed(one);
    assert HasZeroV(one);
  }

  lemma TwoDigits(s: JsString)
    requires |s| >= 3 && IsHexDigit(s[0]) && IsHexDigit(s[1]) && !IsHexDigit(s[2])
    ensures LeadingDigits(s) == [s[0], s[1]]
  {
    assert LeadingDigits(s[1..][1..]) == [];
  }

  /** The checks before parsing, on any string: the prefix first, then whole bytes, then 65 of them. */
  lemma GuardErrors(read: Reader, signature: JsString)
    ensures Parse(read, signature) == Err(NotPrefixed) ==> !IsPrefixed(signature)
    ensures !(|signature| >= 2 && signature[0] == 0x30 && signature[1] == 0x78) ==>
              Parse(read, signature) == Err(NotPrefixed)
    ensures IsPrefixed(signature) && |signature| % 2 == 1 ==> Parse(read, signature) == Err(OddLength)
    ensures IsPrefixed(signature) && |signature| % 2 == 0 && |signature| < 132 ==>
              Parse(read, signature) == Err(TooShort)
    ensures IsPrefixed(signature) && |signature| % 2 == 0 && |signature| >= 132 ==>
              Parse(read, signature) == Parts(read, signature[2..])
  {
    assert |signature| >= 132 ==> signature[2..] != [];
    if Guard(signature).None? && Parse(read, signature).Err? {
      NeverGuardError(read, signature[2..]);
    }
  }

  lemma {:induction false} NeverGuardError(read: Reader, rest: JsString)
    requires Parts(read, rest).Err?
    ensures Parts(read, rest).error in {MissingStaticPart, MissingLengthField, MissingDynamicPart}
    decreases |rest|
  {
    if Next(read, rest).Ok? {
      PartsFail(read, rest);
      NeverGuardError(read, rest[Next(read, rest).value..]);
    }
  }
}
