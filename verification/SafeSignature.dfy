/** SafeSignature (src/domain/common/entities/safe-signature.ts): one signature, its reading as r, s, v and
    type, and the memoised recovery of its owner. Address formatting, message hashing and public-key
    recovery are a record of functions; None is a throw. */
module SafeSignatures {
  import opened Wrappers
  import opened JsText
  import opened Hex
  import opened Signatures

  const ADDRESS_LENGTH: nat := 40
  const ETH_SIGN_V_OFFSET: nat := 4

  datatype Curve = Curve(
    getAddress: JsString -> Option<JsString>,
    hashMessage: JsString -> JsString,
    recover: (JsString, nat, JsString) -> Option<JsString>)

  datatype SignatureType = ContractSignature | ApprovedHash | EthSign | Eoa
  datatype CreateError = Unparsed(error: Error) | Concatenated | NotTheWhole

  /** The units from one position up to another, as far as there are any. */
  function Slice(s: JsString, from: nat, to: nat): JsString {
    var end := if to < |s| then to else |s|;
    if from < end then s[from..end] else []
  }

  function R(signature: JsString): JsString {
    ZERO_X + Slice(signature, 2, 66)
  }

  function S(signature: JsString): JsString {
    ZERO_X + Slice(signature, 66, 130)
  }

  function V(signature: JsString): Option<int> {
    ParseInt16(Slice(signature, 130, 132))
  }

  /** A v that is not a number is neither 0, nor 1, nor above 30. */
  function TypeOf(signature: JsString): SignatureType {
    var v := V(signature);
    if v == Some(0) then ContractSignature
    else if v == Some(1) then ApprovedHash
    else if v.Some? && v.value > 30 then EthSign
    else Eoa
  }

  function ToRecoveryBit(signature: JsString): Option<nat> {
    var v := ParseInt16(if |signature| < 2 then signature else signature[|signature| - 2..]);
    if v == Some(0) || v == Some(1) then Some(v.value)
    else if v == Some(27) || v == Some(28) then Some(v.value - 27)
    else None
  }

  function RecoverAddress(curve: Curve, hash: JsString, signature: JsString): Option<JsString> {
    var bit := ToRecoveryBit(signature);
    if bit.None? then None
    else curve.recover(Slice(signature, 2, 130), bit.value, Slice(hash, 2, |hash|))
  }

  /** An eth_sign signature with its v lowered by four. */
  function Normalised(signature: JsString): JsString
    requires TypeOf(signature) == EthSign
  {
    R(signature) + Slice(signature, 66, 130) + ToHex(V(signature).value - ETH_SIGN_V_OFFSET)
  }

  function OwnerOf(curve: Curve, signature: JsString, hash: JsString): Option<JsString> {
    match TypeOf(signature)
    case EthSign => RecoverAddress(curve, curve.hashMessage(hash), Normalised(signature))
    case Eoa => RecoverAddress(curve, hash, signature)
    case _ =>
      var r := R(signature);
      curve.getAddress(ZERO_X + (if |r| < ADDRESS_LENGTH then r else r[|r| - ADDRESS_LENGTH..]))
  }

  predicate IsHexString(s: JsString) {
    IsPrefixed(s) && IsHex(Body(s))
  }

  predicate Accepted(signature: JsString) {
    ParsedByType(signature).Ok? && |ParsedByType(signature).value| == 1
  }

  /** The memo's key. */
  function Key(signature: JsString, hash: JsString): JsString {
    signature + hash
  }

  /** A single part is always the whole input, so the constructor's second check never fires. */
  lemma SinglePartIsTheWhole(signature: JsString)
    requires Accepted(signature)
    ensures ParsedByType(signature).value[0] == signature && |signature| >= HEX_PREFIX_LENGTH + SIGNATURE_HEX_LENGTH
  {
    PartsConcatenate(SOURCE, signature);
    var parts := ParsedByType(signature).value;
    FlatCons(parts[0], []);
    assert parts == [parts[0]] + [] && Flat([]) == [];
    assert parts[0] == ZERO_X + Body(parts[0]);
  }

  class SafeSignature {
    const curve: Curve
    var signature: JsString
    var hash: JsString
    var memo: map<JsString, JsString>

    /** What is remembered is right for every pair it could be looked up for, so it stays right when the
        public fields are assigned. */
    ghost predicate Valid()
      reads this
    {
      forall s, h {:trigger Key(s, h)} ::
        IsHexString(s) && IsHexString(h) && Key(s, h) in memo ==> OwnerOf(curve, s, h) == Some(memo[Key(s, h)])
    }

    constructor (curve: Curve, signature: JsString, hash: JsString)
      ensures Valid() && this.curve == curve && this.signature == signature && this.hash == hash && memo == map[]
    {
      this.curve := curve;
      this.signature := signature;
      this.hash := hash;
      this.memo := map[];
    }

    static method Create(curve: Curve, signature: JsString, hash: JsString)
      returns (r: Result<SafeSignature, CreateError>)
      ensures r.Ok? <==> Accepted(signature)
      ensures r.Ok? ==> fresh(r.value) && r.value.Valid() && r.value.curve == curve
                        && r.value.signature == signature && r.value.hash == hash
      ensures r.Err? ==> var parsed := ParsedByType(signature);
                         r.error == if parsed.Err? then Unparsed(parsed.error) else Concatenated
    {
      var signatures := ParseSignaturesByType(SOURCE, signature);
      if signatures.Err? { return Err(Unparsed(signatures.error)); }
      if |signatures.value| != 1 { return Err(Concatenated); }
      SinglePartIsTheWhole(signature);
      if signatures.value[0] != signature { return Err(NotTheWhole); }
      var created := new SafeSignature(curve, signature, hash);
      return Ok(created);
    }

    /** A failed recovery is not remembered. */
    method Owner() returns (r: Option<JsString>)
      requires Valid() && IsHexString(signature) && IsHexString(hash)
      modifies this`memo
      ensures Valid() && r == OwnerOf(curve, signature, hash)
      ensures memo == (if r.Some? then old(memo)[Key(signature, hash) := r.value] else old(memo))
    {
      var key := Key(signature, hash);
      if key in memo {
        assert memo == memo[key := memo[key]];
        return Some(memo[key]);
      }
      r := OwnerOf(curve, signature, hash);
      if r.Some? {
        forall s, h | IsHexString(s) && IsHexString(h) && Key(s, h) == key ensures s == signature && h == hash {
          KeyIsInjective(s, h, signature, hash);
        }
        memo := memo[key := r.value];
      }
    }

    method ClearSignatureMemo()
      modifies this`memo
      ensures Valid() && memo == map[]
    {
      memo := map[];
    }
  }

  /** In two 0x-prefixed hex strings run together the second x marks where the second one starts. */
  lemma KeyIsInjective(s: JsString, h: JsString, s2: JsString, h2: JsString)
    requires IsHexString(s) && IsHexString(h) && IsHexString(s2) && IsHexString(h2)
    requires Key(s, h) == Key(s2, h2)
    ensures s == s2 && h == h2
  {
    if |s| < |s2| {
      ShorterKeyDiffers(s, h, s2, h2);
    } else if |s2| < |s| {
      ShorterKeyDiffers(s2, h2, s, h);
    } else {
      assert s == Key(s, h)[..|s|] && s2 == Key(s2, h2)[..|s|];
      assert h == Key(s, h)[|s|..] && h2 == Key(s2, h2)[|s|..];
    }
  }

  lemma ShorterKeyDiffers(s: JsString, h: JsString, s2: JsString, h2: JsString)
    requires IsHexString(s) && IsHexString(h) && IsHexString(s2) && IsHexString(h2)
    requires |s| < |s2|
    ensures Key(s, h) != Key(s2, h2)
  {
    var k, k2 := Key(s, h), Key(s2, h2);
    assert k[|s| + 1] == 0x78;
    if |s| + 1 < |s2| {
      assert k2[|s| + 1] == Body(s2)[|s| - 1];
    } else {
      assert k2[|s| + 1] == 0x30;
    }
  }

  /** Hex matters: without it two different pairs can share a memo entry. */
  lemma KeysCollideOutsideHex()
    ensures Key(ZERO_X + [0x30], [0x78] + [0x31]) == Key(ZERO_X, [0x30, 0x78, 0x31])
  {
  }

  /** The class reads the very bytes the parser delimited: r, s and v, in this order, are the 65 bytes of
      the static part, and the curve library is handed exactly r and s. */
  lemma StaticPartIsRSV(signature: JsString)
    requires Accepted(signature)
    ensures var rs := Slice(signature, 2, 130);
            && rs == R(signature)[2..] + S(signature)[2..] && |R(signature)| == 66 && |S(signature)| == 66
            && StaticPart(signature, 2) == rs + Slice(signature, 130, 132) && |Slice(signature, 130, 132)| == 2
  {
    SinglePartIsTheWhole(signature);
    assert signature[2..130] == signature[2..66] + signature[66..130];
    assert signature[2..132] == signature[2..130] + signature[130..132];
  }

  lemma TwoDigitValue(s: JsString)
    requires IsHex(s) && |s| == 2
    ensures Value(s) == 16 * DigitValue(s[0]) + DigitValue(s[1]) && ParseInt16(s) == Some(Value(s))
  {
    ParseIntOfHex(s);
    assert Value(s[..1]) == DigitValue(s[0]);
  }

  lemma AcceptedBody(signature: JsString)
    requires Accepted(signature) && IsHexString(signature)
    ensures |signature| >= 132 && IsSignature(Body(signature))
  {
    SinglePartIsTheWhole(signature);
    var body := Body(signature);
    PartOfBody(signature);
    SourceReadsHex();
    ParseIff(SOURCE, body, ParsedByType(signature).value);
    assert IsPart(ParsedByType(signature).value[0]);
  }

  lemma VOfBody(signature: JsString)
    requires IsPrefixed(signature) && |signature| >= 132 && IsHex(Body(signature))
    ensures V(signature).Some?
    ensures V(signature).value == 16 * DigitValue(Body(signature)[128]) + DigitValue(Body(signature)[129])
    ensures V(signature) == Some(0) <==> HasZeroV(Body(signature))
  {
    var body, v := Body(signature), Slice(signature, 130, 132);
    assert v[0] == body[128] && v[1] == body[129];
    TwoDigitValue(v);
  }

  lemma VOfAccepted(signature: JsString)
    requires Accepted(signature) && IsHexString(signature)
    ensures |signature| >= 132 && IsSignature(Body(signature))
    ensures V(signature).Some?
    ensures V(signature).value == 16 * DigitValue(Body(signature)[128]) + DigitValue(Body(signature)[129])
    ensures V(signature) == Some(0) <==> HasZeroV(Body(signature))
  {
    AcceptedBody(signature);
    VOfBody(signature);
  }

  /** Parser and class agree on what a contract signature is: a dynamic tail is there exactly when the type
      is ContractSignature, and it is then the length field and as many bytes as that says. */
  lemma TailIffContract(signature: JsString)
    requires Accepted(signature) && IsHexString(signature)
    ensures |signature| > 132 <==> TypeOf(signature) == ContractSignature
    ensures |signature| > 132 ==> |signature| >= 196 && |signature[132..]| == 64 + 2 * Value(Body(signature)[130..194])
  {
    VOfAccepted(signature);
  }

  lemma TwoDigitsOf(n: nat)
    requires 16 <= n < 256
    ensures |ToHex(n)| == 2 && ParseInt16(ToHex(n)) == Some(n)
  {
    assert |ToHex(n / 16)| == 1;
    ParseIntOfHex(ToHex(n));
  }

  lemma SlicesOfJoined(rs: JsString, v: JsString)
    requires |rs| == 128 && |v| == 2
    ensures Slice(ZERO_X + rs + v, 2, 130) == rs && Slice(ZERO_X + rs + v, 130, 132) == v
    ensures (ZERO_X + rs + v)[130..] == v
  {
  }

  lemma NormalisedParts(signature: JsString)
    requires |signature| >= 132 && TypeOf(signature) == EthSign
    ensures Normalised(signature) == ZERO_X + Slice(signature, 2, 130) + ToHex(V(signature).value - 4)
  {
    assert signature[2..130] == signature[2..66] + signature[66..130];
    assert ZERO_X + signature[2..66] + signature[66..130] == ZERO_X + (signature[2..66] + signature[66..130]);
  }

  /** eth_sign rewriting gives 65 bytes for every v above 30, keeps r and s, and lowers v by four. */
  lemma NormalisedIs65Bytes(signature: JsString)
    requires Accepted(signature) && IsHexString(signature) && TypeOf(signature) == EthSign
    ensures 31 <= V(signature).value <= 255
    ensures |Normalised(signature)| == HEX_PREFIX_LENGTH + SIGNATURE_HEX_LENGTH
    ensures Slice(Normalised(signature), 2, 130) == Slice(signature, 2, 130)
    ensures V(Normalised(signature)) == Some(V(signature).value - 4)
    ensures Normalised(signature)[130..] == Slice(Normalised(signature), 130, 132)
  {
    VOfAccepted(signature);
    NormalisedParts(signature);
    TwoDigitsOf(V(signature).value - 4);
    SlicesOfJoined(Slice(signature, 2, 130), ToHex(V(signature).value - 4));
  }

  lemma EthSignOwner(curve: Curve, signature: JsString, hash: JsString, v: int)
    requires Accepted(signature) && IsHexString(signature) && V(signature) == Some(v) && v > 30
    ensures var message := curve.hashMessage(hash);
            OwnerOf(curve, signature, hash) ==
              if v == 31 || v == 32 then curve.recover(Slice(signature, 2, 130), v - 31, Slice(message, 2, |message|))
              else None
  {
    NormalisedIs65Bytes(signature);
    RecoveryOf(curve, curve.hashMessage(hash), Normalised(signature), v - 4);
  }

  /** A recovery succeeds only with a last byte of 0, 1, 27 or 28. */
  lemma RecoveryOf(curve: Curve, hash: JsString, signature: JsString, v: int)
    requires |signature| == 132 && ParseInt16(signature[130..]) == Some(v)
    ensures RecoverAddress(curve, hash, signature) ==
            if v == 0 || v == 1 then curve.recover(Slice(signature, 2, 130), v, Slice(hash, 2, |hash|))
            else if v == 27 || v == 28 then curve.recover(Slice(signature, 2, 130), v - 27, Slice(hash, 2, |hash|))
            else None
  {
  }

  lemma EoaOwner(curve: Curve, signature: JsString, hash: JsString, v: int)
    requires Accepted(signature) && IsHexString(signature) && V(signature) == Some(v) && 2 <= v <= 30
    ensures OwnerOf(curve, signature, hash) ==
              if v == 27 || v == 28 then curve.recover(Slice(signature, 2, 130), v - 27, Slice(hash, 2, |hash|))
              else None
  {
    VOfAccepted(signature);
    TailIffContract(signature);
    assert signature[130..] == Slice(signature, 130, 132);
    RecoveryOf(curve, hash, signature, v);
  }

  lemma AddressOwner(curve: Curve, signature: JsString, hash: JsString)
    requires Accepted(signature) && IsHexString(signature)
    requires TypeOf(signature) == ContractSignature || TypeOf(signature) == ApprovedHash
    ensures OwnerOf(curve, signature, hash) == curve.getAddress(ZERO_X + Slice(signature, 26, 66))
  {
    SinglePartIsTheWhole(signature);
    assert R(signature)[26..] == Slice(signature, 26, 66);
  }

  /** Who the owner is, for every v: a direct address for 0 and 1, a recovery over r and s for 27, 28
      (the hash itself) and 31, 32 (its signed-message hash), and an error for all others. The raw
      recovery bits 0 and 1 that toRecoveryBit also takes are never reached. */
  lemma OwnerByV(curve: Curve, signature: JsString, hash: JsString)
    requires Accepted(signature) && IsHexString(signature)
    ensures V(signature).Some? && V(signature).value >= 0
    ensures var v := V(signature).value;
            var rs := Slice(signature, 2, 130);
            var message := curve.hashMessage(hash);
            OwnerOf(curve, signature, hash) ==
              if v <= 1 then curve.getAddress(ZERO_X + Slice(signature, 26, 66))
              else if v == 27 || v == 28 then curve.recover(rs, v - 27, Slice(hash, 2, |hash|))
              else if v == 31 || v == 32 then curve.recover(rs, v - 31, Slice(message, 2, |message|))
              else None
  {
    VOfAccepted(signature);
    var v := V(signature).value;
    if v > 30 {
      EthSignOwner(curve, signature, hash, v);
    } else if v >= 2 {
      EoaOwner(curve, signature, hash, v);
    } else {
      AddressOwner(curve, signature, hash);
    }
  }

  /** And again hex is needed: with v written 0z the class sees a contract signature and the parser does
      not. */
  lemma TypesDisagreeOutsideHex()
    ensures var s := ZERO_X + Repeat(0x30, 129) + [0x7A];
            Accepted(s) && |s| == 132 && TypeOf(s) == ContractSignature
  {
    var body := Repeat(0x30, 129) + [0x7A];
    assert ZERO_X + body == ZERO_X + Repeat(0x30, 129) + [0x7A];
    assert body[129] == 0x7A && body[130..] == [];
    assert Next(SOURCE, body) == Ok(130);
    ParseOfBody(SOURCE, body);
    assert Parts(SOURCE, body) == Ok([ZERO_X + body[..130]] + []);
    var v := Slice(ZERO_X + body, 130, 132);
    assert v == [0x30, 0x7A];
    assert LeadingDigits(v[1..]) == [];
    assert LeadingDigits(v) == [0x30];
    assert Value([0x30]) == 0;
  }
}
