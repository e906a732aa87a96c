/** Envelope encryption of a field (src/datasources/kms/kms-encryption.service.ts): the byte frame, the
    stored text, and the enabled/disabled gate. The cryptography is a record of functions with the
    laws the code relies on. */
module Envelope {
  import opened Wrappers
  import opened JsText
  import opened CanonicalContext
  import Utf8

  type Context = seq<Entry>
  type Map = map<JsString, JsString>

  datatype DataKey = DataKey(plaintext: Bytes, wrapped: Bytes)
  datatype Sealed = Sealed(ciphertext: Bytes, tag: Bytes)

  /** base64url (RFC 4648), KMS GenerateDataKey (the number stands for its randomness) and Decrypt,
      AES-256-GCM (NIST SP 800-38D), and the keyed hash of a normalised value. */
  datatype Primitives = Primitives(
    toBase64Url: Bytes -> JsString,
    fromBase64Url: JsString -> Bytes,
    generateDataKey: (Map, nat) -> DataKey,
    unwrap: (Bytes, Map) -> Option<Bytes>,
    seal: (Bytes, Bytes, Bytes, Bytes) -> Sealed,
    open: (Bytes, Bytes, Bytes, Sealed) -> Option<Bytes>,
    keyedHash: (Bytes, JsString) -> JsString)

  const COLON: CodeUnit := 0x3A
  /** kms */
  const PREFIX: JsString := [0x6B, 0x6D, 0x73]
  /** v1 */
  const VERSION: JsString := [0x76, 0x31]
  const KEY_LENGTH_BYTES: nat := 2
  const IV_BYTES: nat := 12
  const TAG_BYTES: nat := 16
  const INDEX_KEY_LENGTH: nat := 32

  predicate HasColon(s: JsString) {
    COLON in s
  }

  ghost predicate LawfulText(p: Primitives) {
    forall b: Bytes :: p.fromBase64Url(p.toBase64Url(b)) == b && !HasColon(p.toBase64Url(b))
                       && (b != [] ==> p.toBase64Url(b) != [])
  }

  ghost predicate LawfulKms(p: Primitives) {
    forall c: Map, n: nat :: p.unwrap(p.generateDataKey(c, n).wrapped, c) == Some(p.generateDataKey(c, n).plaintext)
  }

  /** What was sealed opens with the same key, nonce and associated data, and with no others. */
  ghost predicate LawfulGcm(p: Primitives) {
    && (forall k: Bytes, iv: Bytes, aad: Bytes, m: Bytes ::
          |p.seal(k, iv, aad, m).tag| == TAG_BYTES && p.open(k, iv, aad, p.seal(k, iv, aad, m)) == Some(m))
    && (forall k: Bytes, iv: Bytes, aad: Bytes, m: Bytes, k2: Bytes, iv2: Bytes, aad2: Bytes ::
          p.open(k2, iv2, aad2, p.seal(k, iv, aad, m)).Some? ==> aad2 == aad)
  }

  ghost predicate Lawful(p: Primitives) {
    LawfulText(p) && LawfulKms(p) && LawfulGcm(p)
  }

  datatype Error = KeyTooLong | PlaintextValue | Malformed | KmsRefused | NotAuthentic

  /** A stored blob: u16BE length of the wrapped key, wrapped key, IV, ciphertext, tag. */
  datatype Frame = Frame(wrapped: Bytes, iv: Bytes, sealed: Sealed)

  predicate ValidFrame(f: Frame) {
    1 <= |f.wrapped| <= 65535 && |f.iv| == IV_BYTES && |f.sealed.tag| == TAG_BYTES
  }

  function WriteUInt16BE(n: nat): Bytes
    requires n <= 65535
  {
    [n / 256, n % 256]
  }

  function ReadUInt16BE(b: Bytes): nat
    requires |b| >= 2
  {
    b[0] as int * 256 + b[1] as int
  }

  function WriteFrame(f: Frame): Bytes
    requires |f.wrapped| <= 65535
  {
    WriteUInt16BE(|f.wrapped|) + f.wrapped + f.iv + f.sealed.ciphertext + f.sealed.tag
  }

  function ReadFrame(blob: Bytes): Option<Frame> {
    if |blob| < KEY_LENGTH_BYTES then None
    else
      var keyEnd := KEY_LENGTH_BYTES + ReadUInt16BE(blob);
      var ivEnd := keyEnd + IV_BYTES;
      var tagStart := |blob| - TAG_BYTES;
      if keyEnd == KEY_LENGTH_BYTES || ivEnd > tagStart then None
      else Some(Frame(blob[KEY_LENGTH_BYTES..keyEnd], blob[keyEnd..ivEnd],
                      Sealed(blob[ivEnd..tagStart], blob[tagStart..])))
  }

  /** The reader undoes the writer. */
  lemma ReadWrittenFrame(f: Frame)
    requires ValidFrame(f)
    ensures ReadFrame(WriteFrame(f)) == Some(f)
  {
    var b := WriteFrame(f);
    var k, v, c := |f.wrapped|, IV_BYTES, |f.sealed.ciphertext|;
    assert b[0] == k / 256 && b[1] == k % 256;
    assert b[2..2 + k] == f.wrapped;
    assert b[2 + k..2 + k + v] == f.iv;
    assert b[2 + k + v..2 + k + v + c] == f.sealed.ciphertext;
    assert b[2 + k + v + c..] == f.sealed.tag;
  }

  /** The writer undoes the reader. */
  lemma WriteReadFrame(blob: Bytes)
    requires ReadFrame(blob).Some?
    ensures ValidFrame(ReadFrame(blob).value) && WriteFrame(ReadFrame(blob).value) == blob
  {
    var f := ReadFrame(blob).value;
    var n := ReadUInt16BE(blob);
    assert n == |f.wrapped| && n / 256 == blob[0] && n % 256 == blob[1];
    assert blob == blob[..2] + f.wrapped + f.iv + f.sealed.ciphertext + f.sealed.tag;
    assert blob[..2] == WriteUInt16BE(n);
  }

  /** The reader accepts exactly the byte strings that are two bytes of length, that many bytes of wrapped
      key (at least one), 12 of IV, any ciphertext and 16 of tag, and reads them as these parts. */
  lemma FrameLayoutIff(blob: Bytes, f: Frame)
    ensures ReadFrame(blob) == Some(f) <==>
              && 1 <= |f.wrapped| <= 65535 && |f.iv| == 12 && |f.sealed.tag| == 16
              && blob == [|f.wrapped| / 256, |f.wrapped| % 256] + f.wrapped + f.iv + f.sealed.ciphertext + f.sealed.tag
  {
    if ReadFrame(blob) == Some(f) {
      WriteReadFrame(blob);
    }
    if 1 <= |f.wrapped| <= 65535 && |f.iv| == 12 && |f.sealed.tag| == 16 && blob == WriteFrame(f) {
      ReadWrittenFrame(f);
    }
  }

  /** The reader accepts exactly the frames with a non-empty wrapped key, a 12-byte IV and a 16-byte
      tag. */
  lemma FrameAcceptedIff(blob: Bytes)
    ensures ReadFrame(blob).Some? <==> exists f :: ValidFrame(f) && WriteFrame(f) == blob
  {
    if ReadFrame(blob).Some? {
      WriteReadFrame(blob);
    }
    if exists f :: ValidFrame(f) && WriteFrame(f) == blob {
      var f :| ValidFrame(f) && WriteFrame(f) == blob;
      ReadWrittenFrame(f);
    }
  }

  function StoredText(payload: JsString): JsString {
    PREFIX + [COLON] + (VERSION + [COLON] + payload)
  }

  lemma StoredTextSplits(payload: JsString)
    requires !HasColon(payload)
    ensures Split(StoredText(payload), COLON) == [PREFIX, VERSION, payload]
  {
    SplitPart(PREFIX, COLON, VERSION + [COLON] + payload);
    SplitPart(VERSION, COLON, payload);
    SplitPart(payload, COLON, []);
  }

  predicate StartsWith(s: JsString, prefix: JsString) {
    |s| >= |prefix| && s[..|prefix|] == prefix
  }

  predicate IsEncrypted(value: JsString) {
    StartsWith(value, PREFIX + [COLON])
  }

  function SealedFrame(p: Primitives, value: JsString, ctx: Context, nonce: nat, iv: Bytes): Frame {
    var key := p.generateDataKey(AsMap(ctx), nonce);
    Frame(key.wrapped, iv, p.seal(key.plaintext, iv, Canonical(ctx), Utf8.Encode(value)))
  }

  /** `nonce` and `iv` stand for the randomness of the data key and of the IV. */
  function Encrypt(p: Primitives, enabled: bool, value: JsString, ctx: Context, nonce: nat, iv: Bytes)
    : Result<JsString, Error>
  {
    if !enabled then Ok(value)
    else
      var f := SealedFrame(p, value, ctx, nonce, iv);
      if |f.wrapped| > 65535 then Err(KeyTooLong)
      else Ok(StoredText(p.toBase64Url(WriteFrame(f))))
  }

  function Decrypt(p: Primitives, enabled: bool, value: JsString, ctx: Context): Result<JsString, Error> {
    if value == [] then Ok(value)
    else if !IsEncrypted(value) then (if enabled then Err(PlaintextValue) else Ok(value))
    else
      var parts := Split(value, COLON);
      if |parts| != 3 || parts[1] != VERSION || parts[2] == [] then Err(Malformed)
      else OpenBlob(p, p.fromBase64Url(parts[2]), ctx)
  }

  function OpenBlob(p: Primitives, blob: Bytes, ctx: Context): Result<JsString, Error> {
    var f := ReadFrame(blob);
    if f.None? then Err(Malformed)
    else
      var key := p.unwrap(f.value.wrapped, AsMap(ctx));
      if key.None? then Err(KmsRefused)
      else
        var m := p.open(key.value, f.value.iv, Canonical(ctx), f.value.sealed);
        if m.None? then Err(NotAuthentic) else Ok(Utf8.Decode(m.value))
  }

  /** Trimming and lower-casing are part of `normalise`; no key means no index. */
  function BlindIndex(p: Primitives, indexKey: Option<Bytes>, normalise: JsString -> JsString, value: JsString)
    : Option<JsString>
  {
    if indexKey.None? then None else Some(p.keyedHash(indexKey.value, normalise(value)))
  }

  lemma EmptyKeyIsMalformed(f: Frame)
    requires f.wrapped == []
    ensures WriteFrame(f) != [] && ReadFrame(WriteFrame(f)).None?
  {
    var blob := WriteFrame(f);
    assert blob[0] == 0 && blob[1] == 0;
  }

  lemma StoredReadsBack(p: Primitives, blob: Bytes, enabled: bool, ctx: Context)
    requires LawfulText(p)
    ensures var s := StoredText(p.toBase64Url(blob));
            && IsEncrypted(s) && Split(s, COLON) == [PREFIX, VERSION, p.toBase64Url(blob)]
            && (blob != [] ==> Decrypt(p, enabled, s, ctx) == OpenBlob(p, blob, ctx))
  {
    StoredTextSplits(p.toBase64Url(blob));
    assert StoredText(p.toBase64Url(blob))[..4] == PREFIX + [COLON];
  }

  /** A value written with encryption on is read back, by a reader with the flag on or off, exactly when
      no surrogate in it stands alone and the wrapped key takes 1 to 65535 bytes; and the stored text
      always has three colon-separated parts. */
  lemma RoundTripIff(p: Primitives, readerEnabled: bool, value: JsString, ctx: Context, nonce: nat, iv: Bytes)
    requires Lawful(p) && |iv| == IV_BYTES
    ensures var stored := Encrypt(p, true, value, ctx, nonce, iv);
            var key := p.generateDataKey(AsMap(ctx), nonce).wrapped;
            && (stored.Ok? && Decrypt(p, readerEnabled, stored.value, ctx) == Ok(value) <==>
                  WellFormed(value) && 1 <= |key| <= 65535)
            && (stored.Ok? ==> |Split(stored.value, COLON)| == 3 && IsEncrypted(stored.value))
  {
    var f := SealedFrame(p, value, ctx, nonce, iv);
    if |f.wrapped| <= 65535 {
      var blob := WriteFrame(f);
      StoredReadsBack(p, blob, readerEnabled, ctx);
      if f.wrapped == [] {
        EmptyKeyIsMalformed(f);
      } else {
        ReadWrittenFrame(f);
        Utf8.RoundTripIff(value);
      }
    }
  }

  /** What a stored text is made of: the wrapped key as KMS gave it, the IV drawn for it, and the bytes of
      the value sealed under the key that was not stored, with the context's bytes as associated data. */
  lemma StoredParts(p: Primitives, value: JsString, ctx: Context, nonce: nat, iv: Bytes)
    requires Lawful(p) && |iv| == 12 && Encrypt(p, true, value, ctx, nonce, iv).Ok?
    requires p.generateDataKey(AsMap(ctx), nonce).wrapped != []
    ensures var parts := Split(Encrypt(p, true, value, ctx, nonce, iv).value, 0x3A);
            var key := p.generateDataKey(AsMap(ctx), nonce);
            && |parts| == 3 && parts[0] == [0x6B, 0x6D, 0x73] && parts[1] == [0x76, 0x31]
            && ReadFrame(p.fromBase64Url(parts[2])) ==
               Some(Frame(key.wrapped, iv, p.seal(key.plaintext, iv, Canonical(ctx), Utf8.Encode(value))))
  {
    var f := SealedFrame(p, value, ctx, nonce, iv);
    StoredReadsBack(p, WriteFrame(f), true, ctx);
    ReadWrittenFrame(f);
  }

  /** So a fresh IV gives a fresh stored text, even for the same value, owner and data key. */
  lemma FreshIvFreshText(p: Primitives, value: JsString, ctx: Context, nonce: nat, iv: Bytes, iv2: Bytes)
    requires Lawful(p) && |iv| == 12 && |iv2| == 12 && iv != iv2
    requires Encrypt(p, true, value, ctx, nonce, iv).Ok? && p.generateDataKey(AsMap(ctx), nonce).wrapped != []
    ensures Encrypt(p, true, value, ctx, nonce, iv) != Encrypt(p, true, value, ctx, nonce, iv2)
  {
    StoredParts(p, value, ctx, nonce, iv);
    StoredParts(p, value, ctx, nonce, iv2);
  }

  lemma OtherDataDoesNotOpen(p: Primitives, blob: Bytes, f: Frame, k: Bytes, aad: Bytes, m: Bytes, other: Context)
    requires LawfulGcm(p) && ReadFrame(blob) == Some(f)
    requires f.sealed == p.seal(k, f.iv, aad, m) && aad != Canonical(other)
    ensures OpenBlob(p, blob, other).Err?
  {
    var key := p.unwrap(f.wrapped, AsMap(other));
    if key.Some? {
      assert p.open(key.value, f.iv, Canonical(other), p.seal(k, f.iv, aad, m)).None?;
    }
  }

  lemma FrameOpensUnderItsData(p: Primitives, f: Frame, k: Bytes, aad: Bytes, m: Bytes, other: Context)
    requires LawfulGcm(p) && |f.iv| == IV_BYTES && |f.wrapped| <= 65535
    requires f.sealed == p.seal(k, f.iv, aad, m) && aad != Canonical(other)
    ensures OpenBlob(p, WriteFrame(f), other).Err?
  {
    if f.wrapped == [] {
      EmptyKeyIsMalformed(f);
    } else {
      assert p.open(k, f.iv, aad, f.sealed) == Some(m);
      ReadWrittenFrame(f);
      OtherDataDoesNotOpen(p, WriteFrame(f), f, k, aad, m, other);
    }
  }

  /** A stored value cannot be moved to another owner: under any context that differs as a map, its
      decryption fails. */
  lemma BoundToContext(p: Primitives, enabled: bool, value: JsString, ctx: Context, other: Context,
                       nonce: nat, iv: Bytes)
    requires Lawful(p) && |iv| == IV_BYTES && DistinctKeys(ctx) && DistinctKeys(other)
    requires AsMap(ctx) != AsMap(other)
    requires Encrypt(p, true, value, ctx, nonce, iv).Ok?
    ensures Decrypt(p, enabled, Encrypt(p, true, value, ctx, nonce, iv).value, other).Err?
  {
    var f := SealedFrame(p, value, ctx, nonce, iv);
    CanonicalIff(ctx, other);
    var key := p.generateDataKey(AsMap(ctx), nonce).plaintext;
    FrameOpensUnderItsData(p, f, key, Canonical(ctx), Utf8.Encode(value), other);
    StoredReadsBack(p, WriteFrame(f), enabled, other);
  }

  /** The other half of the gate: with encryption off a value is written as it is, and while it does not
      look encrypted a reader with the flag off gets it back; a reader with the flag on refuses it
      unless it is blank. */
  lemma PlaintextGate(p: Primitives, value: JsString, ctx: Context, nonce: nat, iv: Bytes)
    requires !IsEncrypted(value)
    ensures var stored := Encrypt(p, false, value, ctx, nonce, iv);
            && stored.Ok? && Decrypt(p, false, stored.value, ctx) == Ok(value)
            && (Decrypt(p, true, stored.value, ctx).Ok? <==> value == [])
  {
  }

  lemma SameBytesSameOpening(p: Primitives, blob: Bytes, ctx: Context, other: Context)
    requires AsMap(ctx) == AsMap(other) && Canonical(ctx) == Canonical(other)
    ensures OpenBlob(p, blob, ctx) == OpenBlob(p, blob, other)
  {
  }

  /** The context counts as a map: in whatever order its entries stand, a value decrypts the same. */
  lemma ContextIsAMap(p: Primitives, enabled: bool, value: JsString, ctx: Context, other: Context)
    requires DistinctKeys(ctx) && DistinctKeys(other) && AsMap(ctx) == AsMap(other)
    ensures Decrypt(p, enabled, value, ctx) == Decrypt(p, enabled, value, other)
  {
    CanonicalIff(ctx, other);
    var parts := Split(value, COLON);
    if |parts| == 3 {
      SameBytesSameOpening(p, p.fromBase64Url(parts[2]), ctx, other);
    }
  }

  /** Hashing under the key never gives two texts the same index. */
  ghost predicate Separates(p: Primitives, key: Bytes) {
    forall a: JsString, b: JsString :: p.keyedHash(key, a) == p.keyedHash(key, b) ==> a == b
  }

  /** What the index is for: under a key that separates texts, two values have the same index exactly when
      they are the same once normalised. */
  lemma IndexMatchesIff(p: Primitives, key: Bytes, normalise: JsString -> JsString, a: JsString, b: JsString)
    requires Separates(p, key)
    ensures BlindIndex(p, Some(key), normalise, a) == BlindIndex(p, Some(key), normalise, b) <==>
              normalise(a) == normalise(b)
  {
  }

  /** And it needs the key: under keys whose hashes never meet, no two values share an index. */
  lemma IndexNeedsTheKey(p: Primitives, key: Bytes, other: Bytes, normalise: JsString -> JsString,
                         a: JsString, b: JsString)
    requires forall x: JsString, y: JsString :: p.keyedHash(key, x) != p.keyedHash(other, y)
    ensures BlindIndex(p, Some(key), normalise, a) != BlindIndex(p, Some(other), normalise, b)
  {
  }
}
