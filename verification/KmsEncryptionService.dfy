/** The encryption service object (src/datasources/kms/kms-encryption.service.ts): an index key set once
    at start-up, and data keys that are wiped whatever happens. */
module KmsEncryptionService {
  import opened Wrappers
  import opened JsText
  import opened CanonicalContext
  import Envelope
  import Utf8

  predicate Wiped(key: seq<Byte>) {
    forall i :: 0 <= i < |key| ==> key[i] == 0
  }

  datatype InitError = KmsRefused | WrongKeyLength(length: nat)

  class KmsEncryptionService {
    const primitives: Envelope.Primitives
    const normalise: JsString -> JsString
    const enabled: bool
    /** Already base64-decoded; absent when not configured. */
    const wrappedIndexKey: Option<Bytes>
    var indexKey: Option<Bytes>

    constructor (primitives: Envelope.Primitives, normalise: JsString -> JsString, enabled: bool,
                 wrappedIndexKey: Option<Bytes>)
      ensures this.primitives == primitives && this.normalise == normalise && this.enabled == enabled
      ensures this.wrappedIndexKey == wrappedIndexKey && indexKey == None
    {
      this.primitives, this.normalise, this.enabled := primitives, normalise, enabled;
      this.wrappedIndexKey := wrappedIndexKey;
      indexKey := None;
    }

    /** Start-up succeeds with a key of exactly 32 bytes, or with none when none is configured. */
    method OnModuleInit() returns (r: Result<(), InitError>)
      modifies this`indexKey
      ensures wrappedIndexKey.None? ==> r.Ok? && indexKey == old(indexKey)
      ensures wrappedIndexKey.Some? ==>
                var key := primitives.unwrap(wrappedIndexKey.value, map[]);
                && (r.Ok? <==> key.Some? && |key.value| == 32)
                && indexKey == if r.Ok? then key else old(indexKey)
    {
      if wrappedIndexKey.None? {
        return Ok(());
      }
      var plaintext := primitives.unwrap(wrappedIndexKey.value, map[]);
      if plaintext.None? {
        return Err(KmsRefused);
      }
      if |plaintext.value| != Envelope.INDEX_KEY_LENGTH {
        return Err(WrongKeyLength(|plaintext.value|));
      }
      indexKey := plaintext;
      return Ok(());
    }

    static method Wipe(key: array<Byte>)
      modifies key
      ensures Wiped(key[..])
    {
      for i := 0 to key.Length
        invariant forall j :: 0 <= j < i ==> key[j] == 0
      {
        key[i] := 0;
      }
    }

    /** `dataKey` is the plaintext buffer KMS returned. */
    method Encrypt(value: JsString, ctx: Envelope.Context, nonce: nat, iv: Bytes, dataKey: array<Byte>)
      returns (r: Result<JsString, Envelope.Error>)
      requires dataKey[..] == primitives.generateDataKey(AsMap(ctx), nonce).plaintext
      modifies dataKey
      ensures r == Envelope.Encrypt(primitives, enabled, value, ctx, nonce, iv)
      ensures enabled ==> Wiped(dataKey[..])
    {
      if !enabled {
        return Ok(value);
      }
      var wrapped := primitives.generateDataKey(AsMap(ctx), nonce).wrapped;
      var sealed := primitives.seal(dataKey[..], iv, Canonical(ctx), Utf8.Encode(value));
      if |wrapped| > 65535 {
        r := Err(Envelope.KeyTooLong);
      } else {
        var blob := Envelope.WriteFrame(Envelope.Frame(wrapped, iv, sealed));
        r := Ok(Envelope.StoredText(primitives.toBase64Url(blob)));
      }
      Wipe(dataKey);
    }

    /** `used` is the buffer the data key was unwrapped into, if decryption got that far. */
    method Decrypt(value: JsString, ctx: Envelope.Context)
      returns (r: Result<JsString, Envelope.Error>, used: array?<Byte>)
      ensures r == Envelope.Decrypt(primitives, enabled, value, ctx)
      ensures used != null ==> Wiped(used[..])
    {
      used := null;
      if value == [] {
        return Ok(value), null;
      }
      if !Envelope.IsEncrypted(value) {
        return if enabled then Err(Envelope.PlaintextValue) else Ok(value), null;
      }
      var parts := Split(value, Envelope.COLON);
      if |parts| != 3 || parts[1] != Envelope.VERSION || parts[2] == [] {
        return Err(Envelope.Malformed), null;
      }
      var frame := Envelope.ReadFrame(primitives.fromBase64Url(parts[2]));
      if frame.None? {
        return Err(Envelope.Malformed), null;
      }
      var unwrapped := primitives.unwrap(frame.value.wrapped, AsMap(ctx));
      if unwrapped.None? {
        return Err(Envelope.KmsRefused), null;
      }
      used := new Byte[|unwrapped.value|](i requires 0 <= i < |unwrapped.value| => unwrapped.value[i]);
      assert used[..] == unwrapped.value;
      var cleartext := primitives.open(used[..], frame.value.iv, Canonical(ctx), frame.value.sealed);
      r := if cleartext.None? then Err(Envelope.NotAuthentic) else Ok(Utf8.Decode(cleartext.value));
      Wipe(used);
    }

    method BlindIndex(value: JsString) returns (index: Option<JsString>)
      ensures index == Envelope.BlindIndex(primitives, indexKey, normalise, value)
      ensures index.None? <==> indexKey.None?
      ensures index.Some? ==> index.value == primitives.keyedHash(indexKey.value, normalise(value))
    {
      index := Envelope.BlindIndex(primitives, indexKey, normalise, value);
    }
  }
}
