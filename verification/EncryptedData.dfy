/** encryptData and decryptData (src/domain/common/utils/encryption.ts). The text comment there says
    iv:authTag:encryptedData; the code concatenates the three without separators. */
module EncryptedData {
  import opened Wrappers
  import opened JsText
  import Utf8
  import Envelope

  /** Standard base64, scrypt, and the AES-256-GCM of Envelope. */
  datatype Primitives = Primitives(
    toBase64: Bytes -> JsString,
    fromBase64: JsString -> Bytes,
    derive: (JsString, Bytes) -> Bytes,
    gcm: Envelope.Primitives)

  ghost predicate Lawful(p: Primitives) {
    && Envelope.LawfulGcm(p.gcm)
    && (forall b: Bytes :: p.fromBase64(p.toBase64(b)) == b && (b != [] ==> p.toBase64(b) != []))
  }

  const IV_BYTES: nat := 16

  datatype Error = MissingArguments | Failed

  /** Buffer.subarray clamps its bounds. */
  function Subarray(b: Bytes, lo: nat, hi: nat): Bytes {
    var end := if hi < |b| then hi else |b|;
    if lo <= end then b[lo..end] else []
  }

  /** `json` is the data as JSON text. */
  function EncryptData(p: Primitives, json: JsString, key: JsString, salt: JsString, iv: Bytes)
    : Result<JsString, Error>
  {
    if key == [] || salt == [] then Err(MissingArguments)
    else
      var sealed := p.gcm.seal(p.derive(key, Utf8.Encode(salt)), iv, [], Utf8.Encode(json));
      Ok(p.toBase64(iv + sealed.tag + sealed.ciphertext))
  }

  function DecryptData(p: Primitives, stored: JsString, key: JsString, salt: JsString): Result<JsString, Error> {
    if key == [] || stored == [] || salt == [] then Err(MissingArguments)
    else
      var buffer := p.fromBase64(stored);
      var m := p.gcm.open(p.derive(key, Utf8.Encode(salt)), Subarray(buffer, 0, 16), [],
                          Envelope.Sealed(Subarray(buffer, 32, |buffer|), Subarray(buffer, 16, 32)));
      if m.None? then Err(Failed) else Ok(Utf8.Decode(m.value))
  }

  /** Well-formed text, as JSON.stringify produces, comes back under the same key and salt. */
  lemma RoundTrip(p: Primitives, json: JsString, key: JsString, salt: JsString, iv: Bytes)
    requires Lawful(p) && |iv| == IV_BYTES && key != [] && salt != []
    ensures var stored := EncryptData(p, json, key, salt, iv);
            var sealed := p.gcm.seal(p.derive(key, Utf8.Encode(salt)), iv, [], Utf8.Encode(json));
            && stored.Ok? && p.fromBase64(stored.value) == iv + sealed.tag + sealed.ciphertext
            && (DecryptData(p, stored.value, key, salt) == Ok(json) <==> WellFormed(json))
  {
    var sealed := p.gcm.seal(p.derive(key, Utf8.Encode(salt)), iv, [], Utf8.Encode(json));
    var buffer := iv + sealed.tag + sealed.ciphertext;
    assert Subarray(buffer, 0, 16) == iv;
    assert Subarray(buffer, 16, 32) == sealed.tag;
    assert Subarray(buffer, 32, |buffer|) == sealed.ciphertext;
    Utf8.RoundTripIff(json);
  }
}
