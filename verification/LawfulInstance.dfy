/** The laws asked of the cryptographic primitives can be met together: a (worthless but lawful)
    instance. */
module LawfulInstance {
  import opened Wrappers
  import opened JsText
  import opened Envelope

  function ToText(b: Bytes): (t: JsString)
    ensures COLON !in t && |t| == 2 * |b|
  {
    if b == [] then [] else [0x41 + b[0] / 16, 0x41 + b[0] % 16] + ToText(b[1..])
  }

  function FromText(t: JsString): Bytes {
    if |t| < 2 then []
    else
      var v: int := (t[0] as int - 0x41) * 16 + (t[1] as int - 0x41);
      [if 0 <= v < 256 then v else 0] + FromText(t[2..])
  }

  lemma {:induction false} TextReadsBack(b: Bytes)
    ensures FromText(ToText(b)) == b
  {
    if b != [] {
      TextReadsBack(b[1..]);
      assert ToText(b)[2..] == ToText(b[1..]);
    }
  }

  /** A self-delimiting copy. */
  function Delimited(b: Bytes): Bytes {
    if b == [] then [0] else [1, b[0]] + Delimited(b[1..])
  }

  function After(t: Bytes, b: Bytes): Option<Bytes> {
    var d := Delimited(b);
    if |t| >= |d| && t[..|d|] == d then Some(t[|d|..]) else None
  }

  lemma {:induction false} AfterOwn(a: Bytes, b: Bytes, m: Bytes)
    ensures After(Delimited(a) + m, a) == Some(m)
    ensures After(Delimited(a) + m, b).Some? ==> a == b
  {
    var t := Delimited(a) + m;
    if After(t, b).Some? {
      var d := Delimited(b);
      assert t[0] == t[..|d|][0] == d[0];
      if a != [] {
        assert b != [];
        assert t[1] == t[..|d|][1] == d[1];
        assert t[2..] == Delimited(a[1..]) + m;
        assert t[2..][..|d| - 2] == t[..|d|][2..] == d[2..] == Delimited(b[1..]);
        AfterOwn(a[1..], b[1..], m);
        assert a == [a[0]] + a[1..] && b == [b[0]] + b[1..];
      }
    }
  }

  const ZERO_TAG: Bytes := seq(TAG_BYTES, _ => 0)

  const INSTANCE: Primitives := Primitives(
    b => ToText(b),
    t => FromText(t),
    (c, n) => DataKey([], [0]),
    (w, c) => Some([]),
    (k, iv, aad, m) => Sealed(Delimited(aad) + m, ZERO_TAG),
    (k, iv, aad, s: Sealed) => After(s.ciphertext, aad),
    (k, v) => v)

  lemma LawsAreConsistent()
    ensures Lawful(INSTANCE)
  {
    forall b: Bytes ensures FromText(ToText(b)) == b {
      TextReadsBack(b);
    }
    forall k: Bytes, iv: Bytes, aad: Bytes, m: Bytes, k2: Bytes, iv2: Bytes, aad2: Bytes
      ensures INSTANCE.open(k, iv, aad, INSTANCE.seal(k, iv, aad, m)) == Some(m)
      ensures INSTANCE.open(k2, iv2, aad2, INSTANCE.seal(k, iv, aad, m)).Some? ==> aad2 == aad
    {
      AfterOwn(aad, aad2, m);
    }
  }
}
