/** When it is safe to turn encryption on: what --verify certifies about a backfilled table
    (countTablePlaintext and main in scripts/backfill-field-encryption.ts) and what every read then
    returns. */
module Release {
  import opened Wrappers
  import opened JsText
  import opened CanonicalContext
  import opened Backfill
  import Envelope

  predicate CellRemains(indexed: bool, cell: Cell) {
    cell.text.Some? &&
    (!Envelope.StartsWith(cell.text.value, ENCRYPTED_PREFIX) || (indexed && cell.index.None?))
  }

  predicate RowRemains(spec: Spec, row: Row) {
    exists c :: 0 <= c < |row.cells| && c < |spec.indexed| && CellRemains(spec.indexed[c], row.cells[c])
  }

  /** The count that --verify requires to be zero. */
  function CountPlaintext(spec: Spec, rows: seq<Row>): nat {
    if rows == [] then 0
    else (if RowRemains(spec, rows[0]) then 1 else 0) + CountPlaintext(spec, rows[1..])
  }

  lemma {:induction false} CountZeroIff(spec: Spec, rows: seq<Row>)
    ensures CountPlaintext(spec, rows) == 0 <==> forall i :: 0 <= i < |rows| ==> !RowRemains(spec, rows[i])
  {
    if rows != [] {
      CountZeroIff(spec, rows[1..]);
      assert forall i :: 0 < i < |rows| ==> rows[i] == rows[1..][i - 1];
    }
  }

  /** A cell the backfill can make pass: NULL, or not blank and with an index to be had. */
  predicate CanPass(spec: Spec, indexed: bool, was: Cell) {
    was.text.None? ||
    (was.text.value != [] &&
     (indexed ==> if NeedsEncryption(was.text) then spec.indexKey.Some? else was.index.Some?))
  }

  lemma CellPassesIff(spec: Spec, ctx: Envelope.Context, indexed: bool, was: Cell, now: Cell)
    requires CellBackfilled(spec, ctx, indexed, was, now)
    ensures !CellRemains(indexed, now) <==> CanPass(spec, indexed, was)
  {
    if NeedsEncryption(was.text) {
      CipherNeedsNothing(spec, ctx, was.text.value, now.text.value);
    }
  }

  /** After a backfill --verify passes exactly when no cell was blank, every cell that had to be encrypted
      in an indexed column found an index key, and every ciphertext there already had its index. */
  lemma VerifyPassesIff(spec: Spec, was: seq<Row>, now: seq<Row>)
    requires TableBackfilled(spec, was, now)
    ensures CountPlaintext(spec, now) == 0 <==>
              forall i, c {:trigger was[i].cells[c]} :: 0 <= i < |was| && 0 <= c < |was[i].cells| ==>
                CanPass(spec, spec.indexed[c], was[i].cells[c])
  {
    CountZeroIff(spec, now);
    forall i, c | 0 <= i < |was| && 0 <= c < |was[i].cells|
      ensures !CellRemains(spec.indexed[c], now[i].cells[c]) <==> CanPass(spec, spec.indexed[c], was[i].cells[c])
    {
      assert RowBackfilled(spec, was[i], now[i]);
      CellPassesIff(spec, ContextOf(spec, was[i]), spec.indexed[c], was[i].cells[c], now[i].cells[c]);
    }
    if CountPlaintext(spec, now) == 0 {
      forall i, c | 0 <= i < |was| && 0 <= c < |was[i].cells|
        ensures CanPass(spec, spec.indexed[c], was[i].cells[c])
      {
        assert RowBackfilled(spec, was[i], now[i]) && !RowRemains(spec, now[i]);
        assert !CellRemains(spec.indexed[c], now[i].cells[c]);
      }
    } else {
      var i :| 0 <= i < |now| && RowRemains(spec, now[i]);
      assert RowBackfilled(spec, was[i], now[i]);
      var c :| 0 <= c < |now[i].cells| && c < |spec.indexed| && CellRemains(spec.indexed[c], now[i].cells[c]);
      assert !CanPass(spec, spec.indexed[c], was[i].cells[c]);
    }
  }

  /** Why main refuses to start without an index key: one cell encrypted without its index makes --verify
      fail for good, since no later run, with whatever key, touches the row again. */
  lemma MissingIndexIsForGood(spec: Spec, later: Spec, was: seq<Row>, now: seq<Row>, again: seq<Row>, i: nat, c: nat)
    requires spec.indexKey.None? && later.indexed == spec.indexed
    requires TableBackfilled(spec, was, now) && TableBackfilled(later, now, again)
    requires i < |was| && c < |was[i].cells| && |was[i].cells| == |spec.indexed|
    requires spec.indexed[c] && NeedsEncryption(was[i].cells[c].text)
    ensures again == now && CountPlaintext(later, again) > 0
  {
    forall k | 0 <= k < |now| ensures again[k] == now[k] {
      BackfilledNeedsNothing(spec, was[k], now[k]);
      BackfilledNeedsNothing(later, now[k], again[k]);
    }
    assert RowBackfilled(spec, was[i], now[i]);
    assert CellBackfilled(spec, ContextOf(spec, was[i]), true, was[i].cells[c], now[i].cells[c]);
    assert CellRemains(true, again[i].cells[c]);
    assert RowRemains(later, again[i]);
    CountZeroIff(later, again);
  }

  /** The context the application reads a row under: its owner's, as a map with one entry. */
  ghost predicate IsOwnerContext(spec: Spec, row: Row, ctx: Envelope.Context) {
    DistinctKeys(ctx) && AsMap(ctx) == map[spec.scopeKey := spec.scopeText(row.scope)]
  }

  lemma BackfillUsesOwnerContext(spec: Spec, row: Row, ctx: Envelope.Context)
    requires IsOwnerContext(spec, row, ctx)
    ensures IsOwnerContext(spec, row, ContextOf(spec, row))
    ensures forall enabled, value ::
              Envelope.Decrypt(spec.primitives, enabled, value, ctx) ==
              Envelope.Decrypt(spec.primitives, enabled, value, ContextOf(spec, row))
  {
    var own := ContextOf(spec, row);
    assert own[..0] == [];
    assert AsMap(own) == map[spec.scopeKey := spec.scopeText(row.scope)];
    forall enabled, value
      ensures Envelope.Decrypt(spec.primitives, enabled, value, ctx) ==
              Envelope.Decrypt(spec.primitives, enabled, value, own)
    {
      Envelope.ContextIsAMap(spec.primitives, enabled, value, ctx, own);
    }
  }

  /** Text the database holds is valid UTF-8, and what carries the ciphertext prefix was written by
      encrypt under its own row's owner. */
  ghost predicate HonestCell(spec: Spec, row: Row, cell: Cell) {
    cell.text.Some? ==>
      && WellFormed(cell.text.value)
      && (Envelope.StartsWith(cell.text.value, ENCRYPTED_PREFIX) ==>
            exists plain, ctx ::
              WellFormed(plain) && IsOwnerContext(spec, row, ctx) && IsCipherOf(spec, ctx, plain, cell.text.value))
  }

  ghost predicate HonestTable(spec: Spec, rows: seq<Row>) {
    forall i, c {:trigger rows[i].cells[c]} :: 0 <= i < |rows| && 0 <= c < |rows[i].cells| ==>
      HonestCell(spec, rows[i], rows[i].cells[c])
  }

  lemma CipherReads(spec: Spec, ctx: Envelope.Context, plain: JsString, stored: JsString, enabled: bool)
    requires Envelope.Lawful(spec.primitives) && KeysFit(spec.primitives)
    requires WellFormed(plain) && IsCipherOf(spec, ctx, plain, stored)
    ensures Envelope.Decrypt(spec.primitives, enabled, stored, ctx) == Ok(plain)
  {
    var nonce: nat, iv: Bytes :| |iv| == Envelope.IV_BYTES &&
      Envelope.Encrypt(spec.primitives, true, plain, ctx, nonce, iv) == Ok(stored);
    Envelope.RoundTripIff(spec.primitives, enabled, plain, ctx, nonce, iv);
  }

  lemma {:induction false} SplitFirst(s: JsString, sep: CodeUnit)
    ensures var parts := Split(s, sep);
            |parts| >= 2 ==> Envelope.StartsWith(s, parts[0] + [sep])
  {
    if s != [] && s[0] != sep {
      SplitFirst(s[1..], sep);
      var rest := Split(s[1..], sep);
      if |rest| >= 2 {
        var first := [s[0]] + rest[0];
        assert s[..|first| + 1] == [s[0]] + s[1..][..|rest[0]| + 1];
      }
    }
  }

  lemma VersionFollowsPrefix(value: JsString)
    requires Envelope.IsEncrypted(value)
    requires |Split(value, Envelope.COLON)| == 3 && Split(value, Envelope.COLON)[1] == Envelope.VERSION
    ensures Envelope.StartsWith(value, ENCRYPTED_PREFIX)
  {
    var rest := value[4..];
    assert value == Envelope.PREFIX + [Envelope.COLON] + rest;
    SplitPart(Envelope.PREFIX, Envelope.COLON, rest);
    SplitFirst(rest, Envelope.COLON);
    assert rest[..3] == Envelope.VERSION + [Envelope.COLON];
    assert value[..7] == ENCRYPTED_PREFIX;
  }

  /** A value that starts with kms: but not with kms:v1: is refused by every reader. */
  lemma OtherPrefixIsMalformed(spec: Spec, ctx: Envelope.Context, value: JsString, enabled: bool)
    requires Envelope.IsEncrypted(value) && !Envelope.StartsWith(value, ENCRYPTED_PREFIX)
    ensures Envelope.Decrypt(spec.primitives, enabled, value, ctx) == Err(Envelope.Malformed)
  {
    var parts := Split(value, Envelope.COLON);
    if |parts| == 3 && parts[1] == Envelope.VERSION {
      VersionFollowsPrefix(value);
      assert false;
    }
  }

  /** A ciphertext written under one context of the owner reads under every context of the owner. */
  lemma OwnerReads(spec: Spec, row: Row, written: Envelope.Context, ctx: Envelope.Context, plain: JsString,
                   stored: JsString, enabled: bool)
    requires Envelope.Lawful(spec.primitives) && KeysFit(spec.primitives)
    requires IsOwnerContext(spec, row, written) && IsOwnerContext(spec, row, ctx)
    requires WellFormed(plain) && IsCipherOf(spec, written, plain, stored)
    ensures Envelope.Decrypt(spec.primitives, enabled, stored, ctx) == Ok(plain)
  {
    CipherReads(spec, written, plain, stored, enabled);
    Envelope.ContextIsAMap(spec.primitives, enabled, stored, ctx, written);
  }

  /** The release theorem. Writes are frozen, the table was backfilled and --verify counts zero. Then with
      the flag on every value reads without error under its owner's context; and it reads as it did with
      the flag off before the backfill, except exactly for values that started with kms: without being
      ciphertext, which no reader could read before. A reader with the flag off (a rollback) returns the
      same. */
  lemma ReleaseIsSafe(spec: Spec, was: seq<Row>, now: seq<Row>, i: nat, c: nat, ctx: Envelope.Context)
    requires Envelope.Lawful(spec.primitives) && KeysFit(spec.primitives)
    requires TableBackfilled(spec, was, now) && HonestTable(spec, was)
    requires CountPlaintext(spec, now) == 0
    requires i < |was| && c < |was[i].cells| && |now| == |was| && |now[i].cells| == |was[i].cells|
    requires was[i].cells[c].text.Some? && now[i].cells[c].text.Some?
    requires IsOwnerContext(spec, was[i], ctx)
    ensures var before := was[i].cells[c].text.value;
            var read := Envelope.Decrypt(spec.primitives, true, now[i].cells[c].text.value, ctx);
            && read.Ok?
            && read == Envelope.Decrypt(spec.primitives, false, now[i].cells[c].text.value, ctx)
            && (read == Envelope.Decrypt(spec.primitives, false, before, ctx) <==>
                  Envelope.StartsWith(before, ENCRYPTED_PREFIX) || !Envelope.IsEncrypted(before))
            && (NeedsEncryption(Some(before)) ==> read == Ok(before))
  {
    var before, after := was[i].cells[c].text.value, now[i].cells[c].text.value;
    var own := ContextOf(spec, was[i]);
    assert RowBackfilled(spec, was[i], now[i]);
    assert CellBackfilled(spec, own, spec.indexed[c], was[i].cells[c], now[i].cells[c]);
    assert HonestCell(spec, was[i], was[i].cells[c]);
    CountZeroIff(spec, now);
    assert !RowRemains(spec, now[i]);
    assert !CellRemains(spec.indexed[c], now[i].cells[c]);
    if NeedsEncryption(Some(before)) {
      BackfillUsesOwnerContext(spec, was[i], ctx);
      OwnerReads(spec, was[i], own, ctx, before, after, true);
      OwnerReads(spec, was[i], own, ctx, before, after, false);
      if Envelope.IsEncrypted(before) {
        OtherPrefixIsMalformed(spec, ctx, before, false);
      }
    } else {
      assert Envelope.StartsWith(before, ENCRYPTED_PREFIX);
      var plain, written :|
        WellFormed(plain) && IsOwnerContext(spec, was[i], written) && IsCipherOf(spec, written, plain, before);
      OwnerReads(spec, was[i], written, ctx, plain, after, true);
      OwnerReads(spec, was[i], written, ctx, plain, after, false);
    }
  }

  /** And nobody else's: what the backfill encrypted fails to read under the context of any owner whose
      scope is written differently. */
  lemma OtherOwnerCannotRead(spec: Spec, was: seq<Row>, now: seq<Row>, i: nat, c: nat, other: Row,
                             ctx: Envelope.Context, enabled: bool)
    requires Envelope.Lawful(spec.primitives) && KeysFit(spec.primitives) && TableBackfilled(spec, was, now)
    requires i < |was| && c < |was[i].cells| && |now| == |was| && |now[i].cells| == |was[i].cells|
    requires NeedsEncryption(was[i].cells[c].text) && now[i].cells[c].text.Some?
    requires IsOwnerContext(spec, other, ctx) && spec.scopeText(other.scope) != spec.scopeText(was[i].scope)
    ensures Envelope.Decrypt(spec.primitives, enabled, now[i].cells[c].text.value, ctx).Err?
  {
    var own := ContextOf(spec, was[i]);
    assert RowBackfilled(spec, was[i], now[i]);
    assert CellBackfilled(spec, own, spec.indexed[c], was[i].cells[c], now[i].cells[c]);
    assert own[..0] == [] && AsMap(own) == map[spec.scopeKey := spec.scopeText(was[i].scope)];
    assert AsMap(ctx)[spec.scopeKey] != AsMap(own)[spec.scopeKey];
    var nonce: nat, iv: Bytes :| |iv| == Envelope.IV_BYTES &&
      Envelope.Encrypt(spec.primitives, true, was[i].cells[c].text.value, own, nonce, iv) ==
      Ok(now[i].cells[c].text.value);
    Envelope.BoundToContext(spec.primitives, enabled, was[i].cells[c].text.value, own, ctx, nonce, iv);
  }

  /** Lookups keep working: two cells the backfill encrypted in indexed columns have the same blind index
      exactly when their old texts are the same once normalised. */
  lemma IndexFindsIff(spec: Spec, key: Bytes, was: seq<Row>, now: seq<Row>, i: nat, c: nat, j: nat, d: nat)
    requires spec.indexKey == Some(key) && Envelope.Separates(spec.primitives, key) && TableBackfilled(spec, was, now)
    requires i < |was| && c < |was[i].cells| && |now| == |was| && |now[i].cells| == |was[i].cells| == |spec.indexed|
    requires j < |was| && d < |was[j].cells| && |now[j].cells| == |was[j].cells| == |spec.indexed|
    requires spec.indexed[c] && spec.indexed[d]
    requires NeedsEncryption(was[i].cells[c].text) && NeedsEncryption(was[j].cells[d].text)
    ensures now[i].cells[c].index ==
            Some(spec.primitives.keyedHash(key, spec.normalise(was[i].cells[c].text.value)))
    ensures now[i].cells[c].index == now[j].cells[d].index <==>
              spec.normalise(was[i].cells[c].text.value) == spec.normalise(was[j].cells[d].text.value)
  {
    assert RowBackfilled(spec, was[i], now[i]) && RowBackfilled(spec, was[j], now[j]);
    assert CellBackfilled(spec, ContextOf(spec, was[i]), spec.indexed[c], was[i].cells[c], now[i].cells[c]);
    assert CellBackfilled(spec, ContextOf(spec, was[j]), spec.indexed[d], was[j].cells[d], now[j].cells[d]);
    Envelope.IndexMatchesIff(spec.primitives, key, spec.normalise,
                             was[i].cells[c].text.value, was[j].cells[d].text.value);
  }

  /** After a backfill every cell that had to be encrypted reads, under its owner's context and whatever
      the flag, as the text it held. */
  lemma BackfilledCellReads(spec: Spec, was: seq<Row>, now: seq<Row>, i: nat, c: nat, ctx: Envelope.Context,
                            enabled: bool)
    requires Envelope.Lawful(spec.primitives) && KeysFit(spec.primitives) && TableBackfilled(spec, was, now)
    requires i < |was| && c < |was[i].cells| && |now| == |was| && |now[i].cells| == |was[i].cells|
    requires NeedsEncryption(was[i].cells[c].text) && WellFormed(was[i].cells[c].text.value)
    requires IsOwnerContext(spec, was[i], ctx)
    ensures now[i].cells[c].text.Some?
    ensures Envelope.Decrypt(spec.primitives, enabled, now[i].cells[c].text.value, ctx) ==
            Ok(was[i].cells[c].text.value)
  {
    assert RowBackfilled(spec, was[i], now[i]);
    assert CellBackfilled(spec, ContextOf(spec, was[i]), spec.indexed[c], was[i].cells[c], now[i].cells[c]);
    BackfillUsesOwnerContext(spec, was[i], ctx);
    OwnerReads(spec, was[i], ContextOf(spec, was[i]), ctx,
               was[i].cells[c].text.value, now[i].cells[c].text.value, enabled);
  }
}
