/** The encryption backfill of one table (scripts/backfill-field-encryption.ts). A table is a sequence
    of rows, updated in place; nobody else writes to it meanwhile. */
module Backfill {
  import opened Wrappers
  import opened JsText
  import opened CanonicalContext
  import Envelope
  import WorkerPool

  const BATCH_SIZE: nat := 500
  const ENCRYPT_CONCURRENCY: nat := 20
  /** kms:v1: */
  const ENCRYPTED_PREFIX: JsString := [0x6B, 0x6D, 0x73, 0x3A, 0x76, 0x31, 0x3A]

  /** One encrypted column of a row: its text, and its blind index if the column has one. A text the
      database holds is well-formed. */
  datatype Cell = Cell(text: Option<JsString>, index: Option<JsString>)

  datatype Row = Row(id: int, scope: int, cells: seq<Cell>)

  /** The table's columns (true for an indexed one) and owner key, and the encryption service the script
      runs with. `scopeText` is String(scope_id). */
  datatype Spec = Spec(
    indexed: seq<bool>,
    scopeKey: JsString,
    scopeText: int -> JsString,
    primitives: Envelope.Primitives,
    normalise: JsString -> JsString,
    indexKey: Option<Bytes>)

  function ContextOf(spec: Spec, row: Row): Envelope.Context {
    [Entry(spec.scopeKey, spec.scopeText(row.scope))]
  }

  predicate NeedsEncryption(text: Option<JsString>) {
    text.Some? && text.value != [] && !Envelope.StartsWith(text.value, ENCRYPTED_PREFIX)
  }

  predicate RowNeeds(row: Row) {
    exists c :: 0 <= c < |row.cells| && NeedsEncryption(row.cells[c].text)
  }

  function CountNeeding(rows: seq<Row>): nat {
    if rows == [] then 0
    else (if RowNeeds(rows[0]) then 1 else 0) + CountNeeding(rows[1..])
  }

  predicate Shaped(spec: Spec, rows: seq<Row>) {
    && (forall i :: 0 <= i < |rows| ==> |rows[i].cells| == |spec.indexed|)
    && (forall i, j :: 0 <= i < j < |rows| ==> rows[i].id != rows[j].id)
  }

  /** KMS wraps a 32-byte key in far fewer than 65536 bytes. */
  ghost predicate KeysFit(p: Envelope.Primitives) {
    forall m: Envelope.Map, n: nat :: 1 <= |p.generateDataKey(m, n).wrapped| <= 65535
  }

  /** `stored` is an encryption of `text` under the context, for some data key and IV. */
  ghost predicate IsCipherOf(spec: Spec, ctx: Envelope.Context, text: JsString, stored: JsString) {
    exists nonce: nat, iv: Bytes :: |iv| == Envelope.IV_BYTES &&
      Envelope.Encrypt(spec.primitives, true, text, ctx, nonce, iv) == Ok(stored)
  }

  function IndexOf(spec: Spec, text: JsString): Option<JsString> {
    Envelope.BlindIndex(spec.primitives, spec.indexKey, spec.normalise, text)
  }

  /** What the backfill makes of one cell: nothing, or a ciphertext of its text together with the blind
      index of that text. */
  ghost predicate CellBackfilled(spec: Spec, ctx: Envelope.Context, indexed: bool, was: Cell, now: Cell) {
    if !NeedsEncryption(was.text) then now == was
    else
      && now.text.Some? && IsCipherOf(spec, ctx, was.text.value, now.text.value)
      && now.index == if indexed then IndexOf(spec, was.text.value) else was.index
  }

  ghost predicate RowBackfilled(spec: Spec, was: Row, now: Row) {
    && now.id == was.id && now.scope == was.scope
    && |now.cells| == |was.cells| == |spec.indexed|
    && (forall c :: 0 <= c < |was.cells| ==>
          CellBackfilled(spec, ContextOf(spec, was), spec.indexed[c], was.cells[c], now.cells[c]))
  }

  ghost predicate TableBackfilled(spec: Spec, was: seq<Row>, now: seq<Row>) {
    |now| == |was| && forall i :: 0 <= i < |was| ==> RowBackfilled(spec, was[i], now[i])
  }

  lemma StoredHasPrefix(payload: JsString)
    ensures Envelope.StartsWith(Envelope.StoredText(payload), ENCRYPTED_PREFIX)
  {
    assert Envelope.StoredText(payload)[..7] == ENCRYPTED_PREFIX;
  }

  lemma CipherNeedsNothing(spec: Spec, ctx: Envelope.Context, text: JsString, stored: JsString)
    requires IsCipherOf(spec, ctx, text, stored)
    ensures Envelope.StartsWith(stored, ENCRYPTED_PREFIX) && !NeedsEncryption(Some(stored))
  {
    var nonce: nat, iv: Bytes :| |iv| == Envelope.IV_BYTES &&
      Envelope.Encrypt(spec.primitives, true, text, ctx, nonce, iv) == Ok(stored);
    var f := Envelope.SealedFrame(spec.primitives, text, ctx, nonce, iv);
    StoredHasPrefix(spec.primitives.toBase64Url(Envelope.WriteFrame(f)));
  }

  lemma BackfilledNeedsNothing(spec: Spec, was: Row, now: Row)
    requires RowBackfilled(spec, was, now)
    ensures !RowNeeds(now)
    ensures !RowNeeds(was) ==> now == was
  {
    forall c | 0 <= c < |now.cells| ensures !NeedsEncryption(now.cells[c].text) {
      assert CellBackfilled(spec, ContextOf(spec, was), spec.indexed[c], was.cells[c], now.cells[c]);
      if NeedsEncryption(was.cells[c].text) {
        CipherNeedsNothing(spec, ContextOf(spec, was), was.cells[c].text.value, now.cells[c].text.value);
      }
    }
    if !RowNeeds(was) {
      assert now.cells == was.cells;
    }
  }

  lemma {:induction false} CountZeroIff(rows: seq<Row>)
    ensures CountNeeding(rows) == 0 <==> forall i :: 0 <= i < |rows| ==> !RowNeeds(rows[i])
  {
    if rows != [] {
      CountZeroIff(rows[1..]);
      assert forall i :: 0 < i < |rows| ==> rows[i] == rows[1..][i - 1];
    }
  }

  lemma {:induction false} CountUpdate(rows: seq<Row>, i: nat, r: Row)
    requires i < |rows| && RowNeeds(rows[i]) && !RowNeeds(r)
    ensures CountNeeding(rows[i := r]) == CountNeeding(rows) - 1
  {
    if i == 0 {
      assert rows[i := r][1..] == rows[1..];
    } else {
      CountUpdate(rows[1..], i - 1, r);
      assert rows[i := r][1..] == rows[1..][i - 1 := r];
    }
  }

  /** An UPDATE of one row: columns and the values assigned to them, in order. */
  datatype Assignment = SetText(column: nat, text: JsString) | SetIndex(column: nat, index: Option<JsString>)

  datatype Update = Update(id: int, assignments: seq<Assignment>)

  function Assign(row: Row, a: Assignment): Row {
    if a.column >= |row.cells| then row
    else match a
      case SetText(c, text) => row.(cells := row.cells[c := row.cells[c].(text := Some(text))])
      case SetIndex(c, index) => row.(cells := row.cells[c := row.cells[c].(index := index)])
  }

  function Apply(row: Row, assignments: seq<Assignment>): Row {
    if assignments == [] then row
    else Assign(Apply(row, assignments[..|assignments| - 1]), assignments[|assignments| - 1])
  }

  lemma ApplyOne(row: Row, assignments: seq<Assignment>, a: Assignment)
    ensures Apply(row, assignments + [a]) == Assign(Apply(row, assignments), a)
  {
    assert (assignments + [a])[..|assignments|] == assignments;
  }

  /** An update the worker may return for a row. */
  ghost predicate UpdateOf(spec: Spec, row: Row, u: Update) {
    u.id == row.id && RowBackfilled(spec, row, Apply(row, u.assignments))
  }

  /** Columns below k are done, the others untouched. */
  ghost predicate DoneUpTo(spec: Spec, row: Row, now: Row, k: nat) {
    && now.id == row.id && now.scope == row.scope
    && |now.cells| == |row.cells| == |spec.indexed| && k <= |row.cells|
    && (forall c :: 0 <= c < k ==>
          CellBackfilled(spec, ContextOf(spec, row), spec.indexed[c], row.cells[c], now.cells[c]))
    && (forall c :: k <= c < |row.cells| ==> now.cells[c] == row.cells[c])
  }

  /** A data key and IV drawn at random, and the value encrypted with them. */
  method EncryptValue(spec: Spec, ctx: Envelope.Context, text: JsString) returns (stored: JsString)
    requires KeysFit(spec.primitives)
    ensures IsCipherOf(spec, ctx, text, stored)
  {
    var nonce: nat :| true;
    var iv: Bytes := *;
    if |iv| != Envelope.IV_BYTES {
      iv := seq(Envelope.IV_BYTES, _ => 0);
    }
    KeyFits(spec, ctx, text, nonce, iv);
    stored := Envelope.Encrypt(spec.primitives, true, text, ctx, nonce, iv).value;
  }

  lemma KeyFits(spec: Spec, ctx: Envelope.Context, text: JsString, nonce: nat, iv: Bytes)
    requires KeysFit(spec.primitives)
    ensures Envelope.Encrypt(spec.primitives, true, text, ctx, nonce, iv).Ok?
  {
    var f := Envelope.SealedFrame(spec.primitives, text, ctx, nonce, iv);
    assert f.wrapped == spec.primitives.generateDataKey(AsMap(ctx), nonce).wrapped;
  }

  lemma SkippedColumn(spec: Spec, row: Row, now: Row, c: nat)
    requires DoneUpTo(spec, row, now, c) && c < |row.cells| && !NeedsEncryption(row.cells[c].text)
    ensures DoneUpTo(spec, row, now, c + 1)
  {
  }

  lemma WrittenColumn(spec: Spec, row: Row, now: Row, c: nat, encrypted: JsString)
    requires DoneUpTo(spec, row, now, c) && c < |row.cells| && NeedsEncryption(row.cells[c].text)
    requires IsCipherOf(spec, ContextOf(spec, row), row.cells[c].text.value, encrypted)
    ensures var written := Assign(now, SetText(c, encrypted));
            var indexed := Assign(written, SetIndex(c, IndexOf(spec, row.cells[c].text.value)));
            DoneUpTo(spec, row, if spec.indexed[c] then indexed else written, c + 1)
  {
  }

  method EncryptRow(spec: Spec, row: Row) returns (u: Update)
    requires KeysFit(spec.primitives) && |row.cells| == |spec.indexed|
    ensures UpdateOf(spec, row, u)
  {
    var ctx := ContextOf(spec, row);
    var assignments: seq<Assignment> := [];
    for c := 0 to |spec.indexed|
      invariant DoneUpTo(spec, row, Apply(row, assignments), c)
    {
      var text := row.cells[c].text;
      ghost var before := Apply(row, assignments);
      if text.Some? && text.value != [] && !Envelope.StartsWith(text.value, ENCRYPTED_PREFIX) {
        var encrypted := EncryptValue(spec, ctx, text.value);
        WrittenColumn(spec, row, before, c, encrypted);
        ApplyOne(row, assignments, SetText(c, encrypted));
        assignments := assignments + [SetText(c, encrypted)];
        if spec.indexed[c] {
          var index := IndexOf(spec, text.value);
          ApplyOne(row, assignments, SetIndex(c, index));
          assignments := assignments + [SetIndex(c, index)];
        }
      } else {
        SkippedColumn(spec, row, before, c);
      }
    }
    u := Update(row.id, assignments);
  }

  ghost function Allowed(spec: Spec): (Row, Update) -> bool {
    (row: Row, u: Update) => UpdateOf(spec, row, u)
  }

  /** No worker's call has been rejected. */
  predicate NoneRejected(workers: seq<WorkerPool.Worker>) {
    forall w :: 0 <= w < |workers| ==> !workers[w].Rejected?
  }

  /** One step of one worker that has not returned. */
  method WorkerStep(spec: Spec, rows: seq<Row>, pool: WorkerPool.PoolState<Update>, w: nat)
    requires KeysFit(spec.primitives) && forall i :: 0 <= i < |rows| ==> |rows[i].cells| == |spec.indexed|
    requires pool.n == |rows| && WorkerPool.Inv(rows, Allowed(spec), pool.View()) && NoneRejected(pool.workers)
    requires w < |pool.workers| && !pool.workers[w].Returned?
    modifies pool
    ensures WorkerPool.Inv(rows, Allowed(spec), pool.View()) && NoneRejected(pool.workers)
    ensures |pool.workers| == |old(pool.workers)|
    ensures WorkerPool.Remaining(|rows|, pool.View()) < old(WorkerPool.Remaining(|rows|, pool.View()))
  {
    ghost var before := pool.View();
    if pool.workers[w].AtHead? {
      pool.ClaimNext(w);
      WorkerPool.StepKeepsInv(rows, Allowed(spec), before, WorkerPool.Claims(w));
      WorkerPool.StepConsumesOne(rows, Allowed(spec), before, WorkerPool.Claims(w));
    } else {
      var u := EncryptRow(spec, rows[pool.workers[w].index]);
      pool.Store(w, u);
      WorkerPool.StepKeepsInv(rows, Allowed(spec), before, WorkerPool.Completes(w, u));
      WorkerPool.StepConsumesOne(rows, Allowed(spec), before, WorkerPool.Completes(w, u));
    }
  }

  /** The batch goes through the worker pool; which worker acts next is left open. */
  method EncryptBatch(spec: Spec, rows: seq<Row>) returns (updates: seq<Update>)
    requires KeysFit(spec.primitives) && forall i :: 0 <= i < |rows| ==> |rows[i].cells| == |spec.indexed|
    ensures |updates| == |rows| && forall i :: 0 <= i < |rows| ==> UpdateOf(spec, rows[i], updates[i])
  {
    var pool := new WorkerPool.PoolState<Update>(|rows|, ENCRYPT_CONCURRENCY);
    WorkerPool.HeadWeight(|pool.workers|);
    while exists w :: 0 <= w < |pool.workers| && !pool.workers[w].Returned?
      invariant pool.n == |rows| && WorkerPool.Inv(rows, Allowed(spec), pool.View())
      invariant |pool.workers| == WorkerPool.WorkerCount(ENCRYPT_CONCURRENCY, |rows|)
      invariant NoneRejected(pool.workers) && fresh(pool)
      decreases WorkerPool.Remaining(|rows|, pool.View())
    {
      var w :| 0 <= w < |pool.workers| && !pool.workers[w].Returned?;
      WorkerStep(spec, rows, pool, w);
    }
    if |rows| > 0 {
      assert pool.workers[0].Returned?;
    }
    assert forall i :: 0 <= i < |rows| ==> i in pool.View().owner && i in pool.results;
    updates := seq(|rows|, i requires 0 <= i < |rows| && i in pool.results reads pool => pool.results[i]);
  }

  /** The row i of the table is as it was, or was processed. */
  ghost predicate Processed(spec: Spec, was: seq<Row>, now: seq<Row>) {
    && |now| == |was|
    && forall i :: 0 <= i < |was| ==>
         now[i] == was[i] || (RowNeeds(was[i]) && RowBackfilled(spec, was[i], now[i]))
  }

  class Table {
    var rows: seq<Row>

    /** SELECT ... WHERE any column needs encryption LIMIT n, in no particular order. */
    method SelectNeeding(limit: nat) returns (batch: seq<Row>)
      requires forall i, j :: 0 <= i < j < |rows| ==> rows[i].id != rows[j].id
      ensures |batch| <= limit
      ensures forall k :: 0 <= k < |batch| ==> batch[k] in rows && RowNeeds(batch[k])
      ensures forall j, k :: 0 <= j < k < |batch| ==> batch[j].id != batch[k].id
      ensures |batch| < limit ==> forall r :: r in rows && RowNeeds(r) ==> r in batch
    {
      batch := [];
      while |batch| < limit && exists i :: 0 <= i < |rows| && RowNeeds(rows[i]) && rows[i] !in batch
        invariant |batch| <= limit
        invariant forall k :: 0 <= k < |batch| ==> batch[k] in rows && RowNeeds(batch[k])
        invariant forall j, k :: 0 <= j < k < |batch| ==> batch[j].id != batch[k].id
      {
        var i :| 0 <= i < |rows| && RowNeeds(rows[i]) && rows[i] !in batch;
        forall k | 0 <= k < |batch| ensures batch[k].id != rows[i].id {
          assert batch[k] in rows && batch[k] in batch;
        }
        batch := batch + [rows[i]];
      }
    }

    /** UPDATE ... WHERE id = u.id; an update without assignments is skipped. */
    method RunUpdate(u: Update)
      modifies this
      ensures |rows| == |old(rows)|
      ensures forall i :: 0 <= i < |rows| ==>
                rows[i] == if old(rows)[i].id == u.id then Apply(old(rows)[i], u.assignments) else old(rows)[i]
    {
      if u.assignments != [] {
        rows := seq(|rows|, i requires 0 <= i < |rows| reads this =>
          if rows[i].id == u.id then Apply(rows[i], u.assignments) else rows[i]);
      }
    }

    /** The batch's transaction: every update is applied to the row it was computed from. */
    method WriteBatch(spec: Spec, batch: seq<Row>, updates: seq<Update>)
      requires Shaped(spec, rows) && |batch| == |updates|
      requires forall k :: 0 <= k < |batch| ==>
                 batch[k] in rows && RowNeeds(batch[k]) && UpdateOf(spec, batch[k], updates[k])
      requires forall j, k :: 0 <= j < k < |batch| ==> batch[j].id != batch[k].id
      modifies this
      ensures Shaped(spec, rows) && Processed(spec, old(rows), rows)
      ensures CountNeeding(rows) == CountNeeding(old(rows)) - |batch|
    {
      ghost var was := rows;
      for k := 0 to |batch|
        invariant Shaped(spec, rows) && Processed(spec, was, rows)
        invariant CountNeeding(rows) == CountNeeding(was) - k
        invariant forall j :: k <= j < |batch| ==> batch[j] in rows
      {
        ghost var before := rows;
        ghost var at :| 0 <= at < |before| && before[at] == batch[k];
        RunUpdate(updates[k]);
        assert rows == before[at := Apply(batch[k], updates[k].assignments)];
        WrittenRow(spec, was, before, batch, updates[k], k, at);
      }
    }

    static lemma WrittenRow(spec: Spec, was: seq<Row>, before: seq<Row>, batch: seq<Row>, u: Update, k: nat, at: nat)
      requires Shaped(spec, before) && Processed(spec, was, before)
      requires k < |batch| && at < |before| && before[at] == batch[k]
      requires RowNeeds(batch[k]) && UpdateOf(spec, batch[k], u)
      requires forall j :: k <= j < |batch| ==> batch[j] in before
      requires forall j, l :: 0 <= j < l < |batch| ==> batch[j].id != batch[l].id
      ensures var rows := before[at := Apply(batch[k], u.assignments)];
              && Shaped(spec, rows) && Processed(spec, was, rows)
              && CountNeeding(rows) == CountNeeding(before) - 1
              && (forall j :: k < j < |batch| ==> batch[j] in rows)
    {
      var r := Apply(batch[k], u.assignments);
      var rows := before[at := r];
      BackfilledNeedsNothing(spec, batch[k], r);
      CountUpdate(before, at, r);
      OnlyOldNeeds(spec, was, before, at);
      forall j | k < j < |batch| ensures batch[j] in rows {
        assert batch[j].id != batch[k].id;
        StillThere(before, at, r, batch[j]);
      }
    }

    static lemma OnlyOldNeeds(spec: Spec, was: seq<Row>, before: seq<Row>, at: nat)
      requires Processed(spec, was, before) && at < |before| && RowNeeds(before[at])
      ensures before[at] == was[at]
    {
      if before[at] != was[at] {
        BackfilledNeedsNothing(spec, was[at], before[at]);
        assert false;
      }
    }

    static lemma StillThere(before: seq<Row>, at: nat, r: Row, other: Row)
      requires at < |before| && other in before && other.id != before[at].id
      ensures other in before[at := r]
    {
      var i :| 0 <= i < |before| && before[i] == other;
      assert before[at := r][i] == other;
    }

    /** The loop of the script: it ends because every batch leaves fewer rows that need work. */
    method BackfillTable(spec: Spec) returns (updated: nat)
      requires Shaped(spec, rows) && KeysFit(spec.primitives)
      modifies this
      ensures Shaped(spec, rows) && TableBackfilled(spec, old(rows), rows)
      ensures CountNeeding(rows) == 0
      ensures updated == CountNeeding(old(rows))
    {
      updated := 0;
      ghost var was := rows;
      while true
        invariant Shaped(spec, rows) && Processed(spec, was, rows)
        invariant updated + CountNeeding(rows) == CountNeeding(was)
        decreases CountNeeding(rows)
      {
        var batch := SelectNeeding(BATCH_SIZE);
        if |batch| == 0 {
          break;
        }
        var updates := EncryptBatch(spec, batch);
        ghost var before := rows;
        WriteBatch(spec, batch, updates);
        ProcessedTransitive(spec, was, before, rows);
        updated := updated + |batch|;
      }
      assert forall i :: 0 <= i < |rows| ==> rows[i] in rows;
      CountZeroIff(rows);
      FullyProcessed(spec, was, rows);
    }
  }

  lemma ProcessedTransitive(spec: Spec, a: seq<Row>, b: seq<Row>, c: seq<Row>)
    requires Processed(spec, a, b) && Processed(spec, b, c)
    ensures Processed(spec, a, c)
  {
    forall i | 0 <= i < |a|
      ensures c[i] == a[i] || (RowNeeds(a[i]) && RowBackfilled(spec, a[i], c[i]))
    {
      if b[i] != a[i] {
        BackfilledNeedsNothing(spec, a[i], b[i]);
      }
    }
  }

  lemma FullyProcessed(spec: Spec, was: seq<Row>, now: seq<Row>)
    requires Shaped(spec, was) && Processed(spec, was, now) && CountNeeding(now) == 0
    ensures TableBackfilled(spec, was, now)
  {
    CountZeroIff(now);
    forall i | 0 <= i < |was| ensures RowBackfilled(spec, was[i], now[i]) {
      if now[i] == was[i] {
        assert !RowNeeds(was[i]);
      }
    }
  }

  /** A second run finds nothing to do and changes nothing. */
  lemma SecondRunChangesNothing(spec: Spec, was: seq<Row>, now: seq<Row>, again: seq<Row>)
    requires TableBackfilled(spec, was, now) && TableBackfilled(spec, now, again)
    ensures CountNeeding(now) == 0 && again == now
  {
    forall i | 0 <= i < |now| ensures !RowNeeds(now[i]) && again[i] == now[i] {
      BackfilledNeedsNothing(spec, was[i], now[i]);
      BackfilledNeedsNothing(spec, now[i], again[i]);
    }
    CountZeroIff(now);
  }
}
