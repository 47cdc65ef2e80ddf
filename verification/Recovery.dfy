/** What a restart brings back: live memory equals replay, a torn log file recovers the live
    documents of an earlier moment, and compaction preserves meaning. */
module Recovery {
  import opened Bytes
  import opened Json
  import opened Codec
  import opened Canonical
  import opened Framing
  import opened LogCodec
  import opened Replay
  import opened Documents
  import opened Engine
  import opened Runs
  import opened Durability
  import opened Invariants
  import opened Versions

  // ----- Live memory equals replay -----

  /** An insert batch that stopped at a rejected document. */
  ghost predicate FailedInsert(ram: Ram, op: Op, accepts: Schema) {
    op.Insert? && !InsertBatch(ram, op.c, op.items, accepts, op.t).ok
  }

  ghost predicate NoFailedInsert(ops: seq<Op>, accepts: Schema) {
    ops == [] ||
    (NoFailedInsert(ops[..|ops| - 1], accepts)
     && !FailedInsert(After(ops[..|ops| - 1], accepts).ram, ops[|ops| - 1], accepts))
  }

  /** No batch has failed since the last compaction or restart. */
  ghost predicate Settled(ops: seq<Op>, accepts: Schema) {
    ops == [] || ops[|ops| - 1].Compact? || ops[|ops| - 1].Crash?
    || (Settled(ops[..|ops| - 1], accepts)
        && !FailedInsert(After(ops[..|ops| - 1], accepts).ram, ops[|ops| - 1], accepts))
  }

  lemma {:induction false} NoFailedIsSettled(ops: seq<Op>, accepts: Schema)
    requires NoFailedInsert(ops, accepts)
    ensures Settled(ops, accepts)
    decreases |ops|
  {
    hide FailedInsert;
    if ops != [] { NoFailedIsSettled(ops[..|ops| - 1], accepts); }
  }

  lemma SameDocsTrans(a: Docs, b: Docs, d: Docs)
    requires SameDocs(a, b) && SameDocs(b, d)
    ensures SameDocs(a, d)
  {
    hide DocAt;
    forall c, k ensures DocAt(a, c, k) == DocAt(d, c, k) {
      assert DocAt(a, c, k) == DocAt(b, c, k) == DocAt(d, c, k);
    }
  }

  /** Only inserts leave logged entries uncommitted. */
  lemma UncommittedUnchanged(ram: Ram, op: Op, accepts: Schema)
    requires !op.Compact? && !op.Crash? && !FailedInsert(ram, op, accepts)
    requires Transaction(ram, op, accepts).Some? && !Transaction(ram, op, accepts).value.committed
    ensures Transaction(ram, op, accepts).value.ram == ram
  {
    hide UpdateDoc, CountedKeys, FilteredKeys, EvictedKeys, DeleteBatch, DropCollection, InsertItems;
  }

  lemma WriteSynced(s: Store, op: Op, accepts: Schema)
    requires !op.Compact? && !op.Crash? && StepOk(s, op, accepts) && !FailedInsert(s.ram, op, accepts)
    requires SameDocs(OnDisk(s.disk), s.ram.docs)
    ensures SameDocs(OnDisk(Step(s, op, accepts).disk), Step(s, op, accepts).ram.docs)
  {
    hide Readable, Transaction, Bracket, ApplyAll, Loggable, GoodItems, KeepsIdentity, SameDocs, FailedInsert;
    StepWrites(s, op, accepts);
    var o := Transaction(s.ram, op, accepts);
    if o.Some? {
      var x := o.value;
      var seg := Bracket(op.c, op.tx, op.t, x.body, x.committed);
      LoggedBodyStorable(s.disk.log, seg, op.c, op.tx, op.t, x.body, x.committed);
      TransactionIsBody(s.ram, op, accepts);
      ReadableExtended(s.disk, op, x, |s.disk.log + seg|);
      if x.committed {
        TransactionApply(s.ram, op, accepts);
        BaseSynced(OnDisk(s.disk), s.ram, op);
        CanonSame(Base(s.ram, op), OnDisk(s.disk), x.body);
      } else {
        UncommittedUnchanged(s.ram, op, accepts);
      }
    }
  }

  lemma BaseSynced(rec: Docs, ram: Ram, op: Op)
    requires SameDocs(rec, ram.docs)
    ensures SameDocs(rec, Base(ram, op))
  {
    hide DocAt;
    BaseSame(ram, op);
    forall c, k ensures DocAt(rec, c, k) == DocAt(Base(ram, op), c, k) {
      assert DocAt(Base(ram, op), c, k) == DocAt(ram.docs, c, k);
    }
  }

  /** After every admissible run in which no insert batch has failed since the last compaction or
      restart, replaying the disk gives the same decoded document for every key as live memory,
      although stored bytes may differ. */
  lemma {:induction false} LiveEqualsReplay(ops: seq<Op>, accepts: Schema)
    requires RunOk(ops, accepts) && Settled(ops, accepts)
    ensures SameDocs(OnDisk(After(ops, accepts).disk), After(ops, accepts).ram.docs)
    decreases |ops|
  {
    if ops == [] {
      EmptyDisk();
    } else {
      hide SameDocs, OnDisk, StepOk, Step, FailedInsert, Inv, Lag;
      var init, op := ops[..|ops| - 1], ops[|ops| - 1];
      var s := After(init, accepts);
      if op.Compact? {
        RunInvariant(init, accepts);
        CompactSynced(s, op, accepts);
      } else if op.Crash? {
        CrashSynced(s, op, accepts);
      } else {
        LiveEqualsReplay(init, accepts);
        WriteSynced(s, op, accepts);
      }
    }
  }

  lemma SnapshotStorable(s: Store, op: Op, accepts: Schema)
    requires op.Compact? && StepOk(s, op, accepts)
    ensures AllStorable(SnapshotOf(s.ram.docs, op.order)) && Enumerates(op.order, s.ram.docs)
  {
    hide SnapshotOf, EncodeEntry, Storable, DocAt;
    var snap := SnapshotOf(s.ram.docs, op.order);
    forall i | 0 <= i < |snap| ensures Storable(snap[i].value) {
      assert Loggable(snap[i]);
    }
  }

  lemma CompactSynced(s: Store, op: Op, accepts: Schema)
    requires op.Compact? && StepOk(s, op, accepts) && Inv(s.ram)
    ensures SameDocs(OnDisk(Step(s, op, accepts).disk), Step(s, op, accepts).ram.docs)
  {
    hide SameDocs, Readable, Inv, SnapshotOf, Loggable, Enumerates;
    InvSound(s.ram);
    SnapshotStorable(s, op, accepts);
    SnapshotRestores(s.ram.docs, op.order);
    SnapshotOnDisk(SnapshotOf(s.ram.docs, op.order));
  }

  lemma CrashSynced(s: Store, op: Op, accepts: Schema)
    requires op.Crash? && StepOk(s, op, accepts)
    ensures SameDocs(OnDisk(Step(s, op, accepts).disk), Step(s, op, accepts).ram.docs)
  {
    hide Readable, Loggable, Decode;
    ReadablePrefixHidden(s.disk, op.kept, op.kept);
  }

  // ----- Crash at any byte -----

  /** A restart from the snapshot body and what is left of the log file. */
  function Restart(snapshotFile: Bytes, logFile: Bytes): Docs {
    Recovered(ReadLog(snapshotFile) + ReadLog(logFile))
  }

  lemma {:induction false} RunLoggable(ops: seq<Op>, accepts: Schema)
    requires RunOk(ops, accepts)
    ensures AllLoggable(After(ops, accepts).disk.log) && AllLoggable(After(ops, accepts).disk.snapshot)
  {
    hide Step, Loggable;
  }

  lemma RestartReads(d: Disk, n: nat)
    requires AllLoggable(d.log) && AllLoggable(d.snapshot) && n <= |FileOf(d.log)|
    ensures var k := WholeFrames(Payloads(d.log), n);
            Restart(FileOf(d.snapshot), FileOf(d.log)[..n]) == Readable(d, k)
  {
    hide Recovered, FileOf, ReadLog, WholeFrames, Payloads, Loggable, CanonEntry;
    var k := WholeFrames(Payloads(d.log), n);
    ReadWholeLog(d.snapshot);
    TornLog(d.log, n);
    CanonLogConcat(d.snapshot, d.log[..k]);
  }

  /** Cutting the log file at any byte and restarting recovers exactly what was on disk after some
      prefix of the run, failed batches included. The prefix is the longest one: every operation
      whose bytes lie entirely before the cut is in it. */
  lemma TornRestart(ops: seq<Op>, accepts: Schema, n: nat) returns (j: nat)
    requires RunOk(ops, accepts) && n <= |FileOf(After(ops, accepts).disk.log)|
    ensures j <= |ops|
    ensures Restart(FileOf(After(ops, accepts).disk.snapshot), FileOf(After(ops, accepts).disk.log)[..n])
         == OnDisk(After(ops[..j], accepts).disk)
    ensures n == |FileOf(After(ops, accepts).disk.log)| ==> j == |ops|
    ensures forall i | j < i <= |ops| && Grows(ops, i) :: n < |FileOf(After(ops[..i], accepts).disk.log)|
  {
    hide Restart, FileOf, Step, StepOk, Readable, WholeFrames, Payloads, Loggable, Grows;
    var d := After(ops, accepts).disk;
    RunLoggable(ops, accepts);
    RestartReads(d, n);
    var k := WholeFrames(Payloads(d.log), n);
    AllFrames(d.log);
    j := CrashAtomicity(ops, accepts, k);
    forall i | j < i <= |ops| && Grows(ops, i) ensures n < |FileOf(After(ops[..i], accepts).disk.log)| {
      LogPrefix(ops, accepts, i);
      CutInside(d.log, After(ops[..i], accepts).disk.log, n);
    }
  }

  /** A cut that loses entries of a prefix falls before the end of that prefix. */
  lemma CutInside(log: seq<LogEntry>, past: seq<LogEntry>, n: nat)
    requires past <= log && WholeFrames(Payloads(log), n) < |past|
    ensures n < |FileOf(past)|
  {
    hide EncodeEntry, WholeFrames, Frames;
    assert Payloads(log)[..|past|] == Payloads(past);
    if |FileOf(past)| <= n { WholeFramesAtLeast(Payloads(log), |past|, n); }
  }

  /** Where memory and disk agreed, a cut at any byte recovers, document for document, what live
      memory held after that prefix of the run; an uncut file recovers the present. */
  lemma CrashRecoversPrefix(ops: seq<Op>, accepts: Schema, n: nat) returns (j: nat)
    requires RunOk(ops, accepts) && n <= |FileOf(After(ops, accepts).disk.log)|
    ensures j <= |ops|
    ensures Settled(ops[..j], accepts) ==>
              SameDocs(Restart(FileOf(After(ops, accepts).disk.snapshot), FileOf(After(ops, accepts).disk.log)[..n]),
                       After(ops[..j], accepts).ram.docs)
    ensures NoFailedInsert(ops, accepts) ==> Settled(ops[..j], accepts)
    ensures n == |FileOf(After(ops, accepts).disk.log)| ==> j == |ops|
    ensures forall i | j < i <= |ops| && Grows(ops, i) :: n < |FileOf(After(ops[..i], accepts).disk.log)|
  {
    hide Restart, FileOf, Step, StepOk, SameDocs, Readable, FailedInsert, Grows, OnDisk;
    j := TornRestart(ops, accepts, n);
    PrefixOk(ops, accepts, j);
    if Settled(ops[..j], accepts) { LiveEqualsReplay(ops[..j], accepts); }
    if NoFailedInsert(ops, accepts) {
      PrefixNoFailed(ops, accepts, j);
      NoFailedIsSettled(ops[..j], accepts);
    }
  }

  lemma AllFrames(log: seq<LogEntry>)
    ensures WholeFrames(Payloads(log), |FileOf(log)|) == |log|
  {
    hide EncodeEntry;
    WholeFramesAll(Payloads(log));
  }

  lemma {:induction false} PrefixNoFailed(ops: seq<Op>, accepts: Schema, j: nat)
    requires NoFailedInsert(ops, accepts) && j <= |ops|
    ensures NoFailedInsert(ops[..j], accepts)
    decreases |ops|
  {
    hide FailedInsert;
    if j == |ops| {
      assert ops[..j] == ops;
    } else {
      PrefixNoFailed(ops[..|ops| - 1], accepts, j);
      assert ops[..|ops| - 1][..j] == ops[..j];
    }
  }

  // ----- Compaction -----

  /** A later log segment as the engine writes it: it starts by opening a transaction. */
  predicate OpensTransaction(delta: seq<LogEntry>) {
    delta == [] || delta[0].cmd == IKEY_TX_BEGIN
  }

  lemma DeltaFromAnywhere(a: Replayer, b: Replayer, delta: seq<LogEntry>)
    requires OpensTransaction(delta) && SameDocs(a.docs, b.docs)
    ensures SameDocs(FeedAll(a, delta).docs, FeedAll(b, delta).docs)
  {
    hide SameDocs, ApplyAll;
    FeedAllCommitted(a, delta);
    FeedAllCommitted(b, delta);
    if delta != [] {
      assert Committed(a.active, a.buffer, delta) == Committed(b.active, b.buffer, delta);
    }
    ApplyAllRespects(a.docs, b.docs, Committed(a.active, a.buffer, delta));
  }

  /** Snapshot plus any later segment replays to the same documents as the uncompacted log plus
      that segment, even when the uncompacted log ends in an open transaction. */
  lemma CompactionPreserves(s: Store, order: seq<(Text, Text)>, delta: seq<LogEntry>)
    requires Inv(s.ram) && SameDocs(OnDisk(s.disk), s.ram.docs)
    requires Enumerates(order, s.ram.docs) && AllStorable(SnapshotOf(s.ram.docs, order))
    requires OpensTransaction(CanonLog(delta))
    ensures SameDocs(Recovered(CanonLog(SnapshotOf(s.ram.docs, order) + delta)),
                     Recovered(CanonLog(s.disk.snapshot + s.disk.log + delta)))
  {
    hide SameDocs, SnapshotOf, FeedAll, Inv, Enumerates, CanonEntry, Storable, OpensTransaction;
    InvSound(s.ram);
    var snap := SnapshotOf(s.ram.docs, order);
    var full := s.disk.snapshot + s.disk.log;
    SnapshotRestores(s.ram.docs, order);
    SameDocsFlip(OnDisk(s.disk), s.ram.docs);
    SameDocsTrans(Recovered(CanonLog(snap)), s.ram.docs, OnDisk(s.disk));
    assert s.disk.log[..|s.disk.log|] == s.disk.log;
    CanonLogConcat(snap, delta);
    CanonLogConcat(full, delta);
    FeedConcat(FRESH, CanonLog(snap), CanonLog(delta));
    FeedConcat(FRESH, CanonLog(full), CanonLog(delta));
    DeltaFromAnywhere(FeedAll(FRESH, CanonLog(snap)), FeedAll(FRESH, CanonLog(full)), CanonLog(delta));
  }

  lemma SameDocsFlip(a: Docs, b: Docs)
    requires SameDocs(a, b)
    ensures SameDocs(b, a)
  {
    hide DocAt;
    forall c, k ensures DocAt(b, c, k) == DocAt(a, c, k) {
      assert DocAt(a, c, k) == DocAt(b, c, k);
    }
  }

  /** A snapshot leaves no transaction open, so the log after it is committed on its own. */
  lemma AfterSnapshot(snap: seq<LogEntry>, log: seq<LogEntry>)
    requires IsBody(snap)
    ensures Recovered(CanonLog(snap + log)) == ApplyAll(Recovered(CanonLog(snap)), Committed(None, [], CanonLog(log)))
  {
    hide ApplyAll, CanonEntry, Committed;
    CanonBodyPlain(snap);
    FeedPlain(FRESH, CanonLog(snap));
    CanonLogConcat(snap, log);
    FeedConcat(FRESH, CanonLog(snap), CanonLog(log));
    FeedAllCommitted(FeedAll(FRESH, CanonLog(snap)), CanonLog(log));
  }

  lemma SnapshotIsBody(docs: Docs, order: seq<(Text, Text)>)
    ensures IsBody(SnapshotOf(docs, order))
  {
    SnapshotEffect(docs, order, [], []);
  }

  /** A crash after the new snapshot is in place but before the log is reset is harmless: replaying
      the old log over the snapshot changes no document. */
  lemma CompactionWindow(s: Store, order: seq<(Text, Text)>)
    requires Inv(s.ram) && SameDocs(OnDisk(s.disk), s.ram.docs) && IsBody(s.disk.snapshot)
    requires Enumerates(order, s.ram.docs) && AllStorable(SnapshotOf(s.ram.docs, order))
    ensures SameDocs(Recovered(CanonLog(SnapshotOf(s.ram.docs, order) + s.disk.log)), s.ram.docs)
  {
    hide SnapshotOf, Inv, Enumerates, CanonEntry, Storable, DocAt, ApplyAll, LastEffect, Committed, FeedAll;
    InvSound(s.ram);
    var snap, done := SnapshotOf(s.ram.docs, order), Committed(None, [], CanonLog(s.disk.log));
    SnapshotRestores(s.ram.docs, order);
    SnapshotIsBody(s.ram.docs, order);
    AfterSnapshot(snap, s.disk.log);
    AfterSnapshot(s.disk.snapshot, s.disk.log);
    assert s.disk.log[..|s.disk.log|] == s.disk.log;
    var base, past := Recovered(CanonLog(snap)), Recovered(CanonLog(s.disk.snapshot));
    forall c, k ensures DocAt(ApplyAll(base, done), c, k) == DocAt(s.ram.docs, c, k) {
      ApplyAllEffect(base, done, c, k);
      ApplyAllEffect(past, done, c, k);
      assert DocAt(base, c, k) == DocAt(s.ram.docs, c, k);
      assert DocAt(ApplyAll(past, done), c, k) == DocAt(s.ram.docs, c, k);
    }
  }

  lemma {:induction false} RunSnapshotBody(ops: seq<Op>, accepts: Schema)
    ensures IsBody(After(ops, accepts).disk.snapshot)
    decreases |ops|
  {
    hide IsBody, SnapshotOf, Transaction, Rebuild, Bracket, Readable;
    if ops == [] {
      assert IsBody([]) by { EmptyIsBody(); }
    } else {
      RunSnapshotBody(ops[..|ops| - 1], accepts);
      var op := ops[|ops| - 1];
      if op.Compact? { SnapshotIsBody(After(ops[..|ops| - 1], accepts).ram.docs, op.order); }
    }
  }

  lemma EmptyIsBody()
    ensures IsBody([])
  {
  }

  /** In every run with no batch failed since the last compaction or restart, compacting is invisible
      to a restart: with the log reset, with the log still in place, and with further writes after it. */
  lemma CompactionInvisible(ops: seq<Op>, accepts: Schema, order: seq<(Text, Text)>, delta: seq<LogEntry>)
    requires RunOk(ops, accepts) && Settled(ops, accepts)
    requires StepOk(After(ops, accepts), Compact(order), accepts) && OpensTransaction(CanonLog(delta))
    ensures var s := After(ops, accepts); var snap := SnapshotOf(s.ram.docs, order);
            && SameDocs(Recovered(CanonLog(snap + delta)), Recovered(CanonLog(s.disk.snapshot + s.disk.log + delta)))
            && SameDocs(Recovered(CanonLog(snap + s.disk.log)), s.ram.docs)
  {
    hide SameDocs, SnapshotOf, FeedAll, Inv, Lag, Enumerates, StepOk, After, Storable, OpensTransaction, CanonEntry, IsBody;
    var s := After(ops, accepts);
    RunInvariant(ops, accepts);
    LiveEqualsReplay(ops, accepts);
    RunSnapshotBody(ops, accepts);
    SnapshotStorable(s, Compact(order), accepts);
    CompactionPreserves(s, order, delta);
    CompactionWindow(s, order);
  }

  // ----- Exactly when a failed batch leaves memory and disk apart -----

  /** The schema turns down the very first document of a batch. */
  predicate FirstRejected(ram: Ram, op: Op, accepts: Schema)
    requires op.Insert?
  {
    op.items != []
    && !accepts(op.c, Prepared(DocAt(ram.docs, op.c, op.items[0].key), op.items[0], Counter(ram, op.c)))
  }

  lemma NothingStored(ram: Ram, op: Op, accepts: Schema)
    requires op.Insert? && GoodItems(op.items) && FailedInsert(ram, op, accepts)
    ensures InsertBatch(ram, op.c, op.items, accepts, op.t).body == [] <==> FirstRejected(ram, op, accepts)
  {
    hide Prepared, Encode, Decode, U64At, DocAt, Ordered, Unreserved;
    var start := Touch(ram, op.c);
    TouchSame(ram, op.c, op.c, op.items[0].key);
    assert GoodItem(op.items[0]);
    var w := InsertItem(start, op.c, op.items[0], accepts);
    if w.Stored? {
      var e := LogEntry(IKEY_INSERT, op.c, op.items[0].key, w.value, op.t(1));
      InsertItemsBody(w.ram, op.c, op.items[1..], accepts, op.t, [] + [e]);
    }
  }

  /** A failed batch keeps memory and disk together exactly when its first document was the
      rejected one: anything stored before the failure is visible in memory but never committed. */
  lemma FailedBatchDiverges(s: Store, op: Op, accepts: Schema)
    requires op.Insert? && StepOk(s, op, accepts) && Inv(s.ram) && FailedInsert(s.ram, op, accepts)
    requires SameDocs(OnDisk(s.disk), s.ram.docs)
    ensures var s' := Step(s, op, accepts);
            SameDocs(OnDisk(s'.disk), s'.ram.docs) <==> FirstRejected(s.ram, op, accepts)
  {
    hide Readable, Transaction, Bracket, Inv, Loggable, Advanced, GoodItems, InsertItems, KeepsIdentity, FirstRejected;
    StepWrites(s, op, accepts);
    InsertTxn(s.ram, op, accepts);
    NothingStored(s.ram, op, accepts);
    var x := Transaction(s.ram, op, accepts).value;
    var seg := Bracket(op.c, op.tx, op.t, x.body, x.committed);
    LoggedBodyStorable(s.disk.log, seg, op.c, op.tx, op.t, x.body, x.committed);
    TransactionIsBody(s.ram, op, accepts);
    TransactionApply(s.ram, op, accepts);
    ReadableExtended(s.disk, op, x, |s.disk.log + seg|);
    var rec := OnDisk(s.disk);
    if x.body == [] {
      BaseSynced(rec, s.ram, op);
    } else {
      StoredKeyMoved(s.ram, op, accepts);
      var k := x.body[0].key;
      assert DocAt(rec, op.c, k) == DocAt(s.ram.docs, op.c, k);
    }
  }

  lemma InsertTxn(ram: Ram, op: Op, accepts: Schema)
    requires op.Insert?
    ensures Transaction(ram, op, accepts).Some?
    ensures var x := Transaction(ram, op, accepts).value; var b := InsertBatch(ram, op.c, op.items, accepts, op.t);
            x.ram == b.ram && x.body == b.body && x.committed == b.ok
  {
    hide InsertItems;
  }

  lemma {:induction false} InsertItemsCount(ram: Ram, c: Text, items: seq<Item>, accepts: Schema, t: Clock, body: seq<LogEntry>)
    requires forall i | 0 <= i < |body| :: body[i].cmd == IKEY_INSERT && body[i].collection == c
    ensures var b := InsertItems(ram, c, items, accepts, t, body).body;
            |b| <= |body| + |items| && forall i | 0 <= i < |b| :: b[i].cmd == IKEY_INSERT && b[i].collection == c
    decreases items
  {
    hide InsertItem;
    if items != [] {
      var w := InsertItem(ram, c, items[0], accepts);
      if w.Stored? {
        InsertItemsCount(w.ram, c, items[1..], accepts, t,
                         body + [LogEntry(IKEY_INSERT, c, items[0].key, w.value, t(|body| + 1))]);
      }
    }
  }

  lemma {:induction false} PutsBound(body: seq<LogEntry>, c: Text, k: Text)
    ensures Puts(body, c, k) <= |body|
  {
    if body != [] { PutsBound(body[..|body| - 1], c, k); }
  }

  lemma {:induction false} PutsPositive(body: seq<LogEntry>, i: nat)
    requires i < |body| && body[i].cmd == IKEY_INSERT
    ensures Puts(body, body[i].collection, body[i].key) > 0
  {
    if i < |body| - 1 { PutsPositive(body[..|body| - 1], i); }
  }

  /** The first stored document of a batch ends up with a different version. */
  lemma StoredKeyMoved(ram: Ram, op: Op, accepts: Schema)
    requires op.Insert? && Inv(ram) && GoodItems(op.items) && Counter(ram, op.c) + |op.items| < TWO_64
    requires Transaction(ram, op, accepts).Some? && AllStorable(Transaction(ram, op, accepts).value.body)
    requires Transaction(ram, op, accepts).value.body != []
    ensures var x := Transaction(ram, op, accepts).value;
            DocAt(x.ram.docs, op.c, x.body[0].key) != DocAt(ram.docs, op.c, x.body[0].key)
  {
    hide Inv, GoodItems, InsertItems, Storable, Decode, U64At, CreatedAt, SeqAt, Puts;
    var x := Transaction(ram, op, accepts).value;
    InsertTxn(ram, op, accepts);
    InsertItemsCount(Touch(ram, op.c), op.c, op.items, accepts, op.t, []);
    var c, k := op.c, x.body[0].key;
    PutsBound(x.body, c, k);
    PutsPositive(x.body, 0);
    assert Spares(x.body, c, k) by { assert IKEY_INSERT[2] != IKEY_DELETE[2] && IKEY_INSERT[2] != IKEY_DROP[2]; }
    TransactionAdvances(ram, op, accepts, c, k);
    WrapMoves(VersionAt(ram.docs, c, k), Puts(x.body, c, k));
  }

  lemma WrapMoves(v: u64, n: nat)
    requires 0 < n < TWO_64
    ensures Wrap(v + n) != v
  {
  }
}
