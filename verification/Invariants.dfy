/** The index invariant over every admissible run, including failing batches, compactions and
    restarts from any prefix of the log. */
module Invariants {
  import opened Bytes
  import opened Json
  import opened Codec
  import opened Canonical
  import opened Tokens
  import opened LogCodec
  import opened Replay
  import opened Documents
  import opened Order
  import opened Engine
  import opened Runs
  import opened Durability

  /** Every recoverable document is sound, still live, and live under the same `_seq`. A failed
      batch makes the disk lag behind memory, but only in this way. */
  ghost predicate Lag(rec: Docs, docs: Docs) {
    forall c, k | c in rec && k in rec[c] ::
      Sound(rec[c][k]) && c in docs && k in docs[c] && SeqOf(rec[c][k]) == SeqOf(docs[c][k])
  }

  /** Every logged document is a sound one. */
  ghost predicate SoundBody(body: seq<LogEntry>) {
    forall i | 0 <= i < |body| && body[i].cmd == IKEY_INSERT ::
      Storable(body[i].value) && body[i].value.Obj? && Sound(Encode(body[i].value))
  }

  lemma CanonSameSeq(v: Value)
    requires Storable(v) && v.Obj? && Sound(Encode(v))
    ensures Sound(Encode(Canon(v))) && SeqOf(Encode(Canon(v))) == SeqOf(Encode(v))
  {
    hide Encode, Decode, ReadToken;
    DecodeEncode(v);
    CanonIsCanon(v);
    CanonStorable(v);
    var fs := Canon(v).fields;
    SoundSeq(Encode(v));
    CanonHasNoPublicKeys(fs, 3);
    StoredIsSound(fs, SeqOf(Encode(v)));
  }

  lemma LagEntry(rec: Docs, docs: Docs, e: LogEntry)
    requires Lag(rec, docs) && BodyCommand(e.cmd) && SoundBody([e])
    ensures Lag(ApplyEntry(rec, CanonEntry(e)), ApplyEntry(docs, e))
  {
    hide Encode, Decode, Sound, SeqOf, Canon, CanonCommand, Storable;
    IkeysFixed(e.cmd);
    if e.cmd == IKEY_INSERT {
      assert [e][0] == e;
      CanonSameSeq(e.value);
    }
    assert IKEY_INSERT[2] != IKEY_DELETE[2] && IKEY_INSERT[2] != IKEY_DROP[2] && IKEY_DELETE[2] != IKEY_DROP[2];
  }

  lemma {:induction false} LagApply(rec: Docs, docs: Docs, body: seq<LogEntry>)
    requires Lag(rec, docs) && IsBody(body) && SoundBody(body)
    ensures Lag(ApplyAll(rec, CanonLog(body)), ApplyAll(docs, body))
    decreases body
  {
    hide Lag, Sound, Encode, ApplyEntry, CanonEntry, Storable;
    if body != [] {
      assert SoundBody([body[0]]);
      LagEntry(rec, docs, body[0]);
      LagApply(ApplyEntry(rec, CanonEntry(body[0])), ApplyEntry(docs, body[0]), body[1..]);
      assert CanonLog(body)[1..] == CanonLog(body[1..]);
    }
  }

  // ----- Transactions keep the invariant -----

  lemma InsertItemSeq(rec: Docs, ram: Ram, c: Text, item: Item, accepts: Schema)
    requires Inv(ram) && GoodItem(item) && Lag(rec, ram.docs)
    requires InsertItem(ram, c, item, accepts).Stored? && Storable(InsertItem(ram, c, item, accepts).value)
    ensures Lag(rec, InsertItem(ram, c, item, accepts).ram.docs)
    ensures Sound(Encode(InsertItem(ram, c, item, accepts).value))
  {
    hide Encode, Decode, Sound, SeqOf, Prepared, U64At, GoodItem, Storable, IsGraph;
    var existing := DocAt(ram.docs, c, item.key);
    PreparedReadsBack(existing, item, Counter(ram, c));
    var col := CollectionOf(ram.docs, c);
    assert CollectionInv(col, IndexOf(ram, c), Counter(ram, c));
    if item.key in col { SoundSeq(col[item.key]); }
  }

  lemma {:induction false} InsertItemsLag(rec: Docs, ram: Ram, c: Text, items: seq<Item>, accepts: Schema, t: Clock, body: seq<LogEntry>)
    requires Inv(ram) && GoodItems(items) && Counter(ram, c) + |items| < TWO_64
    requires AllStorable(InsertItems(ram, c, items, accepts, t, body).body)
    requires Lag(rec, ram.docs) && SoundBody(body)
    ensures Lag(rec, InsertItems(ram, c, items, accepts, t, body).ram.docs)
    ensures SoundBody(InsertItems(ram, c, items, accepts, t, body).body)
    decreases items
  {
    hide Encode, Sound, Lag, Inv, GoodItem, Storable, Prepared;
    if items != [] {
      var w := InsertItem(ram, c, items[0], accepts);
      if w.Stored? {
        var e := LogEntry(IKEY_INSERT, c, items[0].key, w.value, t(|body| + 1));
        InsertItemsBody(w.ram, c, items[1..], accepts, t, body + [e]);
        assert (body + [e])[|body|] == e;
        InsertItemInv(ram, c, items[0], accepts);
        InsertItemSeq(rec, ram, c, items[0], accepts);
        assert w.value.Obj? by { PreparedIsObject(ram, c, items[0], accepts); }
        InsertItemsLag(rec, w.ram, c, items[1..], accepts, t, body + [e]);
      }
    }
  }

  lemma PreparedIsObject(ram: Ram, c: Text, item: Item, accepts: Schema)
    requires GoodItem(item) && InsertItem(ram, c, item, accepts).Stored?
    ensures InsertItem(ram, c, item, accepts).value.Obj?
  {
    hide Encode, Stamp, Decode;
  }

  /** A log whose entries are all loggable holds storable values. */
  lemma LoggedBodyStorable(log: seq<LogEntry>, seg: seq<LogEntry>, c: Text, tx: Text, t: Clock, body: seq<LogEntry>, committed: bool)
    requires AllLoggable(log + seg) && seg == Bracket(c, tx, t, body, committed)
    ensures AllStorable(body)
  {
    hide Storable, EncodeEntry;
    forall i | 0 <= i < |body| ensures Storable(body[i].value) {
      assert (log + seg)[|log| + 1 + i] == body[i];
      assert Loggable(body[i]);
    }
  }

  /** One write: memory keeps the invariant, and the disk lags at most as before. */
  lemma TransactionInv(ram: Ram, rec: Docs, op: Op, accepts: Schema)
    requires !op.Compact? && !op.Crash? && Transaction(ram, op, accepts).Some?
    requires Inv(ram) && Lag(rec, ram.docs) && AllStorable(Transaction(ram, op, accepts).value.body)
    requires op.Insert? ==> GoodItems(op.items) && Counter(ram, op.c) + |op.items| < TWO_64
    requires op.Update? && op.updates.Obj? ==> KeepsIdentity(op.updates.fields)
    ensures var x := Transaction(ram, op, accepts).value;
            Inv(x.ram) && SoundBody(x.body) && (!x.committed ==> Lag(rec, x.ram.docs))
  {
    hide CountedKeys, FilteredKeys, EvictedKeys, InsertItems, Encode, Decode, Lag, Inv, UpdateDoc, DeleteBatch, GoodItems,
         DropCollection, Storable, KeepsIdentity, Touch;
    match op
    case Insert(c, items, _, t) =>
      TouchInv(ram, c);
      TouchLag(rec, ram, c);
      InsertItemsInv(Touch(ram, c), c, items, accepts, t, []);
      InsertItemsLag(rec, Touch(ram, c), c, items, accepts, t, []);
    case Update(c, key, updates, now, _, t) =>
      var x := Transaction(ram, op, accepts).value;
      if UpdateDoc(ram, c, key, updates, now, accepts).Updated? {
        assert x.body[0].value == UpdateDoc(ram, c, key, updates, now, accepts).value;
      }
      UpdateStep(ram, c, key, updates, now, accepts);
    case Delete(c, keys, _, t) => DeleteBatchInv(ram, c, keys, t);
    case DeleteN(c, n, asc, _, t) => DeleteBatchInv(ram, c, CountedKeys(ram, c, n, asc), t);
    case DeleteFiltered(c, m, limit, asc, _, t) => DeleteBatchInv(ram, c, FilteredKeys(ram, c, m, limit, asc), t);
    case Evict(c, max, _, t) => DeleteBatchInv(ram, c, EvictedKeys(ram, c, max), t);
    case Drop(c, _, t) =>
      DropInv(ram, c);
      assert IKEY_DROP[2] != IKEY_INSERT[2];
  }

  lemma TouchLag(rec: Docs, ram: Ram, c: Text)
    requires Lag(rec, ram.docs)
    ensures Lag(rec, Touch(ram, c).docs)
  {
    hide Sound, SeqOf;
  }

  lemma UpdateStep(ram: Ram, c: Text, key: Text, updates: Value, now: u64, accepts: Schema)
    requires Inv(ram) && (updates.Obj? ==> KeepsIdentity(updates.fields))
    requires var u := UpdateDoc(ram, c, key, updates, now, accepts); u.Updated? ==> Storable(u.value)
    ensures var u := UpdateDoc(ram, c, key, updates, now, accepts);
            u.Updated? ==> Inv(u.ram) && u.value.Obj? && Sound(Encode(u.value))
  {
    hide Encode, Decode, Sound, SeqOf, Storable, KeepsIdentity, GuardFails, U64At, IsGraph, Merged;
    var u := UpdateDoc(ram, c, key, updates, now, accepts);
    if u.Updated? {
      UpdateInv(ram, c, key, updates, now, accepts);
      var col := CollectionOf(ram.docs, c);
      assert CollectionInv(col, IndexOf(ram, c), Counter(ram, c));
      SoundSeq(col[key]);
      PatchReadsBack(col[key], updates, now);
    }
  }

  lemma DeleteBatchInv(ram: Ram, c: Text, keys: seq<Text>, t: Clock)
    requires Inv(ram)
    ensures Inv(DeleteBatch(ram, c, keys, t).ram) && SoundBody(DeleteBatch(ram, c, keys, t).body)
  {
    hide Inv, Sound, Storable;
    if c in ram.docs { DeleteKeysInv(ram, c, keys); }
    assert IKEY_DELETE[2] != IKEY_INSERT[2];
  }

  // ----- Restart -----

  /** Rebuilding index and counters from recovered documents re-establishes the invariant. */
  lemma RebuildInv(rec: Docs, ram: Ram)
    requires Inv(ram) && Lag(rec, ram.docs)
    ensures Inv(Rebuild(rec)) && Lag(rec, rec)
  {
    hide Sound, SeqOf, IsGraph, MaxSeq, IndexFor;
    var r := Rebuild(rec);
    forall c ensures CollectionInv(CollectionOf(r.docs, c), IndexOf(r, c), Counter(r, c)) {
      if c in rec {
        RebuildCollection(rec[c], CollectionOf(ram.docs, c), IndexOf(ram, c), Counter(ram, c));
      } else {
        EmptyCollectionInv();
      }
    }
  }

  lemma RebuildCollection(col: Collection, live: Collection, idx: map<u64, Text>, counter: u64)
    requires CollectionInv(live, idx, counter)
    requires forall k | k in col :: Sound(col[k]) && k in live && SeqOf(col[k]) == SeqOf(live[k])
    ensures CollectionInv(col, IndexFor(RankOf(col)), Wrap(MaxSeq(RankOf(col)) + 1))
  {
    hide Sound, SeqOf, IndexFor;
    var rank := RankOf(col);
    DistinctSeqs(live, idx, counter);
    assert Injective(rank) by {
      forall a, b | a in rank && b in rank && rank[a] == rank[b] ensures a == b {
        assert RankOf(live)[a] == RankOf(live)[b];
      }
    }
    IndexForIsGraph(rank);
    var m := MaxSeq(rank);
    assert m < TWO_64 - 1 by {
      if m != 0 {
        var k :| k in rank && rank[k] == m;
        assert SeqOf(live[k]) < counter;
      }
    }
    forall k | k in col ensures SeqOf(col[k]) < Wrap(m + 1) {
      assert rank[k] <= m;
    }
  }

  // ----- Snapshots -----

  ghost predicate SoundDocs(docs: Docs) {
    forall c, k | c in docs && k in docs[c] :: Sound(docs[c][k])
  }

  lemma InvSound(ram: Ram)
    requires Inv(ram)
    ensures SoundDocs(ram.docs)
  {
    hide Sound, SeqOf, IsGraph;
    forall c, k | c in ram.docs && k in ram.docs[c] ensures Sound(ram.docs[c][k]) {
      assert CollectionInv(CollectionOf(ram.docs, c), IndexOf(ram, c), Counter(ram, c));
    }
  }

  /** Each enumerated document is written to the snapshot as one insert. */
  lemma {:induction false} SnapshotEffect(docs: Docs, order: seq<(Text, Text)>, c: Text, k: Text)
    ensures IsBody(SnapshotOf(docs, order))
    ensures LastEffect(SnapshotOf(docs, order), c, k)
         == if (c, k) in order && DocAt(docs, c, k).Some? then Put(DocAt(docs, c, k).value) else Keep
    decreases order
  {
    hide Decode;
    if order != [] {
      SnapshotEffect(docs, order[1..], c, k);
      var es := SnapshotOf(docs, order);
      var rest := SnapshotOf(docs, order[1..]);
      assert (c, k) in order <==> (c, k) == order[0] || (c, k) in order[1..];
      if DocAt(docs, order[0].0, order[0].1).Some? {
        assert es[1..] == rest;
      } else {
        assert es == rest;
      }
    }
  }

  lemma SoundReadsBack(b: Bytes)
    requires Sound(b)
    ensures Decode(Encode(Decode(b).value)) == Decode(b) && Storable(Decode(b).value) && Decode(b).value.Obj?
    ensures Sound(Encode(Decode(b).value)) && SeqOf(Encode(Decode(b).value)) == SeqOf(b)
  {
    hide Encode, Decode, ReadToken;
    var d := Decode(b).value;
    DecodeEncode(d);
    CanonFixed(d);
    CanonHasNoPublicKeys(d.fields, 3);
    StoredIsSound(d.fields, SeqOf(b));
  }

  lemma FeedFresh(es: seq<LogEntry>)
    requires IsBody(es)
    ensures Recovered(CanonLog(es)) == ApplyAll(map[], CanonLog(es))
  {
    CanonBodyPlain(es);
    FeedPlain(FRESH, CanonLog(es));
  }

  /** Loading a snapshot gives back every document of the memory it was taken from. */
  lemma SnapshotRestores(docs: Docs, order: seq<(Text, Text)>)
    requires SoundDocs(docs) && Enumerates(order, docs) && AllStorable(SnapshotOf(docs, order))
    ensures SameDocs(Recovered(CanonLog(SnapshotOf(docs, order))), docs)
  {
    hide Encode, Decode, Sound, ApplyAll, SnapshotOf, FeedAll, LastEffect, Storable;
    var es := SnapshotOf(docs, order);
    var rec := Recovered(CanonLog(es));
    forall c, k ensures DocAt(rec, c, k) == DocAt(docs, c, k) {
      SnapshotEffect(docs, order, c, k);
      FeedFresh(es);
      ApplyAllEffect(map[], CanonLog(es), c, k);
      CanonEffects(es, c, k, None);
      if c in docs && k in docs[c] {
        SoundReadsBack(docs[c][k]);
      }
    }
  }

  lemma {:induction false} ApplyKeys(docs: Docs, es: seq<LogEntry>, c: Text, k: Text)
    ensures var r := ApplyAll(docs, es);
            c in r && k in r[c] ==>
              match LastEffect(es, c, k)
              case Keep => c in docs && k in docs[c] && r[c][k] == docs[c][k]
              case Gone => false
              case Put(v) => r[c][k] == Encode(v)
    decreases es
  {
    hide Encode;
    if es != [] {
      ApplyKeys(ApplyEntry(docs, es[0]), es[1..], c, k);
      assert IKEY_INSERT[2] != IKEY_DELETE[2] && IKEY_INSERT[2] != IKEY_DROP[2] && IKEY_DELETE[2] != IKEY_DROP[2];
    }
  }

  lemma {:induction false} CanonPut(es: seq<LogEntry>, c: Text, k: Text)
    requires IsBody(es)
    ensures LastEffect(CanonLog(es), c, k)
         == match LastEffect(es, c, k) case Put(v) => Put(Canon(v)) case Gone => Gone case Keep => Keep
  {
    hide Canon, CanonCommand;
    if es != [] {
      CanonPut(es[1..], c, k);
      assert CanonLog(es)[1..] == CanonLog(es[1..]);
      IkeysFixed(es[0].cmd);
    }
  }

  lemma SnapshotLag(docs: Docs, order: seq<(Text, Text)>)
    requires SoundDocs(docs)
    ensures Lag(Recovered(CanonLog(SnapshotOf(docs, order))), docs)
  {
    hide Encode, Decode, Sound, SeqOf, ApplyAll, SnapshotOf, LastEffect, FeedAll, Canon;
    var es := SnapshotOf(docs, order);
    var rec := Recovered(CanonLog(es));
    forall c, k | c in rec && k in rec[c]
      ensures Sound(rec[c][k]) && c in docs && k in docs[c] && SeqOf(rec[c][k]) == SeqOf(docs[c][k])
    {
      SnapshotEffect(docs, order, c, k);
      FeedFresh(es);
      ApplyKeys(map[], CanonLog(es), c, k);
      CanonPut(es, c, k);
      assert DocAt(docs, c, k).Some?;
      SoundReadsBack(docs[c][k]);
      CanonSameSeq(DocAt(docs, c, k).value);
    }
  }

  // ----- Every run -----

  /** After every admissible run the index is exact, `_seq` values are distinct and below the
      counters, and the disk holds only documents that memory holds under the same `_seq`. */
  lemma {:induction false} RunInvariant(ops: seq<Op>, accepts: Schema)
    requires RunOk(ops, accepts)
    ensures Inv(After(ops, accepts).ram) && Lag(OnDisk(After(ops, accepts).disk), After(ops, accepts).ram.docs)
    decreases |ops|
  {
    if ops == [] {
      hide Sound, SeqOf;
      EmptyInv();
      EmptyDisk();
    } else {
      hide Inv, Lag, OnDisk, Transaction, StepOk, Rebuild, Readable, Bracket, Step;
      var init, op := ops[..|ops| - 1], ops[|ops| - 1];
      RunInvariant(init, accepts);
      if op.Crash? {
        CrashKept(After(init, accepts), op, accepts);
        var j := CrashAtomicity(init, accepts, op.kept);
        PrefixOk(init, accepts, j);
        RunInvariant(init[..j], accepts);
        CrashStep(After(init, accepts), op, After(init[..j], accepts), accepts);
      } else {
        StepInvariant(After(init, accepts), op, accepts);
      }
    }
  }

  lemma EmptyDisk()
    ensures OnDisk(Disk([], [])) == map[]
  {
    var none: seq<LogEntry> := [];
    assert none + none[..0] == none && CanonLog(none) == none;
  }

  lemma {:induction false} PrefixOk(ops: seq<Op>, accepts: Schema, j: nat)
    requires RunOk(ops, accepts) && j <= |ops|
    ensures RunOk(ops[..j], accepts)
    decreases |ops|
  {
    hide StepOk;
    if j == |ops| {
      assert ops[..j] == ops;
    } else {
      PrefixOk(ops[..|ops| - 1], accepts, j);
      assert ops[..|ops| - 1][..j] == ops[..j];
    }
  }

  lemma CrashKept(s: Store, op: Op, accepts: Schema)
    requires op.Crash? && StepOk(s, op, accepts)
    ensures op.kept <= |s.disk.log|
  {
    hide Step, Loggable;
  }

  lemma CrashStep(s: Store, op: Op, past: Store, accepts: Schema)
    requires op.Crash? && op.kept <= |s.disk.log|
    requires Readable(s.disk, op.kept) == OnDisk(past.disk)
    requires Inv(past.ram) && Lag(OnDisk(past.disk), past.ram.docs)
    ensures Inv(Step(s, op, accepts).ram)
    ensures Lag(OnDisk(Step(s, op, accepts).disk), Step(s, op, accepts).ram.docs)
  {
    hide Inv, Lag, Readable;
    ReadablePrefixHidden(s.disk, op.kept, op.kept);
    RebuildInv(OnDisk(past.disk), past.ram);
  }

  lemma StepInvariant(s: Store, op: Op, accepts: Schema)
    requires !op.Crash? && StepOk(s, op, accepts) && Inv(s.ram) && Lag(OnDisk(s.disk), s.ram.docs)
    ensures Inv(Step(s, op, accepts).ram)
    ensures Lag(OnDisk(Step(s, op, accepts).disk), Step(s, op, accepts).ram.docs)
  {
    hide Inv, Lag, Readable, Transaction, Bracket, SnapshotOf, Loggable, GoodItems, KeepsIdentity;
    if op.Compact? {
      InvSound(s.ram);
      SnapshotLag(s.ram.docs, op.order);
      SnapshotOnDisk(SnapshotOf(s.ram.docs, op.order));
    } else {
      StepWrites(s, op, accepts);
      var x := Transaction(s.ram, op, accepts);
      if x.Some? {
        WriteInvariant(s, op, x.value, accepts);
      }
    }
  }

  lemma SnapshotOnDisk(snap: seq<LogEntry>)
    ensures OnDisk(Disk(snap, [])) == Recovered(CanonLog(snap))
  {
    var none: seq<LogEntry> := [];
    assert snap + none[..0] == snap;
  }

  lemma WriteInvariant(s: Store, op: Op, x: Txn, accepts: Schema)
    requires !op.Compact? && !op.Crash? && StepOk(s, op, accepts) && Inv(s.ram) && Lag(OnDisk(s.disk), s.ram.docs)
    requires Transaction(s.ram, op, accepts) == Some(x)
    ensures Inv(x.ram)
    ensures Lag(OnDisk(Step(s, op, accepts).disk), x.ram.docs)
  {
    hide Inv, Lag, Readable, Transaction, Bracket, ApplyAll, Loggable, GoodItems, KeepsIdentity;
    StepWrites(s, op, accepts);
    var seg := Bracket(op.c, op.tx, op.t, x.body, x.committed);
    LoggedBodyStorable(s.disk.log, seg, op.c, op.tx, op.t, x.body, x.committed);
    TransactionIsBody(s.ram, op, accepts);
    TransactionInv(s.ram, OnDisk(s.disk), op, accepts);
    ReadableExtended(s.disk, op, x, |s.disk.log + seg|);
    if x.committed {
      TransactionApply(s.ram, op, accepts);
      BaseLag(OnDisk(s.disk), s.ram, op);
      LagApply(OnDisk(s.disk), Base(s.ram, op), x.body);
    }
  }

  lemma BaseLag(rec: Docs, ram: Ram, op: Op)
    requires Lag(rec, ram.docs)
    ensures Lag(rec, Base(ram, op))
  {
    hide Lag;
    if op.Insert? { TouchLag(rec, ram, op.c); }
  }
}
