/** Over every run, whatever is stored is the encoding of a key-ordered JSON value. */
module Encodings {
  import opened Bytes
  import opened Json
  import opened Codec
  import opened Canonical
  import opened Tokens
  import opened LogCodec
  import opened Replay
  import opened Documents
  import opened Order
  import opened Engine
  import opened Runs
  import opened Durability
  import opened Invariants
  import opened Recovery

  ghost predicate Encoded(b: Bytes) {
    exists v :: b == Encode(v) && Storable(v) && WellOrdered(v)
  }

  ghost predicate EncodedDocs(docs: Docs) {
    forall c, k | c in docs && k in docs[c] :: Encoded(docs[c][k])
  }

  predicate OrderedEntry(e: LogEntry) {
    e.cmd == IKEY_INSERT ==> Storable(e.value) && WellOrdered(e.value)
  }

  /** Every logged document is storable and key-ordered. */
  predicate OrderedBody(es: seq<LogEntry>) {
    forall i | 0 <= i < |es| :: OrderedEntry(es[i])
  }

  lemma {:induction false} ApplyEncoded(docs: Docs, es: seq<LogEntry>)
    requires EncodedDocs(docs) && OrderedBody(es)
    ensures EncodedDocs(ApplyAll(docs, es))
    decreases es
  {
    hide Encode, Storable, WellOrdered;
    if es != [] {
      assert OrderedEntry(es[0]);
      assert EncodedDocs(ApplyEntry(docs, es[0]));
      ApplyEncoded(ApplyEntry(docs, es[0]), es[1..]);
    }
  }

  lemma {:induction false} CommittedOrdered(active: Option<Text>, buffer: seq<LogEntry>, log: seq<LogEntry>)
    requires OrderedBody(buffer) && OrderedBody(log)
    ensures OrderedBody(Committed(active, buffer, log))
    decreases log
  {
    hide OrderedEntry;
    if log != [] {
      var e, rest := log[0], log[1..];
      if e.cmd == IKEY_TX_BEGIN {
        CommittedOrdered(Some(e.key), [], rest);
      } else if e.cmd == IKEY_TX_COMMIT {
        CommittedOrdered(None, [], rest);
        CommittedOrdered(active, buffer, rest);
      } else {
        CommittedOrdered(active, buffer + [e], rest);
        CommittedOrdered(active, buffer, rest);
      }
    }
  }

  /** What a restart recovers is encoded in canonical, hence key-ordered, form. */
  lemma RecoveredEncoded(es: seq<LogEntry>)
    requires AllLoggable(es)
    ensures EncodedDocs(Recovered(CanonLog(es)))
  {
    hide Canon, Storable, WellOrdered, EncodeEntry, CanonCommand, Committed, ApplyAll, FeedAll, Encoded;
    var log := CanonLog(es);
    forall i | 0 <= i < |log| ensures OrderedEntry(log[i]) {
      assert Loggable(es[i]);
      CanonStorable(es[i].value);
      CanonIsCanon(es[i].value);
      CanonicalOrder(Canon(es[i].value));
    }
    CommittedOrdered(None, [], log);
    FeedAllCommitted(FRESH, log);
    ApplyEncoded(map[], Committed(None, [], log));
  }

  // ----- What the writes log -----

  lemma PreparedOrder(existing: Option<Value>, item: Item, s: u64)
    requires GoodItem(item)
    ensures WellOrdered(Prepared(existing, item, s))
  {
    hide Stamp, WellOrdered, Unreserved, U64At, Wrap;
    var fs := item.value.fields;
    match existing
    case None => StampOrder(fs, 1, item.now, item.now, s);
    case Some(d) =>
      StampOrder(fs, Wrap(Or(U64At(d, IKEY_VERSION), 0) + 1), Or(U64At(d, IKEY_CREATED_AT), item.now), item.now, Or(U64At(d, IKEY_SEQ), s));
  }

  lemma {:induction false} InsertItemsOrder(ram: Ram, c: Text, items: seq<Item>, accepts: Schema, t: Clock, body: seq<LogEntry>)
    requires GoodItems(items) && AllStorable(InsertItems(ram, c, items, accepts, t, body).body) && OrderedBody(body)
    ensures OrderedBody(InsertItems(ram, c, items, accepts, t, body).body)
    decreases items
  {
    hide GoodItem, Storable, WellOrdered, Prepared, Encode, DocAt, U64At;
    if items != [] {
      var w := InsertItem(ram, c, items[0], accepts);
      if w.Stored? {
        var e := LogEntry(IKEY_INSERT, c, items[0].key, w.value, t(|body| + 1));
        InsertItemsBody(w.ram, c, items[1..], accepts, t, body + [e]);
        assert (body + [e])[|body|] == e;
        PreparedOrder(DocAt(ram.docs, c, items[0].key), items[0], Counter(ram, c));
        InsertItemsOrder(w.ram, c, items[1..], accepts, t, body + [e]);
      }
    }
  }

  lemma PatchedOrder(ram: Ram, op: Op, accepts: Schema)
    requires op.Update? && Inv(ram) && (op.updates.Obj? ==> WellOrdered(op.updates))
    ensures var u := UpdateDoc(ram, op.c, op.key, op.updates, op.now, accepts); u.Updated? ==> WellOrdered(u.value)
  {
    hide Encode, Decode, Sound, SeqOf, GuardFails, IsGraph, Merged, WellOrdered, U64At, Wrap;
    var u := UpdateDoc(ram, op.c, op.key, op.updates, op.now, accepts);
    if u.Updated? {
      var col := CollectionOf(ram.docs, op.c);
      assert CollectionInv(col, IndexOf(ram, op.c), Counter(ram, op.c));
      SoundOrder(col[op.key]);
      var d := Decode(col[op.key]).value;
      if op.updates.Obj? {
        OrderedFields(op.updates);
        MergedOrder(d.fields, op.updates.fields, Wrap(Or(U64At(d, IKEY_VERSION), 0) + 1), op.now);
      }
    }
  }

  lemma SoundOrder(b: Bytes)
    requires Sound(b)
    ensures Decode(b).Some? && Decode(b).value.Obj? && WellOrdered(Decode(b).value)
  {
    hide Decode, ReadToken, Storable, U64At;
    CanonicalOrder(Decode(b).value);
  }

  lemma OrderedFields(v: Value)
    requires v.Obj? && WellOrdered(v)
    ensures FieldsWellOrdered(v.fields)
  {
  }

  lemma TransactionOrder(ram: Ram, op: Op, accepts: Schema)
    requires !op.Compact? && !op.Crash? && Transaction(ram, op, accepts).Some?
    requires Inv(ram) && AllStorable(Transaction(ram, op, accepts).value.body)
    requires op.Insert? ==> GoodItems(op.items)
    requires op.Update? && op.updates.Obj? ==> WellOrdered(op.updates)
    ensures OrderedBody(Transaction(ram, op, accepts).value.body)
  {
    hide CountedKeys, FilteredKeys, EvictedKeys, InsertItems, Encode, Decode, Inv, UpdateDoc, DeleteKeys, GoodItems,
         DropCollection, Storable, WellOrdered, Touch;
    assert IKEY_DELETE[2] != IKEY_INSERT[2] && IKEY_DROP[2] != IKEY_INSERT[2];
    if op.Insert? {
      InsertItemsOrder(Touch(ram, op.c), op.c, op.items, accepts, op.t, []);
    } else if op.Update? {
      PatchedOrder(ram, op, accepts);
      if UpdateDoc(ram, op.c, op.key, op.updates, op.now, accepts).Updated? {
        assert Storable(Transaction(ram, op, accepts).value.body[0].value);
      }
    }
  }

  // ----- Every run -----

  lemma TouchEncoded(ram: Ram, op: Op)
    requires EncodedDocs(ram.docs)
    ensures EncodedDocs(Base(ram, op))
  {
    hide Encoded;
  }

  lemma WriteEncoded(s: Store, op: Op, accepts: Schema)
    requires !op.Compact? && !op.Crash? && StepOk(s, op, accepts) && Inv(s.ram) && EncodedDocs(s.ram.docs)
    ensures EncodedDocs(Step(s, op, accepts).ram.docs)
  {
    hide Inv, Transaction, Bracket, ApplyAll, Loggable, GoodItems, KeepsIdentity, WellOrdered, EncodedDocs, OrderedBody;
    StepWrites(s, op, accepts);
    var o := Transaction(s.ram, op, accepts);
    if o.Some? {
      var x := o.value;
      var seg := Bracket(op.c, op.tx, op.t, x.body, x.committed);
      LoggedBodyStorable(s.disk.log, seg, op.c, op.tx, op.t, x.body, x.committed);
      TransactionOrder(s.ram, op, accepts);
      TransactionApply(s.ram, op, accepts);
      TouchEncoded(s.ram, op);
      ApplyEncoded(Base(s.ram, op), x.body);
    }
  }

  lemma CrashEncoded(s: Store, kept: nat, accepts: Schema)
    requires kept <= |s.disk.log| && AllLoggable(s.disk.log) && AllLoggable(s.disk.snapshot)
    ensures EncodedDocs(Step(s, Crash(kept), accepts).ram.docs)
  {
    hide EncodedDocs, Recovered, Loggable, CanonEntry;
    RecoveredEncoded(s.disk.snapshot + s.disk.log[..kept]);
  }

  /** After every admissible run each stored document is the encoding of a storable, key-ordered
      value. */
  lemma {:induction false} RunEncoded(ops: seq<Op>, accepts: Schema)
    requires RunOk(ops, accepts)
    ensures EncodedDocs(After(ops, accepts).ram.docs)
    decreases |ops|
  {
    if ops != [] {
      hide EncodedDocs, StepOk, Inv, Lag, OnDisk, Step, Loggable;
      var init, op := ops[..|ops| - 1], ops[|ops| - 1];
      RunEncoded(init, accepts);
      RunInvariant(init, accepts);
      if op.Crash? {
        CrashKept(After(init, accepts), op, accepts);
        RunLoggable(init, accepts);
        CrashEncoded(After(init, accepts), op.kept, accepts);
      } else if op.Compact? {
        CompactKeeps(After(init, accepts), op, accepts);
      } else {
        WriteEncoded(After(init, accepts), op, accepts);
      }
    }
  }

  lemma CompactKeeps(s: Store, op: Op, accepts: Schema)
    requires op.Compact?
    ensures Step(s, op, accepts).ram == s.ram
  {
    hide SnapshotOf;
  }
}
