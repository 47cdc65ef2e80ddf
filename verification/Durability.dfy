/** Over every admissible run: a crash recovers a state between two operations, live memory is
    what a replay of the log gives, and the index invariant always holds. */
module Durability {
  import opened Bytes
  import opened Json
  import opened Codec
  import opened Canonical
  import opened Tokens
  import opened Framing
  import opened LogCodec
  import opened Replay
  import opened Documents
  import opened Order
  import opened Engine
  import opened Runs

  // ----- Bodies of transactions -----

  lemma {:induction false} InsertItemsIsBody(ram: Ram, c: Text, items: seq<Item>, accepts: Schema, t: Clock, body: seq<LogEntry>)
    requires IsBody(body)
    ensures IsBody(InsertItems(ram, c, items, accepts, t, body).body)
    decreases items
  {
    hide InsertItem;
    if items != [] {
      var w := InsertItem(ram, c, items[0], accepts);
      if w.Stored? {
        InsertItemsIsBody(w.ram, c, items[1..], accepts, t,
                          body + [LogEntry(IKEY_INSERT, c, items[0].key, w.value, t(|body| + 1))]);
      }
    }
  }

  lemma TransactionIsBody(ram: Ram, op: Op, accepts: Schema)
    requires !op.Compact? && !op.Crash? && Transaction(ram, op, accepts).Some?
    ensures IsBody(Transaction(ram, op, accepts).value.body)
  {
    hide UpdateDoc, CountedKeys, FilteredKeys, EvictedKeys, DeleteKeys, DropCollection, InsertItems;
    if op.Insert? {
      InsertItemsIsBody(Touch(ram, op.c), op.c, op.items, accepts, op.t, []);
    }
  }

  // ----- Crash atomicity -----

  /** Appending a transaction: every cut inside it recovers what was there before. */
  lemma ReadableExtended(disk: Disk, op: Op, x: Txn, k: nat)
    requires !op.Compact? && !op.Crash? && IsBody(x.body)
    requires var log' := disk.log + Bracket(op.c, op.tx, op.t, x.body, x.committed);
             |disk.log| <= k <= |log'|
    ensures var log' := disk.log + Bracket(op.c, op.tx, op.t, x.body, x.committed);
            Readable(Disk(disk.snapshot, log'), k)
            == if x.committed && k == |log'| then ApplyAll(OnDisk(disk), CanonLog(x.body)) else OnDisk(disk)
  {
    hide FeedAll, ApplyAll, Bracket, CanonEntry;
    var seg := Bracket(op.c, op.tx, op.t, x.body, x.committed);
    var n := k - |disk.log|;
    var before := disk.snapshot + disk.log;
    assert disk.log[..|disk.log|] == disk.log;
    assert disk.snapshot + (disk.log + seg)[..k] == before + seg[..n];
    CanonLogConcat(before, seg[..n]);
    FeedConcat(FRESH, CanonLog(before), CanonLog(seg[..n]));
    FeedBracket(FeedAll(FRESH, CanonLog(before)), op.c, op.tx, op.t, x.body, x.committed, n);
  }

  lemma ReadablePrefix(disk: Disk, more: seq<LogEntry>, k: nat)
    requires k <= |disk.log|
    ensures Readable(Disk(disk.snapshot, disk.log + more), k) == Readable(disk, k)
    ensures Readable(Disk(disk.snapshot, disk.log[..k]), k) == Readable(disk, k)
  {
    assert (disk.log + more)[..k] == disk.log[..k];
    assert disk.log[..k][..k] == disk.log[..k];
  }

  lemma StepWrites(s: Store, op: Op, accepts: Schema)
    requires !op.Compact? && !op.Crash?
    ensures var s' := Step(s, op, accepts); var x := Transaction(s.ram, op, accepts);
            x.None? ==> s' == s
    ensures var s' := Step(s, op, accepts); var x := Transaction(s.ram, op, accepts);
            x.Some? ==> s' == Store(x.value.ram, Disk(s.disk.snapshot,
                                    s.disk.log + Bracket(op.c, op.tx, op.t, x.value.body, x.value.committed)))
  {
    hide Transaction, Bracket;
  }

  /** From position `i` on the log only grows. */
  predicate Grows(ops: seq<Op>, i: nat) {
    forall m | i <= m < |ops| :: !ops[m].Compact? && !ops[m].Crash?
  }

  /** Cutting the log anywhere recovers exactly what was on disk after some prefix of the run:
      transactions are all or nothing, and those left open by a failed write have no effect.
      The prefix is the longest one: every operation written entirely before the cut is in it. */
  lemma {:induction false} CrashAtomicity(ops: seq<Op>, accepts: Schema, k: nat) returns (j: nat)
    requires RunOk(ops, accepts) && k <= |After(ops, accepts).disk.log|
    ensures j <= |ops| && Readable(After(ops, accepts).disk, k) == OnDisk(After(ops[..j], accepts).disk)
    ensures k == |After(ops, accepts).disk.log| ==> j == |ops|
    ensures forall i | j < i <= |ops| && Grows(ops, i) :: k < |After(ops[..i], accepts).disk.log|
    decreases |ops|
  {
    hide Readable, Transaction, StepOk, Bracket, Rebuild, Step;
    assert ops[..|ops|] == ops;
    var d := After(ops, accepts).disk;
    if k == |d.log| {
      j := |ops|;
      LastCut(d);
    } else {
      var init := ops[..|ops| - 1];
      CutBefore(init, ops[|ops| - 1], accepts, k);
      var before := After(init, accepts).disk;
      if k < |before.log| {
        j := CrashAtomicity(init, accepts, k);
        assert init[..j] == ops[..j];
        forall i | j < i <= |ops| && Grows(ops, i) ensures k < |After(ops[..i], accepts).disk.log| {
          if i < |ops| { assert init[..i] == ops[..i] && Grows(init, i); }
        }
      } else {
        j := |ops| - 1;
      }
    }
  }

  /** While the log only grows, what was in it stays at its front. */
  lemma {:induction false} LogPrefix(ops: seq<Op>, accepts: Schema, i: nat)
    requires i <= |ops| && Grows(ops, i)
    ensures After(ops[..i], accepts).disk.log <= After(ops, accepts).disk.log
    decreases |ops|
  {
    hide Transaction, Bracket, Step;
    if i == |ops| {
      assert ops[..i] == ops;
    } else {
      var init := ops[..|ops| - 1];
      LogPrefix(init, accepts, i);
      assert init[..i] == ops[..i];
      StepWrites(After(init, accepts), ops[|ops| - 1], accepts);
    }
  }

  lemma LastCut(d: Disk)
    ensures Readable(d, |d.log|) == OnDisk(d)
  {
  }

  /** One step: a cut short of the end was already there before the step, or falls inside the
      step's transaction and recovers the state before it. */
  lemma CutBefore(init: seq<Op>, op: Op, accepts: Schema, k: nat)
    requires k < |Step(After(init, accepts), op, accepts).disk.log|
    requires StepOk(After(init, accepts), op, accepts)
    ensures var before := After(init, accepts).disk;
            Readable(Step(After(init, accepts), op, accepts).disk, k)
            == if k < |before.log| then Readable(before, k) else OnDisk(before)
  {
    var s := After(init, accepts);
    if op.Compact? || op.Crash? {
      hide Readable, Rebuild, Loggable;
      if op.Crash? { ReadablePrefixHidden(s.disk, op.kept, k); }
    } else {
      hide Readable, Transaction, Bracket, Loggable;
      StepWrites(s, op, accepts);
      var x := Transaction(s.ram, op, accepts);
      if x.Some? {
        TransactionIsBody(s.ram, op, accepts);
        var seg := Bracket(op.c, op.tx, op.t, x.value.body, x.value.committed);
        if k < |s.disk.log| {
          ReadablePrefix(s.disk, seg, k);
        } else {
          ReadableExtended(s.disk, op, x.value, k);
        }
      }
    }
  }

  lemma ReadablePrefixHidden(disk: Disk, kept: nat, k: nat)
    requires k <= kept <= |disk.log|
    ensures Readable(Disk(disk.snapshot, disk.log[..kept]), k) == Readable(disk, k)
  {
    assert disk.log[..kept][..k] == disk.log[..k];
  }

  // ----- Live memory is the log applied directly -----

  lemma {:induction false} ApplySnoc(docs: Docs, es: seq<LogEntry>, e: LogEntry)
    ensures ApplyAll(docs, es + [e]) == ApplyEntry(ApplyAll(docs, es), e)
  {
    hide ApplyEntry;
    ApplyConcat(docs, es, [e]);
    var mid := ApplyAll(docs, es);
    assert ApplyAll(mid, [e]) == ApplyAll(ApplyEntry(mid, e), []);
  }

  lemma {:induction false} InsertItemsApply(docs0: Docs, ram: Ram, c: Text, items: seq<Item>, accepts: Schema, t: Clock, body: seq<LogEntry>)
    requires ram.docs == ApplyAll(docs0, body)
    ensures var b := InsertItems(ram, c, items, accepts, t, body); b.ram.docs == ApplyAll(docs0, b.body)
    decreases items
  {
    hide ApplyAll, Prepared, Encode, Decode, U64At;
    if items != [] {
      var w := InsertItem(ram, c, items[0], accepts);
      if w.Stored? {
        var e := LogEntry(IKEY_INSERT, c, items[0].key, w.value, t(|body| + 1));
        ApplySnoc(docs0, body, e);
        InsertItemsApply(docs0, w.ram, c, items[1..], accepts, t, body + [e]);
      }
    }
  }

  lemma {:induction false} DeleteKeysApply(ram: Ram, c: Text, keys: seq<Text>, es: seq<LogEntry>)
    requires c in ram.docs && |es| == |keys|
    requires forall i | 0 <= i < |keys| :: es[i].cmd == IKEY_DELETE && es[i].collection == c && es[i].key == keys[i]
    ensures DeleteKeys(ram, c, keys).docs == ApplyAll(ram.docs, es)
    decreases keys
  {
    hide SeqOf, Encode;
    if keys != [] {
      var r := DeleteKey(ram, c, keys[0]);
      assert IKEY_DELETE != IKEY_INSERT by { assert IKEY_DELETE[2] != IKEY_INSERT[2]; }
      assert r.docs == ApplyEntry(ram.docs, es[0]);
      DeleteKeysApply(r, c, keys[1..], es[1..]);
    }
  }

  lemma DeleteBatchApply(ram: Ram, c: Text, keys: seq<Text>, t: Clock)
    ensures var b := DeleteBatch(ram, c, keys, t); b.ram.docs == ApplyAll(ram.docs, b.body)
  {
    hide DeleteKeys;
    if c in ram.docs {
      DeleteKeysApply(ram, c, keys, DeleteEntries(c, keys, t));
    }
  }

  /** What a transaction starts from: an insert creates its collection first. */
  function Base(ram: Ram, op: Op): Docs {
    if op.Insert? then Touch(ram, op.c).docs else ram.docs
  }

  lemma BaseSame(ram: Ram, op: Op)
    ensures SameDocs(Base(ram, op), ram.docs)
  {
    hide Decode;
  }

  /** Live documents after a write are the logged entries applied to the live documents before. */
  lemma TransactionApply(ram: Ram, op: Op, accepts: Schema)
    requires !op.Compact? && !op.Crash? && Transaction(ram, op, accepts).Some?
    ensures var x := Transaction(ram, op, accepts).value; x.ram.docs == ApplyAll(Base(ram, op), x.body)
  {
    hide CountedKeys, FilteredKeys, EvictedKeys, DeleteBatch, InsertItems, Encode, Decode, Patched, GuardFails;
    match op
    case Insert(c, items, _, t) =>
      InsertItemsApply(Touch(ram, c).docs, Touch(ram, c), c, items, accepts, t, []);
    case Update(c, key, updates, now, _, t) => UpdateApply(ram, c, key, updates, now, accepts, t(1));
    case Delete(c, keys, _, t) => DeleteBatchApply(ram, c, keys, t);
    case DeleteN(c, n, asc, _, t) => DeleteBatchApply(ram, c, CountedKeys(ram, c, n, asc), t);
    case DeleteFiltered(c, m, limit, asc, _, t) => DeleteBatchApply(ram, c, FilteredKeys(ram, c, m, limit, asc), t);
    case Evict(c, max, _, t) => DeleteBatchApply(ram, c, EvictedKeys(ram, c, max), t);
    case Drop(c, _, t) => DropApply(ram, c, t(1));
  }

  lemma UpdateApply(ram: Ram, c: Text, key: Text, updates: Value, now: u64, accepts: Schema, at: u64)
    ensures var u := UpdateDoc(ram, c, key, updates, now, accepts);
            u.Updated? ==> u.ram.docs == ApplyAll(ram.docs, [LogEntry(IKEY_INSERT, c, key, u.value, at)])
  {
    hide Encode, Decode, Patched, GuardFails;
    var u := UpdateDoc(ram, c, key, updates, now, accepts);
    if u.Updated? {
      var e := LogEntry(IKEY_INSERT, c, key, u.value, at);
      assert [e][1..] == [];
      assert ApplyAll(ApplyEntry(ram.docs, e), []) == ApplyEntry(ram.docs, e);
    }
  }

  lemma DropApply(ram: Ram, c: Text, at: u64)
    ensures DropCollection(ram, c).docs == ApplyAll(ram.docs, [LogEntry(IKEY_DROP, c, STAR, Null, at)])
  {
    hide Encode;
    var e := LogEntry(IKEY_DROP, c, STAR, Null, at);
    assert [e][1..] == [];
    assert ApplyAll(ApplyEntry(ram.docs, e), []) == ApplyEntry(ram.docs, e);
    assert IKEY_DROP[2] != IKEY_INSERT[2] && IKEY_DROP[2] != IKEY_DELETE[2];
  }

  // ----- Live memory and the disk -----

  lemma StoredTwice(v: Value)
    requires Storable(v)
    ensures Decode(Encode(Canon(v))) == Decode(Encode(v))
  {
    hide Encode, Decode, Canon;
    DecodeEncode(v);
    CanonStorable(v);
    DecodeEncode(Canon(v));
    CanonIdempotent(v);
  }

  /** Reading entries back from the log does not change what they do to any key. */
  lemma {:induction false} CanonEffects(es: seq<LogEntry>, c: Text, k: Text, before: Option<Value>)
    requires IsBody(es) && AllStorable(es)
    ensures Outcome(before, LastEffect(CanonLog(es), c, k)) == Outcome(before, LastEffect(es, c, k))
    ensures LastEffect(CanonLog(es), c, k).Keep? <==> LastEffect(es, c, k).Keep?
  {
    hide Encode, Decode, Canon, CanonCommand;
    if es != [] {
      CanonEffects(es[1..], c, k, before);
      assert CanonLog(es)[1..] == CanonLog(es[1..]);
      IkeysFixed(es[0].cmd);
      StoredTwice(es[0].value);
    }
  }

  lemma CanonSame(docs: Docs, rec: Docs, body: seq<LogEntry>)
    requires SameDocs(rec, docs) && IsBody(body) && AllStorable(body)
    ensures SameDocs(ApplyAll(rec, CanonLog(body)), ApplyAll(docs, body))
  {
    hide ApplyAll, DocAt, LastEffect, Outcome;
    forall c, k ensures DocAt(ApplyAll(rec, CanonLog(body)), c, k) == DocAt(ApplyAll(docs, body), c, k) {
      ApplyAllEffect(rec, CanonLog(body), c, k);
      ApplyAllEffect(docs, body, c, k);
      CanonEffects(body, c, k, DocAt(rec, c, k));
      assert DocAt(rec, c, k) == DocAt(docs, c, k);
    }
  }
}
