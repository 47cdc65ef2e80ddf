/** The version chain: as long as a document is not removed, every write to it raises the decoded
    `_v` by one and keeps `_createdAt` and `_seq`. */
module Versions {
  import opened Bytes
  import opened Json
  import opened Codec
  import opened Canonical
  import opened Tokens
  import opened LogCodec
  import opened Replay
  import opened Documents
  import opened Order
  import opened Engine
  import opened Runs
  import opened Durability
  import opened Invariants

  /** Decoded `_v`; 0 for a document that does not exist. */
  function VersionAt(docs: Docs, c: Text, k: Text): u64 {
    match DocAt(docs, c, k) case None => 0 case Some(d) => Or(U64At(d, IKEY_VERSION), 0)
  }

  /** Decoded `_createdAt`. */
  function CreatedAt(docs: Docs, c: Text, k: Text): Option<u64> {
    match DocAt(docs, c, k) case None => None case Some(d) => U64At(d, IKEY_CREATED_AT)
  }

  function SeqAt(docs: Docs, c: Text, k: Text): Option<u64> {
    match DocAt(docs, c, k) case None => None case Some(d) => U64At(d, IKEY_SEQ)
  }

  /** `n` writes later: `_v` raised by `n`, and identity kept if the document was there. */
  ghost predicate Advanced(before: Docs, after: Docs, c: Text, k: Text, n: nat) {
    && VersionAt(after, c, k) == Wrap(VersionAt(before, c, k) + n)
    && (CreatedAt(before, c, k).Some? ==> CreatedAt(after, c, k) == CreatedAt(before, c, k))
    && (SeqAt(before, c, k).Some? ==> SeqAt(after, c, k) == SeqAt(before, c, k))
  }

  lemma WrapAdd(x: nat, a: nat, b: nat)
    ensures Wrap(Wrap(x + a) + b) == Wrap(x + a + b)
  {
  }

  lemma AdvancedTransitive(a: Docs, b: Docs, d: Docs, c: Text, k: Text, m: nat, n: nat)
    requires Advanced(a, b, c, k, m) && Advanced(b, d, c, k, n)
    ensures Advanced(a, d, c, k, m + n)
  {
    hide DocAt, U64At, Wrap;
    WrapAdd(VersionAt(a, c, k), m, n);
  }

  lemma AdvancedSame(a: Docs, b: Docs, c: Text, k: Text)
    requires DocAt(a, c, k) == DocAt(b, c, k)
    ensures Advanced(a, b, c, k, 0)
  {
    hide DocAt, U64At;
  }

  /** How many entries of a body store the document. */
  function Puts(body: seq<LogEntry>, c: Text, k: Text): nat {
    if body == [] then 0
    else Puts(body[..|body| - 1], c, k) + (if EffectOf(body[|body| - 1], c, k).Put? then 1 else 0)
  }

  /** No entry of the body removes the document. */
  ghost predicate Spares(body: seq<LogEntry>, c: Text, k: Text) {
    forall i | 0 <= i < |body| :: EffectOf(body[i], c, k) != Gone
  }

  lemma PutsSnoc(body: seq<LogEntry>, e: LogEntry, c: Text, k: Text)
    ensures Puts(body + [e], c, k) == Puts(body, c, k) + if EffectOf(e, c, k).Put? then 1 else 0
  {
    assert (body + [e])[..|body|] == body;
  }

  lemma InsertItemAdvances(ram: Ram, cc: Text, item: Item, accepts: Schema, c: Text, k: Text)
    requires Inv(ram) && GoodItem(item)
    requires InsertItem(ram, cc, item, accepts).Stored? && Storable(InsertItem(ram, cc, item, accepts).value)
    ensures Advanced(ram.docs, InsertItem(ram, cc, item, accepts).ram.docs, c, k, if (c, k) == (cc, item.key) then 1 else 0)
  {
    hide Encode, Decode, Prepared, Storable, GoodItem, SeqOf, Canon, Sound, U64At, Inv, Wrap;
    if (c, k) == (cc, item.key) {
      var w := InsertItem(ram, cc, item, accepts);
      PreparedReadsBack(DocAt(ram.docs, c, k), item, Counter(ram, c));
      SoundSeq(Encode(w.value));
      SmallWrap();
    } else {
      AdvancedSame(ram.docs, InsertItem(ram, cc, item, accepts).ram.docs, c, k);
    }
  }

  lemma SmallWrap()
    ensures Wrap(1) == 1 && forall x: u64 :: Wrap(x) == x
  {
  }

  lemma {:induction false} InsertItemsAdvance(start: Docs, ram: Ram, cc: Text, items: seq<Item>, accepts: Schema, t: Clock, body: seq<LogEntry>, c: Text, k: Text)
    requires Inv(ram) && GoodItems(items) && Counter(ram, cc) + |items| < TWO_64
    requires AllStorable(InsertItems(ram, cc, items, accepts, t, body).body)
    requires Advanced(start, ram.docs, c, k, Puts(body, c, k))
    ensures var b := InsertItems(ram, cc, items, accepts, t, body);
            Advanced(start, b.ram.docs, c, k, Puts(b.body, c, k))
    decreases items
  {
    hide Advanced, Inv, GoodItem, Storable, Puts, Encode, Decode, Prepared;
    if items != [] {
      var w := InsertItem(ram, cc, items[0], accepts);
      if w.Stored? {
        var e := LogEntry(IKEY_INSERT, cc, items[0].key, w.value, t(|body| + 1));
        InsertItemsBody(w.ram, cc, items[1..], accepts, t, body + [e]);
        assert (body + [e])[|body|] == e;
        InsertItemInv(ram, cc, items[0], accepts);
        InsertItemAdvances(ram, cc, items[0], accepts, c, k);
        PutsSnoc(body, e, c, k);
        var one := if (c, k) == (cc, items[0].key) then 1 else 0;
        AdvancedTransitive(start, ram.docs, w.ram.docs, c, k, Puts(body, c, k), one);
        InsertItemsAdvance(start, w.ram, cc, items[1..], accepts, t, body + [e], c, k);
      }
    }
  }

  /** A body that neither stores nor removes the document leaves it alone. */
  lemma {:induction false} SparedUntouched(body: seq<LogEntry>, c: Text, k: Text)
    requires Spares(body, c, k) && Puts(body, c, k) == 0
    ensures LastEffect(body, c, k) == Keep
  {
    var n := |body|;
    if n > 0 {
      SparedUntouched(body[..n - 1], c, k);
      LastEffectSnoc(body[..n - 1], body[n - 1], c, k);
      assert body == body[..n - 1] + [body[n - 1]];
    }
  }

  lemma {:induction false} LastEffectSnoc(body: seq<LogEntry>, e: LogEntry, c: Text, k: Text)
    requires EffectOf(e, c, k) == Keep
    ensures LastEffect(body + [e], c, k) == LastEffect(body, c, k)
  {
    if body == [] {
      assert [e][1..] == [];
    } else {
      LastEffectSnoc(body[1..], e, c, k);
      assert (body + [e])[1..] == body[1..] + [e];
    }
  }

  /** One write: `_v` of a spared document rises by the number of times the write stores it. */
  lemma TransactionAdvances(ram: Ram, op: Op, accepts: Schema, c: Text, k: Text)
    requires !op.Compact? && !op.Crash? && Transaction(ram, op, accepts).Some?
    requires Inv(ram) && AllStorable(Transaction(ram, op, accepts).value.body)
    requires op.Insert? ==> GoodItems(op.items) && Counter(ram, op.c) + |op.items| < TWO_64
    requires op.Update? ==> op.updates.Obj? && KeepsIdentity(op.updates.fields)
    requires Spares(Transaction(ram, op, accepts).value.body, c, k)
    ensures var x := Transaction(ram, op, accepts).value; Advanced(ram.docs, x.ram.docs, c, k, Puts(x.body, c, k))
  {
    var x := Transaction(ram, op, accepts).value;
    if op.Insert? {
      hide Advanced, Inv, GoodItems, Storable, InsertItems, DocAt, Puts;
      TouchInv(ram, op.c);
      var start := Touch(ram, op.c);
      TouchSame(ram, op.c, c, k);
      assert Puts([], c, k) == 0 by { NoPuts(c, k); }
      AdvancedSame(ram.docs, start.docs, c, k);
      InsertItemsAdvance(ram.docs, start, op.c, op.items, accepts, op.t, [], c, k);
    } else if op.Update? {
      UpdateAdvances(ram, op, accepts, c, k);
    } else {
      hide Advanced, Inv, ApplyAll, Transaction, DocAt, Storable, LastEffect;
      TransactionApply(ram, op, accepts);
      ApplyAllEffect(ram.docs, x.body, c, k);
      NoInserts(ram, op, accepts, c, k);
      SparedUntouched(x.body, c, k);
      AdvancedSame(ram.docs, x.ram.docs, c, k);
    }
  }

  lemma NoPuts(c: Text, k: Text)
    ensures Puts([], c, k) == 0
  {
  }

  lemma TouchSame(ram: Ram, cc: Text, c: Text, k: Text)
    ensures DocAt(Touch(ram, cc).docs, c, k) == DocAt(ram.docs, c, k)
  {
    hide Decode;
  }

  lemma {:induction false} NoInsertPuts(body: seq<LogEntry>, c: Text, k: Text)
    requires forall i | 0 <= i < |body| :: body[i].cmd != IKEY_INSERT
    ensures Puts(body, c, k) == 0
  {
    if body != [] { NoInsertPuts(body[..|body| - 1], c, k); }
  }

  lemma NoInserts(ram: Ram, op: Op, accepts: Schema, c: Text, k: Text)
    requires !op.Compact? && !op.Crash? && !op.Insert? && !op.Update? && Transaction(ram, op, accepts).Some?
    ensures Puts(Transaction(ram, op, accepts).value.body, c, k) == 0
  {
    hide CountedKeys, FilteredKeys, EvictedKeys, DeleteKeys, DropCollection, Puts;
    assert IKEY_DELETE[2] != IKEY_INSERT[2] && IKEY_DROP[2] != IKEY_INSERT[2];
    NoInsertPuts(Transaction(ram, op, accepts).value.body, c, k);
  }

  lemma UpdateAdvances(ram: Ram, op: Op, accepts: Schema, c: Text, k: Text)
    requires op.Update? && Inv(ram) && AllStorable(Transaction(ram, op, accepts).value.body)
    requires op.updates.Obj? && KeepsIdentity(op.updates.fields)
    ensures var x := Transaction(ram, op, accepts).value; Advanced(ram.docs, x.ram.docs, c, k, Puts(x.body, c, k))
  {
    hide Encode, Decode, Storable, SeqOf, Canon, Sound, U64At, Wrap, IsGraph, Patched, GuardFails, KeepsIdentity, Puts;
    var x := Transaction(ram, op, accepts).value;
    var u := UpdateDoc(ram, op.c, op.key, op.updates, op.now, accepts);
    if u.Updated? {
      var e := LogEntry(IKEY_INSERT, op.c, op.key, u.value, op.t(1));
      assert x.body == [] + [e] && x.body[0].value == u.value;
      PutsSnoc([], e, c, k);
      NoPuts(c, k);
      if (c, k) == (op.c, op.key) {
        var col := CollectionOf(ram.docs, c);
        assert CollectionInv(col, IndexOf(ram, c), Counter(ram, c));
        SoundSeq(col[k]);
        PatchReadsBack(col[k], op.updates, op.now);
        SoundSeq(Encode(u.value));
      } else {
        AdvancedSame(ram.docs, x.ram.docs, c, k);
      }
    } else {
      NoPuts(c, k);
      AdvancedSame(ram.docs, x.ram.docs, c, k);
    }
  }

  // ----- Guarded updates -----

  /** An object update with an integer guard goes through exactly when the guard is the current
      version (and the schema agrees); otherwise no document changes and nothing is committed. */
  lemma GuardedUpdate(ram: Ram, op: Op, accepts: Schema, guard: u64)
    requires op.Update? && op.updates.Obj? && U64At(op.updates, VERSION) == Some(guard)
    requires Inv(ram) && KeepsIdentity(op.updates.fields) && DocAt(ram.docs, op.c, op.key).Some?
    requires AllStorable(Transaction(ram, op, accepts).value.body)
    requires accepts(op.c, Patched(DocAt(ram.docs, op.c, op.key).value, op.updates, op.now))
    ensures var x := Transaction(ram, op, accepts).value;
            (guard == VersionAt(ram.docs, op.c, op.key) <==> x.committed)
            && (x.committed ==> VersionAt(x.ram.docs, op.c, op.key) == Wrap(guard + 1))
            && (!x.committed ==> x.ram == ram)
  {
    hide Encode, Decode, Storable, SeqOf, Canon, Sound, U64At, Wrap, IsGraph, Patched, KeepsIdentity, Inv;
    UpdateAdvances(ram, op, accepts, op.c, op.key);
    var x := Transaction(ram, op, accepts).value;
    if x.committed {
      var e := x.body[0];
      assert x.body == [] + [e];
      PutsSnoc([], e, op.c, op.key);
      NoPuts(op.c, op.key);
    }
  }
}
