/** The in-memory engine: documents, `_seq` counters and the ordered `_seq` index, and what each
    write operation does to them and appends to the log. */
module Engine {
  import opened Bytes
  import opened Json
  import opened Codec
  import opened Canonical
  import opened Tokens
  import opened LogCodec
  import opened Replay
  import opened Documents
  import opened Order

  datatype Ram = Ram(docs: Docs, counters: map<Text, u64>, index: map<Text, map<u64, Text>>)

  const EMPTY := Ram(map[], map[], map[])

  /** One document of an insert batch with the time at which it is stamped. */
  datatype Item = Item(key: Text, value: Value, now: u64)

  /** The time at which an operation writes its i-th log entry. */
  type Clock = nat -> u64

  /** Acceptance by the JSON schema of a collection. */
  type Schema = (Text, Value) -> bool

  function Counter(ram: Ram, c: Text): u64 {
    if c in ram.counters then ram.counters[c] else 0
  }

  function IndexOf(ram: Ram, c: Text): map<u64, Text> {
    if c in ram.index then ram.index[c] else map[]
  }

  // ----- Insert -----

  /** The document to store: stamped afresh, or carrying on from the one it overwrites. */
  function Prepared(existing: Option<Value>, item: Item, s: u64): Value {
    if !item.value.Obj? then item.value
    else
      match existing
      case None => Obj(Stamp(item.value.fields, 1, item.now, item.now, s))
      case Some(d) =>
        Obj(Stamp(item.value.fields, Wrap(Or(U64At(d, IKEY_VERSION), 0) + 1),
                  Or(U64At(d, IKEY_CREATED_AT), item.now), item.now, Or(U64At(d, IKEY_SEQ), s)))
  }

  datatype Written = Rejected(ram: Ram) | Stored(ram: Ram, value: Value)

  /** One item of a batch. The counter moves even when the schema rejects the document. */
  function InsertItem(ram: Ram, c: Text, item: Item, accepts: Schema): Written {
    var s := Counter(ram, c);
    var counters := ram.counters[c := Wrap(s + 1)];
    var existing := DocAt(ram.docs, c, item.key);
    var value := Prepared(existing, item, s);
    if (existing.Some? || item.value.Obj?) && !accepts(c, value) then Rejected(ram.(counters := counters))
    else
      Stored(Ram(ram.docs[c := CollectionOf(ram.docs, c)[item.key := Encode(value)]],
                 counters,
                 ram.index[c := IndexOf(ram, c)[Or(U64At(value, IKEY_SEQ), s) := item.key]]),
             value)
  }

  datatype Batch = Batch(ram: Ram, body: seq<LogEntry>, ok: bool)

  /** The item loop: stops at the first rejected document. */
  function InsertItems(ram: Ram, c: Text, items: seq<Item>, accepts: Schema, t: Clock, body: seq<LogEntry>): Batch
    decreases items
  {
    if items == [] then Batch(ram, body, true)
    else
      match InsertItem(ram, c, items[0], accepts)
      case Rejected(ram') => Batch(ram', body, false)
      case Stored(ram', value) =>
        InsertItems(ram', c, items[1..], accepts, t,
                    body + [LogEntry(IKEY_INSERT, c, items[0].key, value, t(|body| + 1))])
  }

  /** The collection is created before its first item is looked at. */
  function Touch(ram: Ram, c: Text): Ram {
    ram.(docs := ram.docs[c := CollectionOf(ram.docs, c)])
  }

  function InsertBatch(ram: Ram, c: Text, items: seq<Item>, accepts: Schema, t: Clock): Batch {
    InsertItems(Touch(ram, c), c, items, accepts, t, [])
  }

  // ----- Update -----

  datatype UpdateOutcome = NotFound | Conflict | Invalid | Updated(ram: Ram, value: Value)

  /** `_v` in an update object is a guard on the current version. */
  predicate GuardFails(d: Value, updates: Value) {
    updates.Obj? && U64At(updates, VERSION).Some?
    && U64At(updates, VERSION).value != Or(U64At(d, IKEY_VERSION), 0)
  }

  function Patched(d: Value, updates: Value, now: u64): Value {
    if updates.Obj? && d.Obj? then
      Obj(Merged(d.fields, updates.fields, Wrap(Or(U64At(d, IKEY_VERSION), 0) + 1), now))
    else d
  }

  function UpdateDoc(ram: Ram, c: Text, key: Text, updates: Value, now: u64, accepts: Schema): UpdateOutcome {
    match DocAt(ram.docs, c, key)
    case None => NotFound
    case Some(d) =>
      if GuardFails(d, updates) then Conflict
      else if !accepts(c, Patched(d, updates, now)) then Invalid
      else
        Updated(ram.(docs := ram.docs[c := ram.docs[c][key := Encode(Patched(d, updates, now))]]),
                Patched(d, updates, now))
  }

  // ----- Delete -----

  function DeleteKey(ram: Ram, c: Text, key: Text): Ram
    requires c in ram.docs
  {
    var index :=
      if key in ram.docs[c] && c in ram.index
      then ram.index[c := ram.index[c] - {SeqOf(ram.docs[c][key])}] else ram.index;
    Ram(ram.docs[c := ram.docs[c] - {key}], ram.counters, index)
  }

  function DeleteKeys(ram: Ram, c: Text, keys: seq<Text>): (r: Ram)
    requires c in ram.docs
    ensures c in r.docs
    decreases keys
  {
    if keys == [] then ram else DeleteKeys(DeleteKey(ram, c, keys[0]), c, keys[1..])
  }

  function DeleteEntries(c: Text, keys: seq<Text>, t: Clock): (es: seq<LogEntry>)
    ensures |es| == |keys|
  {
    seq(|keys|, i requires 0 <= i < |keys| => LogEntry(IKEY_DELETE, c, keys[i], Null, t(i + 1)))
  }

  /** Deleting from a collection that does not exist does nothing. */
  function DeleteBatch(ram: Ram, c: Text, keys: seq<Text>, t: Clock): Batch {
    if c in ram.docs then Batch(DeleteKeys(ram, c, keys), DeleteEntries(c, keys, t), true)
    else Batch(ram, [], true)
  }

  /** `Db::delete_collection`: the counter restarts as well. */
  function DropCollection(ram: Ram, c: Text): Ram {
    Ram(ram.docs - {c}, ram.counters - {c}, ram.index - {c})
  }

  // ----- The index invariant -----

  /** `_seq` of every key, read from the raw bytes. */
  ghost function RankOf(col: Collection): Rank {
    map k | k in col :: SeqOf(col[k])
  }

  /** Every document is sound, the index is exactly the graph from `_seq` to key, and the counter
      is above every `_seq` in use. Distinctness of `_seq` follows from the graph. */
  ghost predicate CollectionInv(col: Collection, idx: map<u64, Text>, counter: u64) {
    && (forall k | k in col :: Sound(col[k]) && SeqOf(col[k]) < counter)
    && IsGraph(idx, RankOf(col))
  }

  ghost predicate Inv(ram: Ram) {
    forall c :: CollectionInv(CollectionOf(ram.docs, c), IndexOf(ram, c), Counter(ram, c))
  }

  lemma EmptyInv()
    ensures Inv(EMPTY)
  {
  }

  lemma EmptyCollectionInv()
    ensures CollectionInv(map[], map[], 0)
  {
    hide Sound, SeqOf;
  }

  lemma DistinctSeqs(col: Collection, idx: map<u64, Text>, counter: u64)
    requires CollectionInv(col, idx, counter)
    ensures Injective(RankOf(col))
  {
  }

  lemma PutInv(col: Collection, idx: map<u64, Text>, counter: u64, counter': u64, k: Text, b: Bytes)
    requires CollectionInv(col, idx, counter) && counter <= counter' && Sound(b) && SeqOf(b) < counter'
    requires if k in col then SeqOf(col[k]) == SeqOf(b) else SeqOf(b) >= counter
    ensures CollectionInv(col[k := b], idx[SeqOf(b) := k], counter')
  {
    hide Sound, SeqOf;
    assert forall s | s in idx :: RankOf(col)[idx[s]] == s && s < counter;
    GraphPut(idx, RankOf(col), k, SeqOf(b));
    assert RankOf(col[k := b]) == RankOf(col)[k := SeqOf(b)];
  }

  lemma CounterUp(col: Collection, idx: map<u64, Text>, counter: u64, counter': u64)
    requires CollectionInv(col, idx, counter) && counter <= counter'
    ensures CollectionInv(col, idx, counter')
  {
    hide Sound, SeqOf, IsGraph;
  }

  lemma RemoveInv(col: Collection, idx: map<u64, Text>, counter: u64, k: Text)
    requires CollectionInv(col, idx, counter)
    ensures CollectionInv(col - {k}, if k in col then idx - {SeqOf(col[k])} else idx, counter)
  {
    hide Sound, SeqOf;
    GraphRemove(idx, RankOf(col), k);
    assert RankOf(col - {k}) == RankOf(col) - {k};
  }

  /** Two states that differ at most in collection `c`. */
  ghost predicate SameElsewhere(a: Ram, b: Ram, c: Text) {
    forall d | d != c ::
      CollectionOf(a.docs, d) == CollectionOf(b.docs, d) && IndexOf(a, d) == IndexOf(b, d) && Counter(a, d) == Counter(b, d)
  }

  lemma InvElsewhere(a: Ram, b: Ram, c: Text)
    requires Inv(a) && SameElsewhere(a, b, c)
    requires CollectionInv(CollectionOf(b.docs, c), IndexOf(b, c), Counter(b, c))
    ensures Inv(b)
  {
    hide CollectionInv;
    forall d ensures CollectionInv(CollectionOf(b.docs, d), IndexOf(b, d), Counter(b, d)) {
      assert CollectionInv(CollectionOf(a.docs, d), IndexOf(a, d), Counter(a, d));
    }
  }

  /** An insert item as the set handler lets through. */
  predicate GoodItem(item: Item) {
    item.value.Obj? && WellOrdered(item.value) && Unreserved(item.value.fields)
  }

  /** What the stored document of an item looks like when read back. */
  lemma PreparedReadsBack(existing: Option<Value>, item: Item, s: u64)
    requires GoodItem(item) && Storable(Prepared(existing, item, s))
    ensures var v := Prepared(existing, item, s); var b := Encode(v);
            Sound(b) && Decode(b) == Some(Canon(v))
            && SeqOf(b) == (match existing case None => s case Some(d) => Or(U64At(d, IKEY_SEQ), s))
            && U64At(Canon(v), IKEY_VERSION)
               == Some(match existing case None => 1 case Some(d) => Wrap(Or(U64At(d, IKEY_VERSION), 0) + 1))
            && U64At(Canon(v), IKEY_CREATED_AT)
               == Some(match existing case None => item.now case Some(d) => Or(U64At(d, IKEY_CREATED_AT), item.now))
            && U64At(v, IKEY_SEQ) == Some(SeqOf(b))
  {
    hide Sound, SeqOf, Encode, Decode, Storable, Unreserved, Ordered, Canon, Stamp, Lookup, Wrap;
    var fs := item.value.fields;
    match existing
    case None =>
      StampReadsBack(fs, 1, item.now, item.now, s);
      StampFields(fs, 1, item.now, item.now, s);
    case Some(d) =>
      var v, cr, s' := Wrap(Or(U64At(d, IKEY_VERSION), 0) + 1), Or(U64At(d, IKEY_CREATED_AT), item.now),
                       Or(U64At(d, IKEY_SEQ), s);
      StampReadsBack(fs, v, cr, item.now, s');
      StampFields(fs, v, cr, item.now, s');
  }

  lemma SoundSeq(b: Bytes)
    requires Sound(b)
    ensures Decode(b).Some? && Decode(b).value.Obj? && U64At(Decode(b).value, IKEY_SEQ) == Some(SeqOf(b))
  {
  }

  /** A key is live exactly when its document decodes, and then the decoded `_seq` is the raw one. */
  lemma ExistingSeq(ram: Ram, c: Text, k: Text)
    requires Inv(ram)
    ensures var col := CollectionOf(ram.docs, c);
            match DocAt(ram.docs, c, k)
            case None => k !in col
            case Some(d) => k in col && Sound(col[k]) && U64At(d, IKEY_SEQ) == Some(SeqOf(col[k])) && SeqOf(col[k]) < Counter(ram, c)
  {
    hide Sound, SeqOf, Decode, IsGraph, U64At;
    var col := CollectionOf(ram.docs, c);
    assert CollectionInv(col, IndexOf(ram, c), Counter(ram, c));
    if k in col { SoundSeq(col[k]); }
  }

  lemma InsertItemElsewhere(ram: Ram, c: Text, item: Item, accepts: Schema)
    ensures SameElsewhere(ram, InsertItem(ram, c, item, accepts).ram, c)
  {
    hide Encode, Prepared, U64At, DocAt;
  }

  /** The three entries of collection `c` after an item. */
  lemma InsertItemHere(ram: Ram, c: Text, item: Item, accepts: Schema)
    ensures var w := InsertItem(ram, c, item, accepts);
            Counter(w.ram, c) == Next(Counter(ram, c))
            && (w.Rejected? ==> CollectionOf(w.ram.docs, c) == CollectionOf(ram.docs, c) && IndexOf(w.ram, c) == IndexOf(ram, c))
            && (w.Stored? ==>
                  w.value == Prepared(DocAt(ram.docs, c, item.key), item, Counter(ram, c))
                  && CollectionOf(w.ram.docs, c) == CollectionOf(ram.docs, c)[item.key := Encode(w.value)]
                  && IndexOf(w.ram, c) == IndexOf(ram, c)[Or(U64At(w.value, IKEY_SEQ), Counter(ram, c)) := item.key])
  {
    hide Encode, Prepared, U64At, DocAt;
  }

  lemma InsertItemInv(ram: Ram, c: Text, item: Item, accepts: Schema)
    requires Inv(ram) && GoodItem(item) && Counter(ram, c) < TWO_64 - 1
    requires InsertItem(ram, c, item, accepts).Stored? ==> Storable(InsertItem(ram, c, item, accepts).value)
    ensures Inv(InsertItem(ram, c, item, accepts).ram)
    ensures Counter(InsertItem(ram, c, item, accepts).ram, c) == Counter(ram, c) + 1
  {
    hide Sound, SeqOf, Encode, Storable, Prepared, U64At, GoodItem, CollectionInv, DocAt, InsertItem, SameElsewhere,
         CollectionOf, IndexOf, Counter;
    var w := InsertItem(ram, c, item, accepts);
    var col, idx, s := CollectionOf(ram.docs, c), IndexOf(ram, c), Counter(ram, c);
    assert CollectionInv(col, idx, s);
    InsertItemHere(ram, c, item, accepts);
    if w.Stored? {
      PreparedReadsBack(DocAt(ram.docs, c, item.key), item, s);
      ExistingSeq(ram, c, item.key);
      PutInv(col, idx, s, s + 1, item.key, Encode(w.value));
    } else {
      CounterUp(col, idx, s, s + 1);
    }
    InsertItemElsewhere(ram, c, item, accepts);
    InvElsewhere(ram, w.ram, c);
  }

  lemma TouchInv(ram: Ram, c: Text)
    requires Inv(ram)
    ensures Inv(Touch(ram, c)) && Counter(Touch(ram, c), c) == Counter(ram, c)
  {
    hide CollectionInv;
    var r := Touch(ram, c);
    assert CollectionInv(CollectionOf(ram.docs, c), IndexOf(ram, c), Counter(ram, c));
    InvElsewhere(ram, r, c);
  }

  predicate GoodItems(items: seq<Item>) {
    forall i | 0 <= i < |items| :: GoodItem(items[i])
  }

  predicate AllStorable(body: seq<LogEntry>) {
    forall i | 0 <= i < |body| :: Storable(body[i].value)
  }

  /** The body only grows. */
  lemma {:induction false} InsertItemsBody(ram: Ram, c: Text, items: seq<Item>, accepts: Schema, t: Clock, body: seq<LogEntry>)
    ensures body <= InsertItems(ram, c, items, accepts, t, body).body
    decreases items
  {
    if items != [] {
      var w := InsertItem(ram, c, items[0], accepts);
      if w.Stored? {
        InsertItemsBody(w.ram, c, items[1..], accepts, t,
                        body + [LogEntry(IKEY_INSERT, c, items[0].key, w.value, t(|body| + 1))]);
      }
    }
  }

  /** The index invariant survives every batch, whether it completes or stops at a rejected item. */
  lemma {:induction false} InsertItemsInv(ram: Ram, c: Text, items: seq<Item>, accepts: Schema, t: Clock, body: seq<LogEntry>)
    requires Inv(ram) && GoodItems(items) && Counter(ram, c) + |items| < TWO_64
    requires AllStorable(InsertItems(ram, c, items, accepts, t, body).body)
    ensures Inv(InsertItems(ram, c, items, accepts, t, body).ram)
    decreases items
  {
    if items != [] {
      var w := InsertItem(ram, c, items[0], accepts);
      if w.Stored? {
        var e := LogEntry(IKEY_INSERT, c, items[0].key, w.value, t(|body| + 1));
        InsertItemsBody(w.ram, c, items[1..], accepts, t, body + [e]);
        assert (body + [e])[|body|] == e;
        InsertItemInv(ram, c, items[0], accepts);
        InsertItemsInv(w.ram, c, items[1..], accepts, t, body + [e]);
      } else {
        InsertItemInv(ram, c, items[0], accepts);
      }
    }
  }

  lemma UpdateInv(ram: Ram, c: Text, key: Text, updates: Value, now: u64, accepts: Schema)
    requires Inv(ram) && UpdateDoc(ram, c, key, updates, now, accepts).Updated?
    requires updates.Obj? ==> KeepsIdentity(updates.fields)
    requires Storable(UpdateDoc(ram, c, key, updates, now, accepts).value)
    ensures Inv(UpdateDoc(ram, c, key, updates, now, accepts).ram)
  {
    hide Sound, SeqOf, Encode, Decode, Storable, Patched, GuardFails;
    var u := UpdateDoc(ram, c, key, updates, now, accepts);
    var col, idx, s := CollectionOf(ram.docs, c), IndexOf(ram, c), Counter(ram, c);
    assert CollectionInv(col, idx, s);
    PatchReadsBack(col[key], updates, now);
    PutInv(col, idx, s, s, key, Encode(u.value));
    assert RankOf(col)[key] == SeqOf(col[key]);
    assert idx[SeqOf(col[key]) := key] == idx;
    InvElsewhere(ram, u.ram, c);
  }

  /** What the stored document of an update looks like when read back. */
  lemma PatchReadsBack(old_: Bytes, updates: Value, now: u64)
    requires Sound(old_) && (updates.Obj? ==> KeepsIdentity(updates.fields))
    requires Storable(Patched(Decode(old_).value, updates, now))
    ensures var d := Decode(old_).value; var v := Patched(d, updates, now); var b := Encode(v);
            Sound(b) && Decode(b) == Some(Canon(v)) && SeqOf(b) == SeqOf(old_)
            && (updates.Obj? ==> U64At(Canon(v), IKEY_VERSION) == Some(Wrap(Or(U64At(d, IKEY_VERSION), 0) + 1)))
            && U64At(Canon(v), IKEY_CREATED_AT) == U64At(d, IKEY_CREATED_AT)
  {
    hide SeqOf, Encode, Decode, Storable, KeepsIdentity, Merged, ReadToken;
    var d := Decode(old_).value;
    SoundSeq(old_);
    if updates.Obj? {
      MergedReadsBack(d.fields, updates.fields, Wrap(Or(U64At(d, IKEY_VERSION), 0) + 1), now, SeqOf(old_));
    } else {
      CanonFixed(d);
      CanonHasNoPublicKeys(d.fields, 3);
      StoredIsSound(d.fields, SeqOf(old_));
    }
  }

  lemma DeleteKeyInv(ram: Ram, c: Text, key: Text)
    requires Inv(ram) && c in ram.docs
    ensures Inv(DeleteKey(ram, c, key))
  {
    hide CollectionInv, SeqOf;
    var r := DeleteKey(ram, c, key);
    assert CollectionInv(CollectionOf(ram.docs, c), IndexOf(ram, c), Counter(ram, c));
    RemoveInv(ram.docs[c], IndexOf(ram, c), Counter(ram, c), key);
    if key in ram.docs[c] && c !in ram.index {
      assert IndexOf(ram, c) - {SeqOf(ram.docs[c][key])} == IndexOf(ram, c);
    }
    InvElsewhere(ram, r, c);
  }

  lemma {:induction false} DeleteKeysInv(ram: Ram, c: Text, keys: seq<Text>)
    requires Inv(ram) && c in ram.docs
    ensures Inv(DeleteKeys(ram, c, keys))
    decreases keys
  {
    if keys != [] {
      DeleteKeyInv(ram, c, keys[0]);
      DeleteKeysInv(DeleteKey(ram, c, keys[0]), c, keys[1..]);
    }
  }

  lemma {:induction false} DeleteKeysDocs(ram: Ram, c: Text, keys: seq<Text>)
    requires c in ram.docs
    ensures DeleteKeys(ram, c, keys).docs == ram.docs[c := ram.docs[c] - Elems(keys)]
    ensures DeleteKeys(ram, c, keys).counters == ram.counters
    decreases keys
  {
    if keys == [] {
      assert ram.docs[c] - Elems(keys) == ram.docs[c];
    } else {
      DeleteKeysDocs(DeleteKey(ram, c, keys[0]), c, keys[1..]);
      assert ram.docs[c] - {keys[0]} - Elems(keys[1..]) == ram.docs[c] - Elems(keys);
    }
  }

  lemma DropInv(ram: Ram, c: Text)
    requires Inv(ram)
    ensures Inv(DropCollection(ram, c))
  {
    hide CollectionInv;
    var r := DropCollection(ram, c);
    EmptyCollectionInv();
    InvElsewhere(ram, r, c);
  }
}
