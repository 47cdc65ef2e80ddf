/** What a stored document holds after a write, field by field, read from its stored bytes. */
module Contents {
  import opened Bytes
  import opened Json
  import opened Codec
  import opened Canonical
  import opened Tokens
  import opened LogCodec
  import opened Replay
  import opened Documents
  import opened Order
  import opened Engine
  import opened Runs
  import opened Durability
  import opened Invariants
  import opened Recovery
  import opened Limits
  import opened Positions
  import Walker

  // ----- The claims -----

  /** A field of the user: not a system field under either spelling. */
  predicate IsUserKey(k: Text) {
    TokenOf(k) == 0
  }

  function ReadsAs(x: Option<Value>): Option<Value> {
    match x case None => None case Some(v) => Some(Canon(v))
  }

  /** `d` has exactly the user fields of the inserted object. */
  ghost predicate HoldsFields(d: Value, inserted: Value) {
    d.Obj? && forall k | IsUserKey(k) :: Get(d, k) == ReadsAs(Get(inserted, k))
  }

  /** `d` is what inserting `item` leaves where `existing` was, with `s` as the next free `_seq`. */
  ghost predicate HoldsItem(existing: Option<Value>, d: Value, item: Item, s: u64) {
    && HoldsFields(d, item.value)
    && U64At(d, IKEY_MODIFIED_AT) == Some(item.now)
    && match existing
       case None =>
         U64At(d, IKEY_VERSION) == Some(1) && U64At(d, IKEY_CREATED_AT) == Some(item.now) && U64At(d, IKEY_SEQ) == Some(s)
       case Some(e) =>
         && U64At(d, IKEY_VERSION) == Some(Next(Or(U64At(e, IKEY_VERSION), 0)))
         && U64At(d, IKEY_CREATED_AT) == Some(Or(U64At(e, IKEY_CREATED_AT), item.now))
         && U64At(d, IKEY_SEQ) == Some(Or(U64At(e, IKEY_SEQ), s))
  }

  /** `after` is what the update leaves of `before`: the user fields it names have the new values and
      all others stay; an update that is not an object changes nothing. */
  ghost predicate HoldsUpdate(before: Value, after: Value, updates: Value, now: u64) {
    if updates.Obj? then
      && after.Obj?
      && (forall k | IsUserKey(k) :: Get(after, k) == if Get(updates, k).Some? then ReadsAs(Get(updates, k)) else Get(before, k))
      && U64At(after, IKEY_VERSION) == Some(Next(Or(U64At(before, IKEY_VERSION), 0)))
      && U64At(after, IKEY_MODIFIED_AT) == Some(now)
      && U64At(after, IKEY_CREATED_AT) == U64At(before, IKEY_CREATED_AT)
      && U64At(after, IKEY_SEQ) == U64At(before, IKEY_SEQ)
    else after == before
  }

  /** Every document but those under `keys` of collection `c` is the same. */
  ghost predicate SameBut(a: Docs, b: Docs, c: Text, keys: set<Text>) {
    forall d, k | d != c || k !in keys :: DocAt(a, d, k) == DocAt(b, d, k)
  }

  // ----- One insert -----

  /** Whether or not there was a document: the stored bytes decode to the item's own fields and the
      managed ones. */
  lemma PreparedHolds(existing: Option<Value>, item: Item, s: u64)
    requires GoodItem(item) && Storable(Prepared(existing, item, s))
    ensures var b := Encode(Prepared(existing, item, s)); Decode(b).Some? && HoldsItem(existing, Decode(b).value, item, s)
  {
    hide Encode, Decode, Storable, Unreserved, Ordered, Stamp, Wrap, U64At;
    var fs := item.value.fields;
    match existing
    case None => StampHolds(fs, 1, item.now, item.now, s);
    case Some(e) =>
      StampHolds(fs, Next(Or(U64At(e, IKEY_VERSION), 0)), Or(U64At(e, IKEY_CREATED_AT), item.now), item.now, Or(U64At(e, IKEY_SEQ), s));
  }

  lemma StampHolds(fs: seq<Field>, version: u64, created: u64, now: u64, s: u64)
    requires Ordered(fs) && Unreserved(fs) && Storable(Obj(Stamp(fs, version, created, now, s)))
    ensures var b := Encode(Obj(Stamp(fs, version, created, now, s)));
            && Decode(b).Some? && HoldsFields(Decode(b).value, Obj(fs))
            && U64At(Decode(b).value, IKEY_VERSION) == Some(version) && U64At(Decode(b).value, IKEY_CREATED_AT) == Some(created)
            && U64At(Decode(b).value, IKEY_MODIFIED_AT) == Some(now) && U64At(Decode(b).value, IKEY_SEQ) == Some(s)
  {
    hide Encode, Decode, Storable, Unreserved, Ordered, Stamp, CanonFields, Lookup, Sound, SeqOf, TokenOf;
    StampReadsBack(fs, version, created, now, s);
    StampUnreserved(fs, version, created, now, s);
    var r := Stamp(fs, version, created, now, s);
    forall k | IsUserKey(k) ensures Get(Canon(Obj(r)), k) == ReadsAs(Get(Obj(fs), k)) {
      StampLookup(fs, version, created, now, s, k);
      ManagedKeys();
      Walker.PlainLookup(r, k);
    }
  }

  lemma ManagedKeys()
    ensures !IsUserKey(IKEY_VERSION) && !IsUserKey(IKEY_SEQ) && !IsUserKey(IKEY_CREATED_AT) && !IsUserKey(IKEY_MODIFIED_AT)
    ensures !IsUserKey(VERSION) && !IsUserKey(SEQ) && !IsUserKey(CREATED_AT) && !IsUserKey(MODIFIED_AT)
  {
  }

  /** One item: a stored one is under its key, a rejected one changes no document, and nothing else
      changes either way. */
  lemma ItemContents(ram: Ram, c: Text, item: Item, accepts: Schema)
    requires GoodItem(item)
    ensures var w := InsertItem(ram, c, item, accepts);
            && SameBut(ram.docs, w.ram.docs, c, {item.key})
            && (w.Rejected? ==> w.ram.docs == ram.docs)
            && (w.Stored? && Storable(w.value) ==>
                  var d := DocAt(w.ram.docs, c, item.key);
                  accepts(c, w.value) && d.Some? && HoldsItem(DocAt(ram.docs, c, item.key), d.value, item, Counter(ram, c)))
  {
    hide Encode, Decode, Storable, Prepared, HoldsItem;
    var w := InsertItem(ram, c, item, accepts);
    if w.Stored? && Storable(w.value) {
      PreparedHolds(DocAt(ram.docs, c, item.key), item, Counter(ram, c));
    }
  }

  // ----- A batch -----

  /** No later item has the same key. */
  predicate LastUnderKey(items: seq<Item>, i: nat)
    requires i < |items|
  {
    forall j | i < j < |items| :: items[j].key != items[i].key
  }

  function BatchKeys(items: seq<Item>): set<Text> {
    set i | 0 <= i < |items| :: items[i].key
  }

  /** After the batch each key holds the user fields of the last item under it. */
  ghost predicate HoldsBatch(docs: Docs, c: Text, items: seq<Item>) {
    forall i | 0 <= i < |items| && LastUnderKey(items, i) ::
      DocAt(docs, c, items[i].key).Some? && HoldsFields(DocAt(docs, c, items[i].key).value, items[i].value)
  }

  lemma {:induction false} ItemsContents(ram: Ram, c: Text, items: seq<Item>, accepts: Schema, t: Clock, body: seq<LogEntry>)
    requires GoodItems(items)
    ensures var b := InsertItems(ram, c, items, accepts, t, body);
            && SameBut(ram.docs, b.ram.docs, c, BatchKeys(items))
            && (b.ok && AllStorable(b.body) ==> HoldsBatch(b.ram.docs, c, items))
    decreases items
  {
    hide InsertItem, HoldsItem, HoldsFields, Storable, DocAt, GoodItem;
    if items != [] {
      var w := InsertItem(ram, c, items[0], accepts);
      assert GoodItem(items[0]) && items[0].key in BatchKeys(items);
      ItemContents(ram, c, items[0], accepts);
      if w.Stored? {
        var rest := items[1..];
        var e := LogEntry(IKEY_INSERT, c, items[0].key, w.value, t(|body| + 1));
        ItemsContents(w.ram, c, rest, accepts, t, body + [e]);
        InsertItemsBody(w.ram, c, rest, accepts, t, body + [e]);
        RestKeys(items);
        var b := InsertItems(ram, c, items, accepts, t, body);
        if b.ok && AllStorable(b.body) {
          assert b.body[|body|] == e;
          FirstHolds(ram, w.ram, b.ram, c, items, accepts);
        }
      }
    }
  }

  lemma RestKeys(items: seq<Item>)
    requires items != []
    ensures BatchKeys(items) == {items[0].key} + BatchKeys(items[1..])
  {
    forall k | k in BatchKeys(items) ensures k in {items[0].key} + BatchKeys(items[1..]) {
      var i :| 0 <= i < |items| && items[i].key == k;
      if i > 0 { assert items[1..][i - 1].key == k; }
    }
    forall k | k in BatchKeys(items[1..]) ensures k in BatchKeys(items) {
      var i :| 0 <= i < |items| - 1 && items[1..][i].key == k;
      assert items[i + 1].key == k;
    }
  }

  /** The first item of a batch is still there at the end, unless a later one has its key. */
  lemma FirstHolds(ram: Ram, mid: Ram, end: Ram, c: Text, items: seq<Item>, accepts: Schema)
    requires items != [] && SameBut(mid.docs, end.docs, c, BatchKeys(items[1..])) && HoldsBatch(end.docs, c, items[1..])
    requires DocAt(mid.docs, c, items[0].key).Some?
    requires HoldsItem(DocAt(ram.docs, c, items[0].key), DocAt(mid.docs, c, items[0].key).value, items[0], Counter(ram, c))
    ensures HoldsBatch(end.docs, c, items)
  {
    hide HoldsFields, DocAt;
    var rest := items[1..];
    forall i | 0 <= i < |items| && LastUnderKey(items, i)
      ensures DocAt(end.docs, c, items[i].key).Some? && HoldsFields(DocAt(end.docs, c, items[i].key).value, items[i].value)
    {
      if i > 0 {
        assert rest[i - 1] == items[i];
        assert forall j | i - 1 < j < |rest| :: rest[j] == items[j + 1];
        assert LastUnderKey(rest, i - 1);
      } else {
        assert forall j | 0 <= j < |rest| :: rest[j] == items[j + 1];
        assert items[0].key !in BatchKeys(rest);
      }
    }
  }

  lemma TouchDocs(ram: Ram, c: Text)
    ensures forall d, k :: DocAt(Touch(ram, c).docs, d, k) == DocAt(ram.docs, d, k)
  {
    hide Decode;
  }

  /** An insert step: a batch that goes through holds the last item under each key, and no batch
      changes a document under any other key. */
  lemma InsertContents(s: Store, c: Text, items: seq<Item>, tx: Text, t: Clock, accepts: Schema)
    requires GoodItems(items)
    ensures var op := Runs.Insert(c, items, tx, t); var docs := Step(s, op, accepts).ram.docs;
            && SameBut(s.ram.docs, docs, c, BatchKeys(items))
            && (InsertBatch(s.ram, c, items, accepts, t).ok && StepOk(s, op, accepts) ==> HoldsBatch(docs, c, items))
  {
    hide InsertItems, HoldsBatch, DocAt, Bracket, AllLoggable, AllStorable, Step, GoodItem, Transaction;
    var op := Runs.Insert(c, items, tx, t);
    var b := InsertBatch(s.ram, c, items, accepts, t);
    StepWrites(s, op, accepts);
    InsertTxn(s.ram, op, accepts);
    TouchDocs(s.ram, c);
    ItemsContents(Touch(s.ram, c), c, items, accepts, t, []);
    if StepOk(s, op, accepts) {
      LoggedBodyStorable(s.disk.log, Bracket(c, tx, t, b.body, b.ok), c, tx, t, b.body, b.ok);
    }
  }

  // ----- An update -----

  lemma {:induction false} MergeLookup(fs: seq<Field>, us: seq<Field>, k: Text)
    requires Ordered(us) && k != VERSION && k != CREATED_AT
    ensures Lookup(MergeFields(fs, us), k) == if Lookup(us, k).Some? then Lookup(us, k) else Lookup(fs, k)
    decreases us
  {
    hide Less;
    if us != [] {
      LookupInsert(fs, us[0].key, us[0].val, k);
      if us[0].key == VERSION || us[0].key == CREATED_AT {
        MergeLookup(fs, us[1..], k);
      } else {
        MergeLookup(Json.Insert(fs, us[0].key, us[0].val), us[1..], k);
        if us[0].key == k { FirstKeyOnce(us); }
      }
    }
  }

  lemma FirstKeyOnce(us: seq<Field>)
    requires Ordered(us) && us != []
    ensures Lookup(us[1..], us[0].key) == None
  {
    hide Less;
    LookupKeys(us[1..], us[0].key);
    forall i | 0 <= i < |us| - 1 ensures us[1..][i].key != us[0].key {
      LessTrichotomy(us[0].key, us[i + 1].key);
    }
  }

  /** Stored bytes after an update, against those before it. */
  lemma PatchedHolds(old_: Bytes, updates: Value, now: u64)
    requires Sound(old_) && (updates.Obj? ==> KeepsIdentity(updates.fields) && WellOrdered(updates))
    requires Storable(Patched(Decode(old_).value, updates, now))
    ensures var b := Encode(Patched(Decode(old_).value, updates, now));
            Decode(b).Some? && HoldsUpdate(Decode(old_).value, Decode(b).value, updates, now)
  {
    hide SeqOf, Encode, Decode, Storable, KeepsIdentity, Merged, ReadToken, CanonFields, Lookup, TokenOf, Wrap, FieldsWellOrdered;
    var d := Decode(old_).value;
    SoundSeq(old_);
    if updates.Obj? {
      var v := Next(Or(U64At(d, IKEY_VERSION), 0));
      MergedReadsBack(d.fields, updates.fields, v, now, SeqOf(old_));
      var r := Merged(d.fields, updates.fields, v, now);
      forall k | IsUserKey(k)
        ensures Get(Canon(Obj(r)), k) == if Get(updates, k).Some? then ReadsAs(Get(updates, k)) else Get(d, k)
      {
        ManagedKeys();
        MergedLookup(d.fields, updates.fields, v, now, k);
        MergeLookup(d.fields, updates.fields, k);
        Walker.PlainLookup(r, k);
        CreatedIsCanon(d.fields);
      }
    } else {
      DecodeEncode(d);
      CanonFixed(d);
    }
  }

  /** An update step: only a commit changes anything, and then only the one document, which holds the
      update. */
  lemma UpdateContents(s: Store, c: Text, key: Text, updates: Value, now: u64, tx: Text, t: Clock, accepts: Schema)
    ensures var op := Runs.Update(c, key, updates, now, tx, t); var s' := Step(s, op, accepts); var docs := s'.ram.docs;
            && SameBut(s.ram.docs, docs, c, {key})
            && var u := UpdateDoc(s.ram, c, key, updates, now, accepts);
            && (!u.Updated? ==> s'.ram == s.ram)
            && (u.Updated? && Inv(s.ram) && StepOk(s, op, accepts) ==>
                  var d, d' := DocAt(s.ram.docs, c, key), DocAt(docs, c, key);
                  d.Some? && d'.Some? && HoldsUpdate(d.value, d'.value, updates, now) && accepts(c, u.value) && docs[c][key] == Encode(u.value))
  {
    hide Step, Transaction, Bracket, Encode, Decode, Patched, HoldsUpdate, Inv, AllLoggable, AllStorable, GuardFails, KeepsIdentity, WellOrdered, Sound;
    var op := Runs.Update(c, key, updates, now, tx, t);
    StepWrites(s, op, accepts);
    UpdateTxn(s.ram, op, accepts);
    var u := UpdateDoc(s.ram, c, key, updates, now, accepts);
    if u.Updated? && Inv(s.ram) && StepOk(s, op, accepts) {
      var body := [LogEntry(IKEY_INSERT, c, key, u.value, t(1))];
      LoggedBodyStorable(s.disk.log, Bracket(c, tx, t, body, true), c, tx, t, body, true);
      assert Storable(body[0].value) by { FirstStorable(body); }
      InvSound(s.ram);
      PatchedHolds(s.ram.docs[c][key], updates, now);
    }
  }

  lemma FirstStorable(body: seq<LogEntry>)
    requires AllStorable(body) && body != []
    ensures Storable(body[0].value)
  {
  }

  lemma UpdateTxn(ram: Ram, op: Op, accepts: Schema)
    requires op.Update?
    ensures Transaction(ram, op, accepts).Some?
    ensures var x := Transaction(ram, op, accepts).value;
            match UpdateDoc(ram, op.c, op.key, op.updates, op.now, accepts)
            case NotFound => x == Txn(ram, [], true)
            case Conflict => x == Txn(ram, [], false)
            case Invalid => x == Txn(ram, [], false)
            case Updated(ram', v) => x == Txn(ram', [LogEntry(IKEY_INSERT, op.c, op.key, v, op.t(1))], true)
  {
    hide UpdateDoc;
  }

  // ----- Deletes -----

  /** Exactly the listed documents are gone. */
  ghost predicate Removed(a: Docs, b: Docs, c: Text, keys: seq<Text>) {
    forall d, k :: DocAt(b, d, k) == if d == c && k in keys then None else DocAt(a, d, k)
  }

  lemma DeleteContents(ram: Ram, c: Text, keys: seq<Text>, t: Clock)
    ensures Removed(ram.docs, DeleteBatch(ram, c, keys, t).ram.docs, c, keys)
  {
    hide DeleteKeys, Decode;
    if c in ram.docs { DeleteKeysDocs(ram, c, keys); }
  }

  /** Exactly the first matches, up to the limit, are gone. */
  ghost predicate RemovedFirst(a: Docs, b: Docs, c: Text, keep: Keep, asc: bool, limit: Option<nat>) {
    forall d, k :: DocAt(b, d, k) == if d == c && c in a && AmongFirst(a[c], keep, asc, limit, k) then None else DocAt(a, d, k)
  }

  ghost function MatchCount(docs: Docs, c: Text, keep: Keep): nat {
    if c in docs then |Matching(docs[c], keep)| else 0
  }

  /** Every document. */
  const ANY: Keep := (k: Text, b: Bytes) => true

  lemma FilteredChoice(ram: Ram, c: Text, matches: Keep, limit: Option<nat>, asc: bool)
    requires Inv(ram)
    ensures var keys := FilteredKeys(ram, c, matches, limit, asc);
            && |keys| == Up(MatchCount(ram.docs, c, matches), limit)
            && forall k :: k in keys <==> c in ram.docs && AmongFirst(ram.docs[c], matches, asc, limit, k)
  {
    hide Inv, RankOf, Injective, Listing, Restrict, Matching, AmongFirst;
    if c in ram.docs {
      LiveInjective(ram, c);
      FirstMeaning(ram.docs[c], matches, asc, limit);
    }
  }

  lemma CountedChoice(ram: Ram, c: Text, n: nat, asc: bool)
    requires Inv(ram)
    ensures var keys := CountedKeys(ram, c, n, asc);
            && |keys| == Up(MatchCount(ram.docs, c, ANY), Some(n))
            && forall k :: k in keys <==> c in ram.docs && AmongFirst(ram.docs[c], ANY, asc, Some(n), k)
  {
    hide Inv, RankOf, Injective, Listing, Matching, AmongFirst, Passing;
    if c in ram.docs {
      hide CountedKeys;
      LiveInjective(ram, c);
      CountedIsPrefix(ram, c, n, asc);
      AnyPasses(ram.docs[c]);
      FirstMeaning(ram.docs[c], ANY, asc, Some(n));
    }
  }

  lemma AnyPasses(col: Collection)
    ensures Passing(col, ANY) == RankOf(col)
  {
    hide SeqOf;
  }

  /** What a delete of chosen keys leaves. */
  lemma ChosenContents(ram: Ram, c: Text, keys: seq<Text>, t: Clock, keep: Keep, asc: bool, limit: Option<nat>)
    requires forall k :: k in keys <==> c in ram.docs && AmongFirst(ram.docs[c], keep, asc, limit, k)
    ensures RemovedFirst(ram.docs, DeleteBatch(ram, c, keys, t).ram.docs, c, keep, asc, limit)
    ensures keys == [] ==> RemovedFirst(ram.docs, ram.docs, c, keep, asc, limit)
  {
    hide AmongFirst, DocAt, DeleteBatch;
    DeleteContents(ram, c, keys, t);
  }

  lemma FilteredContents(s: Store, op: Op, accepts: Schema)
    requires Inv(s.ram) && op.DeleteFiltered?
    ensures RemovedFirst(s.ram.docs, Step(s, op, accepts).ram.docs, op.c, op.matches, op.asc, op.limit)
  {
    hide Inv, RemovedFirst, Step, DeleteBatch, FilteredKeys, AmongFirst;
    StepWrites(s, op, accepts);
    FilteredChoice(s.ram, op.c, op.matches, op.limit, op.asc);
    ChosenContents(s.ram, op.c, FilteredKeys(s.ram, op.c, op.matches, op.limit, op.asc), op.t, op.matches, op.asc, op.limit);
  }

  lemma CountedContents(s: Store, op: Op, accepts: Schema)
    requires Inv(s.ram) && op.DeleteN?
    ensures RemovedFirst(s.ram.docs, Step(s, op, accepts).ram.docs, op.c, ANY, op.asc, Some(op.n))
  {
    hide Inv, RemovedFirst, Step, DeleteBatch, CountedKeys, AmongFirst;
    StepWrites(s, op, accepts);
    CountedChoice(s.ram, op.c, op.n, op.asc);
    ChosenContents(s.ram, op.c, CountedKeys(s.ram, op.c, op.n, op.asc), op.t, ANY, op.asc, Some(op.n));
  }
}
