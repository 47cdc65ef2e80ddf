/** A concrete batch that fails midway: its first document stays in memory and is gone after a
    restart. */
module FailedBatch {
  import opened Bytes
  import opened Json
  import opened Codec
  import opened Canonical
  import opened LogCodec
  import opened Replay
  import opened Documents
  import opened Engine
  import opened Runs
  import opened Durability
  import opened Invariants
  import opened Versions
  import opened Recovery

  const COLLECTION: Text := [0x63]
  const FIRST: Text := [0x61]
  const SECOND: Text := [0x62]
  const X: Text := [0x78]

  /** A schema that turns down every document with a field `x`. */
  const NO_X: Schema := (c: Text, v: Value) => Get(v, X).None?

  /** `{"a": {}, "b": {"x": null}}` into an empty database. */
  const ITEMS: seq<Item> := [Item(FIRST, Obj([]), 0), Item(SECOND, Obj([Field(X, Null)]), 0)]
  const BATCH: Op := Insert(COLLECTION, ITEMS, [], n => 0)

  function FirstDoc(): Value {
    Obj(Stamp([], 1, 0, 0, 0))
  }

  function FirstEntry(): LogEntry {
    LogEntry(IKEY_INSERT, COLLECTION, FIRST, FirstDoc(), 0)
  }

  lemma Verdicts(s: u64)
    ensures NO_X(COLLECTION, FirstDoc()) && !NO_X(COLLECTION, Obj(Stamp([Field(X, Null)], 1, 0, 0, s)))
  {
    hide Stamp;
    StampLookup([], 1, 0, 0, 0, X);
    StampLookup([Field(X, Null)], 1, 0, 0, s, X);
    assert |X| == 1 && |IKEY_SEQ| == 2 && |IKEY_VERSION| == 2 && |IKEY_CREATED_AT| == 2 && |IKEY_MODIFIED_AT| == 2;
  }

  /** The batch stores its first document and stops at the second. */
  lemma BatchStops()
    ensures InsertBatch(EMPTY, COLLECTION, ITEMS, NO_X, n => 0).body == [FirstEntry()]
    ensures !InsertBatch(EMPTY, COLLECTION, ITEMS, NO_X, n => 0).ok
    ensures !FirstRejected(EMPTY, BATCH, NO_X)
  {
    hide Stamp, Encode, Decode, NO_X, U64At;
    var t: Clock := n => 0;
    var start := Touch(EMPTY, COLLECTION);
    Verdicts(0);
    var w := InsertItem(start, COLLECTION, ITEMS[0], NO_X);
    assert w.Stored? && w.value == FirstDoc();
    assert Counter(w.ram, COLLECTION) == Next(0) == 1;
    Verdicts(1);
    assert FIRST[0] != SECOND[0];
    assert DocAt(w.ram.docs, COLLECTION, SECOND) == None;
    var w2 := InsertItem(w.ram, COLLECTION, ITEMS[1], NO_X);
    assert w2.Rejected?;
    assert ITEMS[1..][0] == ITEMS[1];
    var e := FirstEntry();
    assert [] + [e] == [e];
    assert InsertItems(w.ram, COLLECTION, ITEMS[1..], NO_X, t, [e]) == Batch(w2.ram, [e], false);
  }

  // ----- The entries fit a frame -----

  lemma ShortText(s: Text)
    requires |s| <= 31
    ensures |EncodeText(s)| == 1 + |s|
  {
  }

  lemma {:induction false} InsertSize(fs: seq<Field>, k: Text, v: Value)
    ensures |EncodeFields(Json.Insert(fs, k, v))| <= |EncodeFields(fs)| + |EncodeKey(k)| + |Encode(v)|
    ensures |Json.Insert(fs, k, v)| <= |fs| + 1
  {
    hide Encode, EncodeKey, Less;
    var r := Json.Insert(fs, k, v);
    if fs == [] {
      assert r[1..] == [];
    } else if fs[0].key == k {
      assert r[1..] == fs[1..];
    } else if Less(k, fs[0].key) {
      assert r[1..] == fs;
    } else {
      InsertSize(fs[1..], k, v);
      assert r[1..] == Json.Insert(fs[1..], k, v);
    }
  }

  lemma StampSize()
    ensures Storable(FirstDoc()) && |Encode(FirstDoc())| <= 9
  {
    hide EncodeFields, EncodeKey, Json.Insert, EncodeNumber, StorableFields, Utf8, TokenOf, MapHeader;
    var f1 := Json.Insert([], IKEY_VERSION, Int(1));
    var f2 := Json.Insert(f1, IKEY_CREATED_AT, Int(0));
    var f3 := Json.Insert(f2, IKEY_MODIFIED_AT, Int(0));
    SmallParts();
    InsertSize([], IKEY_VERSION, Int(1));
    InsertSize(f1, IKEY_CREATED_AT, Int(0));
    InsertSize(f2, IKEY_MODIFIED_AT, Int(0));
    InsertSize(f3, IKEY_SEQ, Int(0));
    StorableInsert([], IKEY_VERSION, Int(1));
    StorableInsert(f1, IKEY_CREATED_AT, Int(0));
    StorableInsert(f2, IKEY_MODIFIED_AT, Int(0));
    StorableInsert(f3, IKEY_SEQ, Int(0));
    SmallHeader(|Stamp([], 1, 0, 0, 0)|);
  }

  lemma SmallHeader(n: nat)
    requires n <= 15
    ensures |MapHeader(n)| == 1
  {
  }

  lemma SmallParts()
    ensures |EncodeKey(IKEY_VERSION)| == 1 && |EncodeKey(IKEY_CREATED_AT)| == 1
    ensures |EncodeKey(IKEY_MODIFIED_AT)| == 1 && |EncodeKey(IKEY_SEQ)| == 1
    ensures |EncodeNumber(PosInt(0))| == 1 && |EncodeNumber(PosInt(1))| == 1 && EncodeFields([]) == [] && StorableFields([])
    ensures StorableText(IKEY_VERSION) && StorableText(IKEY_CREATED_AT) && StorableText(IKEY_MODIFIED_AT) && StorableText(IKEY_SEQ)
  {
    AsciiIsUtf8(IKEY_VERSION);
    AsciiIsUtf8(IKEY_CREATED_AT);
    AsciiIsUtf8(IKEY_MODIFIED_AT);
    AsciiIsUtf8(IKEY_SEQ);
  }

  lemma SmallEntry(e: LogEntry)
    requires StorableText(e.cmd) && StorableText(e.collection) && StorableText(e.key) && Storable(e.value)
    requires |e.cmd| <= 31 && |e.collection| <= 31 && |e.key| <= 31 && |Encode(e.value)| <= 9 && e.t == 0
    ensures Loggable(e)
  {
    hide EncodeText, Encode, EncodeNumber, MapHeader, Storable, Utf8, CommandToken;
    ShortText(e.cmd);
    ShortText(e.collection);
    ShortText(e.key);
    ShortText(F_CMD);
    ShortText(F_COLLECTION);
    ShortText(F_KEY);
    ShortText(F_VALUE);
    ShortText(F_T);
    SmallParts();
    SmallHeader(5);
  }

  lemma EntriesFit()
    ensures Loggable(FirstEntry()) && Loggable(BeginOf(COLLECTION, [], n => 0))
  {
    hide Encode, Utf8, Stamp, EncodeEntry;
    StampSize();
    AsciiIsUtf8(COLLECTION);
    AsciiIsUtf8(FIRST);
    AsciiIsUtf8([]);
    AsciiIsUtf8(IKEY_INSERT);
    AsciiIsUtf8(IKEY_TX_BEGIN);
    NullSize();
    SmallEntry(FirstEntry());
    SmallEntry(BeginOf(COLLECTION, [], n => 0));
  }

  lemma NullSize()
    ensures Storable(Null) && |Encode(Null)| == 1
  {
  }

  // ----- Memory and disk part -----

  lemma BatchOk()
    ensures StepOk(INIT, BATCH, NO_X)
  {
    hide EncodeEntry, InsertItems, NO_X, Loggable, Encode;
    BatchStops();
    EntriesFit();
    InsertTxn(EMPTY, BATCH, NO_X);
    StepWrites(INIT, BATCH, NO_X);
    GoodBatch();
  }

  lemma GoodBatch()
    ensures GoodItems(ITEMS)
  {
    var fs := [Field(X, Null)];
    assert fs[1..] == [];
    assert FieldsWellOrdered(fs[1..]);
    assert |VERSION| > 1 && |SEQ| > 1 && |CREATED_AT| > 1 && |MODIFIED_AT| > 1;
    OneKey(X, Null);
    hide Keys;
    assert GoodItem(ITEMS[0]);
    assert FieldsWellOrdered(fs) && Ordered(fs) && Unreserved(fs);
    assert ITEMS[1].value == Obj(fs);
  }

  /** After the failed batch the first document is in memory and a restart does not find it. */
  lemma FailedBatchWitness()
    ensures StepOk(INIT, BATCH, NO_X) && FailedInsert(EMPTY, BATCH, NO_X)
    ensures var s := Step(INIT, BATCH, NO_X); !SameDocs(OnDisk(s.disk), s.ram.docs)
  {
    hide SameDocs, OnDisk, Step, StepOk, InsertItems, FirstRejected, NO_X;
    BatchOk();
    BatchStops();
    EmptyInv();
    EmptyDisk();
    assert SameDocs(OnDisk(INIT.disk), EMPTY.docs) by { SameDocsSelf(map[]); }
    FailedBatchDiverges(INIT, BATCH, NO_X);
  }

  lemma SameDocsSelf(docs: Docs)
    ensures SameDocs(docs, docs)
  {
  }
}
