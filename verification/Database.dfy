/** The database object: maps updated in place and a log file appended to. Every method is proved
    to perform exactly one step of the run model. */
module Database {
  import opened Bytes
  import opened Json
  import opened Codec
  import opened Tokens
  import opened Framing
  import opened LogCodec
  import opened Replay
  import opened Documents
  import opened Order
  import opened Sorting
  import opened Engine
  import opened Runs
  import opened Durability
  import opened Limits
  import opened Invariants
  import opened Recovery
  import opened Positions
  import opened Contents

  // ----- Reading a collection in `_seq` order -----

  /** Iteration over an ordered map. */
  method InOrder(idx: map<u64, Text>) returns (seqs: seq<u64>)
    ensures seqs == Ascending(idx.Keys)
  {
    seqs := [];
    var rest := idx.Keys;
    while rest != {}
      invariant rest <= idx.Keys && IsAscending(seqs, idx.Keys - rest)
      invariant forall i, x | 0 <= i < |seqs| && x in rest :: seqs[i] < x
      decreases rest
    {
      assert Least(rest) in rest && forall x | x in rest :: Least(rest) <= x;
      var m :| m in rest && forall x | x in rest :: m <= x;
      ghost var done := idx.Keys - rest;
      AscendingSnoc(seqs, done, m);
      assert idx.Keys - (rest - {m}) == done + {m};
      seqs := seqs + [m];
      rest := rest - {m};
    }
    assert idx.Keys - rest == idx.Keys;
    AscendingUnique(seqs, Ascending(idx.Keys), idx.Keys);
  }

  lemma AscendingSnoc(seqs: seq<u64>, s: set<u64>, m: u64)
    requires IsAscending(seqs, s) && forall i | 0 <= i < |seqs| :: seqs[i] < m
    ensures IsAscending(seqs + [m], s + {m})
  {
    var r := seqs + [m];
    forall x | x in s + {m} ensures x in r {
      if x in s { assert x in seqs; } else { assert r[|seqs|] == m; }
    }
    forall i, j | 0 <= i < j < |r| ensures r[i] < r[j] {
      if j < |seqs| { assert r[i] == seqs[i] && r[j] == seqs[j]; }
    }
  }

  /** Phase one of a scan: the `(_seq, key)` pairs of the documents that pass `keep`, in whatever
      order the map yields them. */
  method CollectPairs(col: Collection, keep: (Text, Bytes) -> bool) returns (pairs: seq<Pair>)
    ensures Lists(pairs, Restrict(RankOf(col), k => k in col && keep(k, col[k])))
  {
    hide SeqOf, Lists;
    pairs := [];
    var todo := col.Keys;
    ghost var rank: Rank := map[];
    ghost var want := Restrict(RankOf(col), k => k in col && keep(k, col[k]));
    assert Lists(pairs, rank) by { NoPairs(); }
    while todo != {}
      invariant todo <= col.Keys && Lists(pairs, rank)
      invariant rank == map k | k in want && k !in todo :: want[k]
      decreases todo
    {
      var k :| k in todo;
      todo := todo - {k};
      if keep(k, col[k]) {
        ListsPut(pairs, rank, k, SeqOf(col[k]));
        pairs := pairs + [(SeqOf(col[k]), k)];
        rank := rank[k := SeqOf(col[k])];
      }
    }
    assert rank == want;
  }

  /** The `(_seq, key)` pairs as `evict_oldest` collects them: every document is decoded. */
  method CollectDecoded(col: Collection) returns (pairs: seq<Pair>)
    ensures Lists(pairs, DecodedRank(col))
  {
    hide Decode, Lists, U64At;
    pairs := [];
    var todo := col.Keys;
    ghost var rank: Rank := map[];
    assert Lists(pairs, rank) by { NoPairs(); }
    while todo != {}
      invariant todo <= col.Keys && Lists(pairs, rank)
      invariant rank == map k | k in DecodedRank(col) && k !in todo :: DecodedRank(col)[k]
      decreases todo
    {
      var k :| k in todo;
      todo := todo - {k};
      var v := Decode(col[k]);
      if v.Some? {
        var s := Or(U64At(v.value, IKEY_SEQ), 0xffff_ffff_ffff_ffff);
        ListsPut(pairs, rank, k, s);
        pairs := pairs + [(s, k)];
        rank := rank[k := s];
      }
    }
    assert rank == DecodedRank(col);
  }

  lemma NoPairs()
    ensures Lists([], map[])
  {
    var none: Rank := map[];
    assert PairSet(none) == {};
  }

  /** Phase two: sort by `_seq`, oldest or newest first. */
  method SortedKeys(pairs: seq<Pair>, asc: bool, ghost rank: Rank) returns (keys: seq<Text>)
    requires Lists(pairs, rank) && Injective(rank)
    ensures keys == Listing(rank, asc)
  {
    SortedIsListing(pairs, rank);
    keys := KeysOf(SortPairs(pairs));
    if !asc { keys := Reverse(keys); }
  }

  /** `open`: the index of one collection and its next `_seq`, from the documents in any order. */
  method BuildIndex(col: Collection) returns (btree: map<u64, Text>, next: u64)
    requires Injective(RankOf(col))
    ensures btree == IndexFor(RankOf(col)) && next == Next(MaxSeq(RankOf(col)))
  {
    hide SeqOf, IndexFor, Wrap, IsGraph;
    btree := map[];
    EmptyGraph();
    var max: u64 := 0;
    var todo := col.Keys;
    ghost var rank: Rank := map[];
    while todo != {}
      invariant todo <= col.Keys && rank.Keys == col.Keys - todo
      invariant forall k | k in rank :: rank[k] == SeqOf(col[k])
      invariant IsGraph(btree, rank)
      invariant forall k | k in rank :: rank[k] <= max
      invariant max == 0 || exists k :: k in rank && rank[k] == max
      decreases todo
    {
      var k :| k in todo;
      todo := todo - {k};
      var s := SeqOf(col[k]);
      FreshSeq(col, btree, rank, k);
      GraphPut(btree, rank, k, s);
      btree := btree[s := k];
      rank := rank[k := s];
      if s > max {
        max := s;
        assert rank[k] == max;
      }
    }
    assert rank == RankOf(col);
    IndexForIsGraph(rank);
    GraphUnique(btree, IndexFor(rank), rank);
    next := Next(max);
  }

  lemma EmptyGraph()
    ensures IsGraph(map[], map[])
  {
  }

  lemma FreshSeq(col: Collection, btree: map<u64, Text>, rank: Rank, k: Text)
    requires Injective(RankOf(col)) && IsGraph(btree, rank) && k in col && k !in rank
    requires rank.Keys <= col.Keys && forall x | x in rank :: rank[x] == SeqOf(col[x])
    ensures SeqOf(col[k]) !in btree
  {
    hide SeqOf;
    assert forall s | s in btree :: btree[s] in rank && RankOf(col)[btree[s]] == s;
    assert RankOf(col)[k] == SeqOf(col[k]);
  }

  method BuildAll(docs: Docs) returns (counters: map<Text, u64>, index: map<Text, map<u64, Text>>)
    requires forall c | c in docs :: Injective(RankOf(docs[c]))
    ensures Ram(docs, counters, index) == Rebuild(docs)
  {
    hide RankOf, Injective, IndexFor, MaxSeq, Wrap, Rebuild;
    counters, index := map[], map[];
    var todo := docs.Keys;
    while todo != {}
      invariant todo <= docs.Keys && counters.Keys == docs.Keys - todo && index.Keys == docs.Keys - todo
      invariant forall c | c in counters :: counters[c] == Next(MaxSeq(RankOf(docs[c])))
      invariant forall c | c in index :: index[c] == IndexFor(RankOf(docs[c]))
      decreases todo
    {
      var c :| c in todo;
      todo := todo - {c};
      var btree, next := BuildIndex(docs[c]);
      counters := counters[c := next];
      index := index[c := btree];
    }
    RebuildIs(docs, counters, index);
  }

  lemma RebuildIs(docs: Docs, counters: map<Text, u64>, index: map<Text, map<u64, Text>>)
    requires counters.Keys == docs.Keys && index.Keys == docs.Keys
    requires forall c | c in docs :: counters[c] == Next(MaxSeq(RankOf(docs[c]))) && index[c] == IndexFor(RankOf(docs[c]))
    ensures Ram(docs, counters, index) == Rebuild(docs)
  {
    hide RankOf, IndexFor, MaxSeq, Wrap;
  }

  /** Snapshot and log streamed through the replayer. */
  method ReplayFiles(snapshotFile: Bytes, file: Bytes) returns (docs: Docs)
    ensures docs == Restart(snapshotFile, file)
  {
    hide FeedAll, DecodeAll, ReadFrames;
    var p1 := Framing.Stream(snapshotFile, 0);
    var p2 := Framing.Stream(file, 0);
    assert ReadFrames(snapshotFile)[0..] == ReadFrames(snapshotFile) && ReadFrames(file)[0..] == ReadFrames(file);
    var builder := new StateBuilder();
    builder.Stream(DecodeAll(p1) + DecodeAll(p2));
    docs := builder.docs;
  }

  // ----- The database -----

  datatype UpdateResult = Done(found: bool) | VersionConflict | SchemaError

  class Db {
    var docs: Docs
    var counters: map<Text, u64>
    var index: map<Text, map<u64, Text>>
    var file: Bytes
    var snapshotFile: Bytes
    ghost var log: seq<LogEntry>
    ghost var snapshot: seq<LogEntry>

    function Memory(): Ram
      reads this
    {
      Ram(docs, counters, index)
    }

    ghost function View(): Store
      reads this
    {
      Store(Memory(), Disk(snapshot, log))
    }

    /** The files hold exactly the frames of the entries written. */
    ghost predicate Valid()
      reads this
    {
      file == FileOf(log) && snapshotFile == FileOf(snapshot)
    }

    constructor ()
      ensures Valid() && View() == INIT
    {
      docs, counters, index, file, snapshotFile := map[], map[], map[], [], [];
      log, snapshot := [], [];
    }

    method WriteEntry(e: LogEntry)
      requires Valid()
      modifies this`file, this`log
      ensures Valid() && log == old(log) + [e]
    {
      hide FileOf;
      AppendEntry(log, e);
      file := file + Frame(EncodeEntry(e));
      log := log + [e];
    }

    /** One item of an insert batch: counter, version, stamp, schema, map and index. */
    method StoreItem(c: Text, item: Item, accepts: Schema) returns (stored: Option<Value>)
      modifies this`docs, this`counters, this`index
      ensures match InsertItem(old(Memory()), c, item, accepts)
              case Rejected(ram) => stored == None && Memory() == ram
              case Stored(ram, value) => stored == Some(value) && Memory() == ram
      ensures GoodItem(item) ==> SameBut(old(docs), docs, c, {item.key})
      ensures GoodItem(item) && stored.None? ==> docs == old(docs)
      ensures GoodItem(item) && stored.Some? && Storable(stored.value) ==>
                && accepts(c, stored.value) && DocAt(docs, c, item.key).Some?
                && HoldsItem(DocAt(old(docs), c, item.key), DocAt(docs, c, item.key).value, item, Counter(old(Memory()), c))
    {
      hide Encode, Decode, Stamp, U64At, Wrap, DocAt, HoldsItem, SameBut, GoodItem, Storable;
      if GoodItem(item) { ItemContents(Memory(), c, item, accepts); }
      var s := Counter(Memory(), c);
      counters := counters[c := Next(s)];
      var existing := DocAt(docs, c, item.key);
      var value := item.value;
      if existing.Some? {
        var version := Or(U64At(existing.value, IKEY_VERSION), 0);
        var created := Or(U64At(existing.value, IKEY_CREATED_AT), item.now);
        var kept := Or(U64At(existing.value, IKEY_SEQ), s);
        if value.Obj? { value := Obj(Stamp(value.fields, Next(version), created, item.now, kept)); }
        if !accepts(c, value) { return None; }
      } else if value.Obj? {
        value := Obj(Stamp(value.fields, 1, item.now, item.now, s));
        if !accepts(c, value) { return None; }
      }
      docs := docs[c := CollectionOf(docs, c)[item.key := Encode(value)]];
      index := index[c := IndexOf(Memory(), c)[Or(U64At(value, IKEY_SEQ), s) := item.key]];
      stored := Some(value);
    }

    /** `operations::insert`. */
    method Insert(c: Text, items: seq<Item>, accepts: Schema, tx: Text, t: Clock) returns (ok: bool)
      requires Valid()
      modifies this
      ensures Valid() && View() == Step(old(View()), Runs.Insert(c, items, tx, t), accepts)
      ensures ok == InsertBatch(old(Memory()), c, items, accepts, t).ok
      ensures GoodItems(items) ==> SameBut(old(docs), docs, c, BatchKeys(items))
      ensures ok && StepOk(old(View()), Runs.Insert(c, items, tx, t), accepts) ==> HoldsBatch(docs, c, items)
    {
      hide FileOf, Step, InsertItem, InsertItems, Transaction, Bracket, BeginOf, CommitOf,
           SameBut, HoldsBatch, GoodItem, GoodItems, HoldsItem, StepOk, DocAt, Storable, BatchKeys;
      StepGood(View(), c, items, tx, t, accepts);
      if GoodItems(items) { InsertContents(View(), c, items, tx, t, accepts); }
      docs := docs[c := CollectionOf(docs, c)];
      WriteEntry(BeginOf(c, tx, t));
      ghost var body: seq<LogEntry> := [];
      ghost var start := Memory();
      StepWrites(old(View()), Runs.Insert(c, items, tx, t), accepts);
      InsertTxn(old(Memory()), Runs.Insert(c, items, tx, t), accepts);
      var i := 0;
      assert items[0..] == items;
      while i < |items|
        invariant 0 <= i <= |items| && i == |body| && Valid() && snapshot == old(snapshot)
        invariant log == old(log) + [BeginOf(c, tx, t)] + body
        invariant InsertItems(start, c, items, accepts, t, []) == InsertItems(Memory(), c, items[i..], accepts, t, body)
      {
        ItemStep(Memory(), c, items, i, accepts, t, body);
        var stored := StoreItem(c, items[i], accepts);
        if stored.None? {
          Bracketed(old(log), c, tx, t, body, false);
          return false;
        }
        var e := LogEntry(IKEY_INSERT, c, items[i].key, stored.value, t(i + 1));
        WriteEntry(e);
        body := body + [e];
        i := i + 1;
      }
      ItemStep(Memory(), c, items, i, accepts, t, body);
      WriteEntry(CommitOf(c, tx, t, i));
      Bracketed(old(log), c, tx, t, body, true);
      ok := true;
    }

    /** `operations::update`. */
    method Update(c: Text, key: Text, updates: Value, now: u64, accepts: Schema, tx: Text, t: Clock) returns (r: UpdateResult)
      requires Valid()
      modifies this
      ensures Valid() && View() == Step(old(View()), Runs.Update(c, key, updates, now, tx, t), accepts)
      ensures r == match UpdateDoc(old(Memory()), c, key, updates, now, accepts)
                   case NotFound => Done(false)
                   case Conflict => VersionConflict
                   case Invalid => SchemaError
                   case Updated(_, _) => Done(true)
      ensures r == Done(false) <==> DocAt(old(docs), c, key).None?
      ensures r != Done(true) ==> Memory() == old(Memory())
      ensures SameBut(old(docs), docs, c, {key})
      ensures r == Done(true) && Inv(old(Memory())) && StepOk(old(View()), Runs.Update(c, key, updates, now, tx, t), accepts) ==>
                && DocAt(old(docs), c, key).Some? && DocAt(docs, c, key).Some?
                && HoldsUpdate(DocAt(old(docs), c, key).value, DocAt(docs, c, key).value, updates, now)
    {
      hide FileOf, Step, Encode, Decode, Merged, U64At, DocAt, Transaction, Bracket, BeginOf, CommitOf,
           SameBut, HoldsUpdate, Inv, StepOk;
      UpdateContents(View(), c, key, updates, now, tx, t, accepts);
      ghost var op := Runs.Update(c, key, updates, now, tx, t);
      StepWrites(View(), op, accepts);
      UpdateTxn(Memory(), op, accepts);
      Bracketed(log, c, tx, t, [], true);
      Bracketed(log, c, tx, t, [], false);
      WriteEntry(BeginOf(c, tx, t));
      var existing := DocAt(docs, c, key);
      if existing.Some? {
        DocAtKey(docs, c, key);
        var doc := existing.value;
        if updates.Obj? {
          var version := Or(U64At(doc, IKEY_VERSION), 0);
          var guard := U64At(updates, VERSION);
          if guard.Some? && guard.value != version {
            return VersionConflict;
          }
          if doc.Obj? {
            doc := Obj(Merged(doc.fields, updates.fields, Next(version), now));
          }
        }
        if !accepts(c, doc) {
          return SchemaError;
        }
        docs := docs[c := docs[c][key := Encode(doc)]];
        Bracketed(old(log), c, tx, t, [LogEntry(IKEY_INSERT, c, key, doc, t(1))], true);
        WriteEntry(LogEntry(IKEY_INSERT, c, key, doc, t(1)));
        WriteEntry(CommitOf(c, tx, t, 1));
        return Done(true);
      }
      WriteEntry(CommitOf(c, tx, t, 0));
      r := Done(false);
    }

    /** Removes one key from the map and its `_seq` from the index. */
    method RemoveKey(c: Text, key: Text)
      requires c in docs
      modifies this`docs, this`index
      ensures c in docs && Memory() == DeleteKey(old(Memory()), c, key)
    {
      hide SeqOf;
      if key in docs[c] {
        var s := SeqOf(docs[c][key]);
        if c in index { index := index[c := index[c] - {s}]; }
      }
      docs := docs[c := docs[c] - {key}];
    }

    /** `operations::delete`. */
    method Delete(c: Text, keys: seq<Text>, tx: Text, t: Clock, ghost accepts: Schema)
      requires Valid()
      modifies this
      ensures Valid() && View() == Step(old(View()), Runs.Delete(c, keys, tx, t), accepts)
      ensures var b := DeleteBatch(old(Memory()), c, keys, t);
              Memory() == b.ram && log == old(log) + Bracket(c, tx, t, b.body, true) && snapshot == old(snapshot)
      ensures Removed(old(docs), docs, c, keys)
    {
      hide FileOf, Step, DeleteKey, Transaction, Bracket, BeginOf, CommitOf, Removed;
      DeleteContents(Memory(), c, keys, t);
      ghost var es := DeleteEntries(c, keys, t);
      WriteEntry(BeginOf(c, tx, t));
      var n := 0;
      if c in docs {
        while n < |keys|
          invariant 0 <= n <= |keys| && c in docs && Valid() && snapshot == old(snapshot)
          invariant log == old(log) + [BeginOf(c, tx, t)] + es[..n]
          invariant DeleteKeys(old(Memory()), c, keys) == DeleteKeys(Memory(), c, keys[n..])
        {
          assert keys[n..][0] == keys[n] && keys[n..][1..] == keys[n + 1..];
          RemoveKey(c, keys[n]);
          WriteEntry(LogEntry(IKEY_DELETE, c, keys[n], Null, t(n + 1)));
          assert es[..n + 1] == es[..n] + [es[n]];
          n := n + 1;
        }
        assert es[..n] == es && keys[n..] == [];
      }
      WriteEntry(CommitOf(c, tx, t, n));
      Bracketed(old(log), c, tx, t, if c in docs then es else [], true);
      StepWrites(old(View()), Runs.Delete(c, keys, tx, t), accepts);
      DeleteTxn(old(Memory()), Runs.Delete(c, keys, tx, t), accepts);
    }

    /** `operations::delete_n`: the first or last `n` keys of the index, without scanning. */
    method DeleteN(c: Text, n: nat, asc: bool, tx: Text, t: Clock, ghost accepts: Schema) returns (count: nat)
      requires Valid() && Inv(Memory())
      modifies this
      ensures Valid() && View() == Step(old(View()), Runs.DeleteN(c, n, asc, tx, t), accepts)
      ensures count == |CountedKeys(old(Memory()), c, n, asc)|
      ensures RemovedFirst(old(docs), docs, c, ANY, asc, Some(n)) && count == Up(MatchCount(old(docs), c, ANY), Some(n))
    {
      hide FileOf, Step, Transaction, Inv, Ascending, Listing, DeleteBatch, RankOf, RemovedFirst, AmongFirst, MatchCount;
      ghost var op := Runs.DeleteN(c, n, asc, tx, t);
      CountedChoice(Memory(), c, n, asc);
      CountedContents(View(), op, accepts);
      StepWrites(View(), op, accepts);
      ChosenTxn(Memory(), op, accepts);
      if n == 0 || c !in docs {
        return 0;
      }
      var keys;
      if c in index {
        var seqs := InOrder(index[c]);
        var walk := Walk(index[c], seqs);
        keys := Take(if asc then walk else Reverse(walk), n);
      } else {
        var pairs := CollectPairs(docs[c], (k, b) => true);
        LiveInjective(Memory(), c);
        KeepAll(docs[c]);
        var all := SortedKeys(pairs, asc, RankOf(docs[c]));
        keys := Take(all, n);
      }
      if keys == [] {
        return 0;
      }
      Delete(c, keys, tx, t, accepts);
      count := |keys|;
    }

    /** `operations::delete_filtered`. */
    method DeleteFiltered(c: Text, matches: (Text, Bytes) -> bool, limit: Option<nat>, asc: bool, tx: Text, t: Clock,
                          ghost accepts: Schema) returns (count: nat)
      requires Valid() && Inv(Memory())
      modifies this
      ensures Valid() && View() == Step(old(View()), Runs.DeleteFiltered(c, matches, limit, asc, tx, t), accepts)
      ensures count == |FilteredKeys(old(Memory()), c, matches, limit, asc)|
      ensures RemovedFirst(old(docs), docs, c, matches, asc, limit) && count == Up(MatchCount(old(docs), c, matches), limit)
    {
      hide FileOf, Step, Transaction, Inv, Listing, DeleteBatch, RankOf, Restrict, RemovedFirst, AmongFirst, MatchCount;
      ghost var op := Runs.DeleteFiltered(c, matches, limit, asc, tx, t);
      FilteredChoice(Memory(), c, matches, limit, asc);
      FilteredContents(View(), op, accepts);
      StepWrites(View(), op, accepts);
      ChosenTxn(Memory(), op, accepts);
      if c !in docs {
        return 0;
      }
      var pairs := CollectPairs(docs[c], matches);
      ghost var col := docs[c];
      ghost var rank := Restrict(RankOf(col), k => k in col && matches(k, col[k]));
      LiveInjective(Memory(), c);
      RestrictInjective(RankOf(col), k => k in col && matches(k, col[k]));
      var keys := SortedKeys(pairs, asc, rank);
      if limit.Some? { keys := Take(keys, limit.value); }
      if keys == [] {
        return 0;
      }
      Delete(c, keys, tx, t, accepts);
      count := |keys|;
    }

    /** `operations::evict_oldest`, called with the overflow over `max`. */
    method EvictOldest(c: Text, max: nat, tx: Text, t: Clock, ghost accepts: Schema)
      requires Valid() && Inv(Memory())
      modifies this
      ensures Valid() && View() == Step(old(View()), Runs.Evict(c, max, tx, t), accepts)
      ensures KeepsNewest(CollectionOf(old(docs), c), CollectionOf(docs, c), max)
    {
      hide FileOf, Step, Transaction, Inv, Listing, DeleteBatch, RankOf, DecodedRank, KeepsNewest;
      ghost var op := Runs.Evict(c, max, tx, t);
      EvictStep(View(), c, max, tx, t, accepts);
      StepWrites(View(), op, accepts);
      ChosenTxn(Memory(), op, accepts);
      if c !in docs || |docs[c]| <= max {
        return;
      }
      var n := |docs[c]| - max;
      var pairs := CollectDecoded(docs[c]);
      LiveInjective(Memory(), c);
      DecodedRankIsRank(Memory(), c);
      var all := SortedKeys(pairs, true, DecodedRank(docs[c]));
      AscendingListing(DecodedRank(docs[c]));
      var keys := Take(all, n);
      if keys == [] {
        return;
      }
      Delete(c, keys, tx, t, accepts);
    }

    /** `Db::delete_collection`. */
    method DropCollection(c: Text, tx: Text, t: Clock, ghost accepts: Schema)
      requires Valid()
      modifies this
      ensures Valid() && View() == Step(old(View()), Runs.Drop(c, tx, t), accepts)
      ensures forall d, k :: DocAt(docs, d, k) == if d == c then None else DocAt(old(docs), d, k)
    {
      hide FileOf, Step, Bracket, BeginOf, CommitOf;
      WriteEntry(BeginOf(c, tx, t));
      docs := docs - {c};
      index := index - {c};
      WriteEntry(LogEntry(IKEY_DROP, c, STAR, Null, t(1)));
      WriteEntry(CommitOf(c, tx, t, 1));
      counters := counters - {c};
      Bracketed(old(log), c, tx, t, [LogEntry(IKEY_DROP, c, STAR, Null, t(1))], true);
      StepWrites(old(View()), Runs.Drop(c, tx, t), accepts);
    }

    /** `Db::insert`: the batch, then eviction down to the configured maximum. */
    method InsertCapped(c: Text, items: seq<Item>, max: Option<nat>, accepts: Schema, tx: Text, tx2: Text, t: Clock, t2: Clock)
      returns (ok: bool)
      requires Valid() && Inv(Memory()) && Lag(OnDisk(View().disk), docs)
      requires StepOk(View(), Runs.Insert(c, items, tx, t), accepts)
      modifies this
      ensures Valid() && ok == InsertBatch(old(Memory()), c, items, accepts, t).ok
      ensures var s := Step(old(View()), Runs.Insert(c, items, tx, t), accepts);
              View() == if ok && max.Some? then Step(s, Runs.Evict(c, max.value, tx2, t2), accepts) else s
      ensures ok && max.Some? ==>
                KeepsNewest(CollectionOf(Step(old(View()), Runs.Insert(c, items, tx, t), accepts).ram.docs, c), CollectionOf(docs, c), max.value)
    {
      hide FileOf, Step, Inv, Lag, OnDisk, StepOk, InsertBatch, EvictedKeys, DeleteBatch, KeepsNewest;
      StepInvariant(View(), Runs.Insert(c, items, tx, t), accepts);
      ok := Insert(c, items, accepts, tx, t);
      if ok && max.Some? {
        EvictOldest(c, max.value, tx2, t2, accepts);
      }
    }

    /** `Db::open` in any reachable state, with the log file cut at any byte: replay, then rebuild
        index and counters. The entries whose frames are whole are kept; a tail that is not a whole
        frame stays in the file. */
    method Reopen(n: nat, ghost ops: seq<Op>, ghost accepts: Schema)
      requires Valid() && RunOk(ops, accepts) && View() == After(ops, accepts) && n <= |file|
      modifies this
      ensures file == old(file)[..n] && snapshotFile == old(snapshotFile)
      ensures View() == Step(old(View()), Runs.Crash(WholeFrames(Payloads(old(log)), n)), accepts)
      ensures file == FileOf(log) <==> Valid()
      ensures n == |old(file)| ==> Valid()
    {
      hide FileOf, Loggable, RankOf, Injective, Readable, Restart, Step, RunOk, After, WholeFrames, Payloads;
      ghost var k := WholeFrames(Payloads(log), n);
      RunLoggable(ops, accepts);
      RestartReads(View().disk, n);
      CutDistinct(ops, accepts, k);
      CrashCut(View(), k, accepts);
      AllFrames(log);
      assert log[..|log|] == log;
      file := file[..n];
      docs := ReplayFiles(snapshotFile, file);
      counters, index := BuildAll(docs);
      log := log[..k];
    }

    /** `write_snapshot_from_maps`: one frame per document. */
    method WriteSnapshot(order: seq<(Text, Text)>) returns (body: Bytes, ghost entries: seq<LogEntry>)
      ensures body == FileOf(SnapshotOf(docs, order)) && entries == SnapshotOf(docs, order)
    {
      hide FileOf, DocAt, EncodeEntry;
      body, entries := [], [];
      NoEntries();
      var i := 0;
      while i < |order|
        invariant 0 <= i <= |order| && body == FileOf(entries)
        invariant SnapshotOf(docs, order) == entries + SnapshotOf(docs, order[i..])
      {
        var (c, k) := order[i];
        assert order[i..][0] == order[i] && order[i..][1..] == order[i + 1..];
        var v := DocAt(docs, c, k);
        if v.Some? {
          var e := LogEntry(IKEY_INSERT, c, k, v.value, 0);
          AppendEntry(entries, e);
          body := body + Frame(EncodeEntry(e));
          Regroup(entries, e, SnapshotOf(docs, order[i + 1..]));
          entries := entries + [e];
        } else {
          assert [] + SnapshotOf(docs, order[i + 1..]) == SnapshotOf(docs, order[i + 1..]);
        }
        i := i + 1;
      }
      assert order[i..] == [] && entries + [] == entries;
    }

    /** `compact`: install the snapshot, then start the log over. */
    method Compact(order: seq<(Text, Text)>, ghost accepts: Schema)
      requires Valid()
      modifies this
      ensures Valid() && View() == Step(old(View()), Runs.Compact(order), accepts)
    {
      hide FileOf, SnapshotOf;
      var body, entries := WriteSnapshot(order);
      snapshotFile, snapshot := body, entries;
      NoEntries();
      file, log := [], [];
    }
  }

  // ----- Small facts used by the methods -----

  /** The log after a transaction, entry by entry. */
  lemma Bracketed(log: seq<LogEntry>, c: Text, tx: Text, t: Clock, body: seq<LogEntry>, committed: bool)
    ensures log + Bracket(c, tx, t, body, committed)
         == log + [BeginOf(c, tx, t)] + body + (if committed then [CommitOf(c, tx, t, |body|)] else [])
    ensures body == [] ==> log + Bracket(c, tx, t, body, false) == log + [BeginOf(c, tx, t)]
    ensures !committed ==> log + Bracket(c, tx, t, body, committed) == log + [BeginOf(c, tx, t)] + body
  {
  }

  lemma Regroup(a: seq<LogEntry>, e: LogEntry, b: seq<LogEntry>)
    ensures a + ([e] + b) == a + [e] + b
  {
  }

  lemma CrashCut(s: Store, k: nat, accepts: Schema)
    requires k <= |s.disk.log|
    ensures Step(s, Runs.Crash(k), accepts) == Store(Rebuild(Readable(s.disk, k)), Disk(s.disk.snapshot, s.disk.log[..k]))
  {
    hide Rebuild, Readable;
  }

  /** Whatever part of the log is left, the recovered `_seq` values are distinct. */
  lemma CutDistinct(ops: seq<Op>, accepts: Schema, k: nat)
    requires RunOk(ops, accepts) && k <= |After(ops, accepts).disk.log|
    ensures forall c | c in Readable(After(ops, accepts).disk, k) :: Injective(RankOf(Readable(After(ops, accepts).disk, k)[c]))
  {
    hide Inv, Lag, Injective, RankOf, Rebuild, Readable, Loggable, Step;
    var s := After(ops, accepts);
    var run := ops + [Runs.Crash(k)];
    assert run[..|run| - 1] == ops;
    RunLoggable(ops, accepts);
    CrashCut(s, k, accepts);
    assert StepOk(s, Runs.Crash(k), accepts);
    RunInvariant(run, accepts);
    var ram := Rebuild(Readable(s.disk, k));
    forall c | c in Readable(s.disk, k) ensures Injective(RankOf(Readable(s.disk, k)[c])) {
      RebuildDocs(Readable(s.disk, k));
      LiveInjective(ram, c);
    }
  }

  lemma RebuildDocs(docs: Docs)
    ensures Rebuild(docs).docs == docs
  {
    hide RankOf;
  }

  lemma ItemStep(ram: Ram, c: Text, items: seq<Item>, i: nat, accepts: Schema, t: Clock, body: seq<LogEntry>)
    requires i <= |items|
    ensures i == |items| ==> InsertItems(ram, c, items[i..], accepts, t, body) == Batch(ram, body, true)
    ensures i < |items| ==>
              var w := InsertItem(ram, c, items[i], accepts);
              InsertItems(ram, c, items[i..], accepts, t, body)
              == if w.Rejected? then Batch(w.ram, body, false)
                 else InsertItems(w.ram, c, items[i + 1..], accepts, t,
                                  body + [LogEntry(IKEY_INSERT, c, items[i].key, w.value, t(|body| + 1))])
  {
    hide InsertItem;
    if i < |items| { assert items[i..][0] == items[i] && items[i..][1..] == items[i + 1..]; }
  }

  /** Eviction leaves exactly the `max` newest documents. */
  lemma EvictStep(s: Store, c: Text, max: nat, tx: Text, t: Clock, accepts: Schema)
    requires Inv(s.ram)
    ensures KeepsNewest(CollectionOf(s.ram.docs, c), CollectionOf(Step(s, Runs.Evict(c, max, tx, t), accepts).ram.docs, c), max)
  {
    hide Step, Transaction, Inv, EvictedKeys, DeleteBatch, Bracket, KeepsNewest;
    var op := Runs.Evict(c, max, tx, t);
    StepWrites(s, op, accepts);
    ChosenTxn(s.ram, op, accepts);
    if c in s.ram.docs && |s.ram.docs[c]| > max {
      EvictKeepsNewest(s.ram, c, max, t);
      EvictsSome(s.ram, c, max);
      DeleteBatchKeeps(s.ram, c, EvictedKeys(s.ram, c, max), t);
    } else {
      EvictsNone(s.ram, c, max);
      AllKept(CollectionOf(s.ram.docs, c), max);
    }
  }

  lemma AllKept(col: Collection, max: nat)
    requires |col| <= max
    ensures KeepsNewest(col, col, max)
  {
    hide SeqOf;
  }

  lemma EvictsNone(ram: Ram, c: Text, max: nat)
    requires !(c in ram.docs && |ram.docs[c]| > max)
    ensures EvictedKeys(ram, c, max) == []
  {
  }

  lemma EvictsSome(ram: Ram, c: Text, max: nat)
    requires Inv(ram) && c in ram.docs && |ram.docs[c]| > max
    ensures EvictedKeys(ram, c, max) != []
  {
    hide Inv, DecodedRank, RankOf;
    DecodedRankIsRank(ram, c);
    LiveInjective(ram, c);
    RankingLength(Ranking(RankOf(ram.docs[c])), RankOf(ram.docs[c]));
    RankSize(ram.docs[c]);
  }

  lemma RankSize(col: Collection)
    ensures |RankOf(col)| == |col|
  {
    hide SeqOf;
    assert RankOf(col).Keys == col.Keys;
  }

  lemma DeleteBatchKeeps(ram: Ram, c: Text, keys: seq<Text>, t: Clock)
    requires c in ram.docs
    ensures c in DeleteBatch(ram, c, keys, t).ram.docs
  {
  }

  lemma NoEntries()
    ensures FileOf([]) == []
  {
    assert Payloads([]) == [];
  }

  lemma DocAtKey(docs: Docs, c: Text, key: Text)
    requires DocAt(docs, c, key).Some?
    ensures c in docs && key in docs[c]
  {
  }

  lemma StepGood(s: Store, c: Text, items: seq<Item>, tx: Text, t: Clock, accepts: Schema)
    ensures StepOk(s, Runs.Insert(c, items, tx, t), accepts) ==> GoodItems(items)
  {
    hide Step, GoodItem;
  }

  lemma DeleteTxn(ram: Ram, op: Op, accepts: Schema)
    requires op.Delete?
    ensures var b := DeleteBatch(ram, op.c, op.keys, op.t); Transaction(ram, op, accepts) == Some(Txn(b.ram, b.body, true))
  {
    hide DeleteBatch;
  }

  lemma ChosenTxn(ram: Ram, op: Op, accepts: Schema)
    requires op.DeleteN? || op.DeleteFiltered? || op.Evict?
    ensures var keys := (match op
                         case DeleteN(c, n, asc, _, _) => CountedKeys(ram, c, n, asc)
                         case DeleteFiltered(c, m, limit, asc, _, _) => FilteredKeys(ram, c, m, limit, asc)
                         case Evict(c, max, _, _) => EvictedKeys(ram, c, max));
            var b := DeleteBatch(ram, op.c, keys, op.t);
            Transaction(ram, op, accepts) == if keys == [] then None else Some(Txn(b.ram, b.body, true))
  {
    hide DeleteBatch, CountedKeys, FilteredKeys, EvictedKeys;
  }

  lemma KeepAll(col: Collection)
    ensures Restrict(RankOf(col), k => k in col && ((k: Text, b: Bytes) => true)(k, col[k])) == RankOf(col)
  {
    hide SeqOf;
  }

  lemma RestrictInjective(rank: Rank, keep: Text -> bool)
    requires Injective(rank)
    ensures Injective(Restrict(rank, keep))
  {
  }

  lemma AscendingListing(rank: Rank)
    ensures Listing(rank, true) == Ranking(rank)
  {
  }
}
