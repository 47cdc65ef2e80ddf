# MoltenDB core: a verified model

MoltenDB keeps JSON documents in memory as tokenised MessagePack and makes them durable through an
append-only log with snapshots. This project models the engine in Dafny 4.11 and proves what it
promises: that a crash never shows half a write, that the fast paths on raw bytes mean what the slow
ones on decoded values mean, and that batching and parallelism are invisible in the answers.

To check the whole project, call `dafny verify dfyconfig.toml`.

## Layers

* **Bytes and values.** `Bytes`, `Json`, `Codec`, `Canonical`, `Tokens` define text, JSON values,
  encoding and decoding; `CodecOps` is the same codec as buffer-pushing writers and cursor-advancing
  readers, and `Formats` pins the bytes to the MessagePack specification. Text is its UTF-8 bytes, an
  object is its fields in key order, a double is its 64-bit pattern.
* **Log and replay.** `Framing` and `LogCodec` give the log file byte by byte, `Replay` the
  transaction buffer and the state maps, `PointInTime` recovery to a time or an entry count.
* **The store as a state machine.** `Documents` and `Engine` define insert, update and delete on
  memory (documents, `_seq` counters, `_seq` index); `Runs` adds the disk and the steps of a run:
  insert, update, delete, delete-n, delete-filtered, evict, drop, compact, and crash followed by
  reopen. `Durability`, `Invariants`, `Versions`, `Recovery` and `Limits` prove what holds of every
  run; `Lifetimes` follows one document through it, `Encodings` the stored bytes, `FailedBatch` is a
  run that parts memory and disk. `Contents` says field by field what a stored document holds after a
  write and which documents a delete removes. `Database` is the mutable `Db` object; each of its
  methods performs exactly one step of the run model, down to the bytes of the log file.
* **Queries.** `Walker` (path lookup on raw bytes), `Where` (WHERE on bytes and on decoded values),
  `Meaning` (both measured against comparison, text and logic as a client writes them), `Agreement` and `Elements` (the first refines the second, and where it does not), `SystemFields`
  (raw and decoded system fields), `FastPredicates` (query rewriting), `Order`, `Sorting`, `Scan`,
  `Positions`, `Pages` (paged reads), `TopN`, `Floats`, `Comparator`, `SortOrder`, `SortPlans` (bounded
  heaps, comparators and the order they stand for), `Coalesce` (the batching coordinator), `Pagination` (one page behind a cursor), `Cursors` (a client
  that follows it), `Projection`.
* **Time to live.** `Ttl` (the sweep) and `Calendar` (`_expiresAt`).

## Assumptions

What the theorems take for granted is written in their `requires` clauses. In words:

* Writers are serial: a second TX_BEGIN clears the only replay buffer.
* Inserted documents are objects without reserved top-level keys, as the set handler enforces;
  updates carry no `-3` or `-4` key (`_seq`, `_createdAt`). Text is valid UTF-8 and lengths fit in
  32 bits. `_seq` counters do not wrap. Objects are key-ordered, as the JSON library keeps them.
* Snapshot writes succeed, and the swap of snapshot and log is a step.
* Lower-casing, rounding of integers to f64, the epsilon test, `as u64` and the decimal text of a
  number belong to the host language and are parameters (`Where.Host`). What is needed of them is
  stated: equal floats are not an epsilon apart and two finite floats are either within epsilon or
  apart (`Sane`), distinct integers below 2^53 are apart (`Tight`) and are exact as f64 (`Exact`),
  rounding never reverses an order (`Monotone`), the text of a number starts with a digit or a minus
  sign (`Decimal`).
* Clocks, transaction ids and JSON Schema validation are inputs of the operations.

## What the code does not do

Some properties one would expect are false of the code. Each of these has a concrete witness and a
condition, proved for all inputs, under which it holds.

* A batch that fails midway leaves documents in memory that the log never commits. Witness:
  `FailedBatch.FailedBatchWitness`. Memory and disk agree after a failed batch iff its first document
  was the rejected one (`Recovery.FailedBatchDiverges`), and again after the next compaction or
  restart (`Recovery.LiveEqualsReplay`).
* Raw and decoded WHERE differ on numeric equality. Witness: `Agreement.NumericEqualityShrinks`. They
  agree iff the numbers are not merely within an epsilon (`Agreement.NumericAgreement`).
* They differ on `$contains` over arrays. Witness: `Agreement.ArrayContainsShrinks`. As long as the
  raw reader keeps its place they agree iff no string merely contains the needle or one equals it
  (`Elements.ArrayContains`).
* The raw reader can lose its place in an array, because the cursor has already moved by one byte when
  an element that is not a string is skipped. Witness: `Elements.StrayWalk`. It keeps its place when
  what follows the first byte of every such element is exactly one value again
  (`Elements.WalkInside`), as in a list of one element or in the integer 160; over strings and
  one-byte values it does so iff every element is a string (`Elements.WalkStaysIff`).
* After an update the raw token reader, which is first-wins, sees the old `_v` and `_modifiedAt`,
  while decoding, which is last-wins, sees the new ones. Witness: `SystemFields.StaleVersion`; in
  general `SystemFields.PatchedReaders`. The readers agree iff the field is not stored twice with
  different integers (`SystemFields.TokenReadersAgree`).
* The sweep drops a collection whose TTL has been removed when the old entry falls due. Witness:
  `Ttl.RemovedTtlStillDrops`. `Ttl.Sweep.Evict` says exactly what is dropped. The sweep's own comment
  names the case, whereas `set_ttl_default` is documented as removing the TTL.
* A client that follows the `_seq` cursor and stops at an empty page can miss matches, because a page
  is selected on bytes and filtered again decoded. Witness: `Cursors.StopsEarly`. With pages of size c
  it sees every document that passes both filters iff no c selected documents in a row that fail
  decoded stand in front of one that passes (`Cursors.Enumerate`).
* A `sort` array with one entry is answered from raw bytes; one with a second entry that names no field
  asks for the same order and is answered by the comparator. The two answers differ when a match has
  no number at the field, which the first leaves out, and when a match at -0.0 and one at +0, which
  only the first tells apart, have their keys the other way round. Witnesses: `SortPlans.NumberMissing` and `SortPlans.SignedZeros`. They are the same for
  every cap iff neither happens (`SortPlans.PlansAgreeIff`). The comparator also sorts the results of
  requests with joins, keys or key prefixes, whose ties go by fetch order and not by key; that sort is
  not compared here.

## Model

| member | source | states |
|---|---|---|
| `Codec.RoundTrip` | moltendb-core/src/common/system_field_tokens.rs:51-416 | decoding an encoded value in front of any trailing bytes gives the value in canonical form (system keys as integer keys at every depth, later spelling wins) and stops exactly where the encoding ends |
| `Codec.NumberRoundTrip` | moltendb-core/src/common/system_field_tokens.rs:93-130 | every integer and finite double survives its shortest-form encoding with its kind (unsigned, negative, double) intact, whatever follows |
| `Codec.KeyRoundTrip` | moltendb-core/src/common/system_field_tokens.rs:74-91 | a map key reads back as itself, or as its integer key when it is a system name under either spelling |
| `Codec.DecodeEncode` | moltendb-core/src/common/system_field_tokens.rs:178-181 | `msgpack_to_value(value_to_msgpack(v))` is the canonical form of `v` |
| `Canonical.CanonIdempotent` | moltendb-core/src/common/system_field_tokens.rs:408-470 | storing and loading a second time changes nothing |
| `Canonical.CanonStorable` | moltendb-core/src/common/system_field_tokens.rs:408-470 | what was loaded can be stored again |
| `Canonical.LookupCanonFields` | moltendb-core/src/common/system_field_tokens.rs:408-416 | reading a map back is last-wins among the fields stored under one key |
| `CodecOps.Writer.WriteValue` | moltendb-core/src/common/system_field_tokens.rs:51-72 | the writer appends exactly the encoding of the value to the buffer |
| `CodecOps.Writer.WriteNumber` | moltendb-core/src/common/system_field_tokens.rs:93-130 | appends the shortest form of a number |
| `CodecOps.Writer.WriteStr` | moltendb-core/src/common/system_field_tokens.rs:132-147 | appends header and bytes of a string |
| `CodecOps.Writer.WriteMapKey` | moltendb-core/src/common/system_field_tokens.rs:74-91 | appends one token byte for a system key under either spelling, a string otherwise |
| `CodecOps.Writer.WriteEntry` | moltendb-core/src/common/system_field_tokens.rs:667-706 | appends the five-field map of a log entry with its command as a token when it has one |
| `Formats.UintForms` | moltendb-core/src/common/system_field_tokens.rs:93-110 | an unsigned integer takes the shortest MessagePack form that holds it, digit by digit most significant first |
| `Formats.NegativeForms` | moltendb-core/src/common/system_field_tokens.rs:111-125 | a negative integer likewise, as its twos complement |
| `Formats.DoubleForm` | moltendb-core/src/common/system_field_tokens.rs:126-129 | a double is 0xcb and its eight pattern bytes |
| `Formats.TextHeaderForm` | moltendb-core/src/common/system_field_tokens.rs:132-147 | the four forms of a text header |
| `Formats.ListHeaderForm` | moltendb-core/src/common/system_field_tokens.rs:149-159 | the three forms of a list header |
| `Formats.MapHeaderForm` | moltendb-core/src/common/system_field_tokens.rs:161-171 | the three forms of a map header |
| `Formats.KeyForms` | moltendb-core/src/common/system_field_tokens.rs:74-91 | each system key is its own byte from 0xff down, under either spelling |
| `Formats.CommandForms` | moltendb-core/src/common/system_field_tokens.rs:667-706 | each log command is its own byte, under either spelling |
| `Formats.FrameForm` | moltendb-core/src/engine/storage/disk/sync_storage.rs:71-79 | a frame is the payload behind its length in four bytes, least significant first |
| `CodecOps.ReadValue` | moltendb-core/src/common/system_field_tokens.rs:183-387 | the cursor reader returns what decoding the remaining bytes returns and leaves the cursor where that stopped, on every byte string |
| `CodecOps.ReadArray` | moltendb-core/src/common/system_field_tokens.rs:400-406 | the element loop, likewise |
| `CodecOps.ReadMap` | moltendb-core/src/common/system_field_tokens.rs:408-416 | the entry loop, likewise; a repeated key overwrites |
| `CodecOps.ReadMapKey` | moltendb-core/src/common/system_field_tokens.rs:422-470 | a token byte becomes its integer text, any other key must be a string |
| `CodecOps.StoreAndLoad` | moltendb-core/src/common/system_field_tokens.rs:45-49 | writer and reader composed: the canonical form of the value |
| `CodecOps.ReadTokenU64` | moltendb-core/src/common/system_field_tokens.rs:513-595 | the token loop returns the value of the first entry under the token |
| `CodecOps.ReadEntry` | moltendb-core/src/common/system_field_tokens.rs:709-781 | the field loop accepts fields in any order and steps over unknown ones |
| `Tokens.SkipEncoded` | moltendb-core/src/common/system_field_tokens.rs:640-648 | skipping one value stops exactly at the end of its encoding |
| `Tokens.ReadTokenEncoded` | moltendb-core/src/common/system_field_tokens.rs:513-595 | on an encoded object the raw token reader is first-wins, in contrast to decoding |
| `LogCodec.EntryRoundTrip` | moltendb-core/src/common/system_field_tokens.rs:667-781 | every log entry reads back with its command in integer form (unknown commands such as TTL_EXPIRY kept as they are) and its value canonical |
| `Framing.TornFile` | moltendb-core/src/engine/storage/disk/log.rs:63-86 | cutting a file of length-prefixed payloads at any byte leaves exactly the payloads of the whole frames readable |
| `Framing.Stream` | moltendb-core/src/engine/storage/disk/log.rs:40-86 | the cursor loop over the buffer yields exactly the readable payloads |
| `LogCodec.TornLog` | moltendb-core/src/engine/storage/disk/log.rs:63-86 | cutting the log file at any byte leaves exactly a prefix of the entries readable |
| `LogCodec.AppendEntry` | moltendb-core/src/engine/storage/disk/sync_storage.rs:71-79 | writing an entry appends one frame to the file |
| `Replay.ApplyAllEffect` | moltendb-core/src/engine/storage/mod.rs:272-332 | applying entries is last-writer-wins for every collection and key: the last insert, delete or drop that touches it decides |
| `Replay.ApplyIdempotent` | moltendb-core/src/engine/storage/mod.rs:272-332 | applying entries again to the state they produced changes no document |
| `Replay.FeedAllCommitted` | moltendb-core/src/engine/storage/mod.rs:219-268 | replay through the single transaction buffer equals applying the committed entries only |
| `Replay.ReplayIdempotent` | moltendb-core/src/engine/storage/mod.rs:219-268 | replaying a log over the documents it already produced changes nothing |
| `Replay.FeedBracketPrefix` | moltendb-core/src/engine/storage/mod.rs:223-261 | a transaction has no effect on the documents until its commit is read |
| `Replay.StateBuilder.Apply` | moltendb-core/src/engine/storage/mod.rs:272-332 | the state maps after one entry |
| `Replay.StateBuilder.Stream` | moltendb-core/src/engine/storage/mod.rs:210-268 | buffer, open transaction and state maps after any sequence of entries |
| `Documents.PublicNameWins` | moltendb-core/src/engine/operations/update.rs:80-89 | when an update leaves both spellings of a system field, the public one sorts later and is what reads back |
| `Documents.StampReadsBack` | moltendb-core/src/engine/operations/set.rs:68-117 | a stamped document reads back with exactly the version, times and `_seq` it was given |
| `Documents.MergedReadsBack` | moltendb-core/src/engine/operations/update.rs:70-90 | a merged document reads back with the new version and modification time and the old `_seq` and creation time |
| `Engine.PreparedReadsBack` | moltendb-core/src/engine/operations/set.rs:56-117 | first insert: version 1 and a fresh `_seq`; overwrite: next version, creation time and `_seq` kept |
| `Engine.PatchReadsBack` | moltendb-core/src/engine/operations/update.rs:51-91 | an update reads back with the version one higher, `_seq` and `_createdAt` unchanged |
| `Contents.PreparedHolds` | moltendb-core/src/engine/operations/set.rs:85-117 | the stored bytes decode to exactly the user fields of the inserted object, with or without an existing document, and to version, times and `_seq` as specified |
| `Contents.InsertContents` | moltendb-core/src/engine/operations/set.rs:53-143 | an insert step: a batch that goes through holds the last item under each key, and no batch changes a document under another key |
| `Contents.PatchedHolds` | moltendb-core/src/engine/operations/update.rs:70-90 | the stored bytes after an update decode to the new value of every user field it names and the old value of every other; an update that is not an object changes nothing |
| `Contents.UpdateContents` | moltendb-core/src/engine/operations/update.rs:43-125 | an update step: only a commit changes anything, then only the one document, which holds the update and was accepted by the schema |
| `Contents.DeleteContents` | moltendb-core/src/engine/operations/delete.rs:36-67 | exactly the listed documents are gone |
| `Contents.FilteredContents` | moltendb-core/src/engine/operations/delete.rs:92-161 | exactly the first matches up to the limit are gone |
| `Contents.CountedContents` | moltendb-core/src/engine/operations/delete.rs:175-229 | exactly the first `n` documents are gone |
| `Engine.InsertItemsInv` | moltendb-core/src/engine/operations/set.rs:53-143 | the index invariant survives every batch, whether it completes or stops at a rejected document |
| `Engine.UpdateInv` | moltendb-core/src/engine/operations/update.rs:43-101 | the index invariant survives every update |
| `Engine.DeleteKeysInv` | moltendb-core/src/engine/operations/delete.rs:36-67 | the index invariant survives deleting any list of keys, missing ones included |
| `Engine.DropInv` | moltendb-core/src/engine/mod.rs:463-477 | the index invariant survives dropping a collection |
| `Durability.TransactionApply` | moltendb-core/src/engine/operations/set.rs:44-180 | live documents after any write are the logged entries applied to the live documents before it |
| `Durability.ReadableExtended` | moltendb-core/src/engine/storage/mod.rs:223-261 | appending a transaction: every cut inside it recovers what was there before, and the whole of a committed one its effect |
| `Durability.CrashAtomicity` | moltendb-core/src/engine/storage/mod.rs:219-268 | for every run, failed batches included, and every number of log entries kept, replay gives exactly what was on disk after some prefix of the run, and that prefix holds every operation written entirely before the cut |
| `Invariants.RunInvariant` | moltendb-core/src/engine/open.rs:105-124 | after every run with failing batches, crashes, compactions and reopens: the index is exactly the graph from `_seq` to key, `_seq` values are distinct and below the counter |
| `Invariants.RebuildInv` | moltendb-core/src/engine/open.rs:105-124 | rebuilding index and counters from recovered documents re-establishes the invariant |
| `Invariants.SnapshotRestores` | moltendb-core/src/engine/storage/disk/snapshot.rs:67-94 | loading a snapshot gives back every document of the memory it was written from |
| `Lifetimes.VersionChain` | moltendb-core/src/engine/operations/set.rs:68-117 | over any stretch of a run that does not remove the document, compactions and clean reopens included, `_v` rises by the number of writes to it and `_createdAt` and `_seq` stay |
| `Lifetimes.CleanReopen` | moltendb-core/src/engine/open.rs:92-124 | reopening with the whole log leaves version, creation time and `_seq` of every document as they were |
| `Lifetimes.CrashGoesBack` | moltendb-core/src/engine/storage/mod.rs:219-268 | a crash that keeps part of the log puts every document back to where it stood after the longest prefix written before the cut |
| `Lifetimes.ChainAcrossCrash` | moltendb-core/src/engine/operations/set.rs:68-117 | across such a crash the chain continues from that prefix: `_v` counts the writes that survived and the writes made since |
| `Versions.TransactionAdvances` | moltendb-core/src/engine/operations/update.rs:51-90 | one write raises `_v` by the number of times it stores the document |
| `Versions.GuardedUpdate` | moltendb-core/src/engine/operations/update.rs:51-68 | an update with an integer guard commits if and only if the guard is the current version; otherwise nothing changes |
| `Recovery.LiveEqualsReplay` | moltendb-core/src/engine/storage/mod.rs:281-298 | after every run in which no insert batch has failed since the last compaction or restart, replaying the disk gives the decoded document that memory holds, for every collection and key |
| `Recovery.TornRestart` | moltendb-core/src/engine/storage/disk/log.rs:63-86 | cutting the log file of any run at any byte and restarting recovers exactly what was on disk after some prefix of the run, and that prefix holds every operation whose bytes lie before the cut |
| `Recovery.CrashRecoversPrefix` | moltendb-core/src/engine/storage/disk/log.rs:63-86 | document for document that is what memory held after the prefix, unless a batch had failed there since the last compaction or restart |
| `Recovery.CompactionPreserves` | moltendb-core/src/engine/storage/disk/sync_storage.rs:98-107 | snapshot plus any later segment replays to the same documents as the uncompacted log plus that segment |
| `Recovery.CompactionWindow` | moltendb-core/src/engine/storage/disk/sync_storage.rs:50-65 | a crash between installing the snapshot and resetting the log changes no document |
| `Recovery.CompactionInvisible` | moltendb-core/src/engine/storage/disk/sync_storage.rs:115-151 | in every run, compacting at any point is invisible to a restart, with and without later writes |
| `Recovery.FailedBatchDiverges` | moltendb-core/src/engine/operations/set.rs:53-143 | a failed insert batch leaves memory and disk in agreement if and only if its first document was the rejected one |
| `FailedBatch.FailedBatchWitness` | moltendb-core/src/engine/operations/set.rs:53-143 | a two-document batch into an empty database whose second document the schema rejects: the first is in memory and a restart does not find it |
| `Encodings.RunEncoded` | moltendb-core/src/common/system_field_tokens.rs:45-72 | after every run each stored document is the encoding of a storable value with keys in order at every depth |
| `PointInTime.Recoverer.RecoverTo` | moltendb-core/src/engine/operations/recover.rs:26-72 | snapshot and log are replayed up to the first entry that is too late or one too many, the entries of both counted together |
| `PointInTime.SplitAccepted` | moltendb-core/src/engine/operations/recover.rs:26-72 | a stop inside the snapshot is final: the log that is streamed afterwards contributes nothing |
| `PointInTime.RecoverToSeq` | moltendb-core/src/engine/operations/recover.rs:26-72 | with any `to_seq = k`, exactly the replay of the first `k` entries, or of all when there are fewer |
| `PointInTime.RecoverToTime` | moltendb-core/src/engine/operations/recover.rs:26-72 | with a time, exactly the entries before the first later one |
| `Database.Db.StoreItem` | moltendb-core/src/engine/operations/set.rs:56-143 | one item: counter, stamp, schema check, map and index are those of the specified step; a stored document decodes to exactly the user fields of the item and the managed ones, carried on from the document it overwrites, and no other document changes |
| `Database.Db.Insert` | moltendb-core/src/engine/operations/set.rs:28-183 | memory, log and file after a batch are those of the run model, failing batches included; the result says whether every document was accepted; after a successful batch each key holds the user fields of the last item under it, and no other document changes |
| `Database.Db.Update` | moltendb-core/src/engine/operations/update.rs:23-146 | memory, log and file after an update, with the outcome (updated, not found, version conflict, schema error); after a commit the document has the new value of every user field the update names and its old value of every other, version one higher, creation time and `_seq` kept; nothing else changes, and nothing at all without a commit |
| `Database.Db.Delete` | moltendb-core/src/engine/operations/delete.rs:18-76 | memory, log and file after deleting a list of keys; exactly the listed documents are gone |
| `Database.Db.DeleteFiltered` | moltendb-core/src/engine/operations/delete.rs:92-161 | removes exactly the matches with fewer than `limit` matches before them in `_seq` order, oldest or newest first, and returns how many |
| `Database.Db.DeleteN` | moltendb-core/src/engine/operations/delete.rs:175-229 | removes exactly the documents with fewer than `n` documents before them in `_seq` order, through the index or without it, and returns how many |
| `Database.Db.EvictOldest` | moltendb-core/src/engine/operations/delete.rs:237-277 | decodes every document for its `_seq` and deletes the oldest: what is left are the newest documents up to the maximum |
| `Database.Db.DropCollection` | moltendb-core/src/engine/mod.rs:463-477 | documents, index and counter of the collection go, every other document stays; the drop is logged as a transaction |
| `Database.Db.InsertCapped` | moltendb-core/src/engine/mod.rs:290-339 | after a successful insert into a capped collection exactly the newest documents up to the maximum are left |
| `Database.Db.Reopen` | moltendb-core/src/engine/open.rs:92-124 | in every reachable state and with the log file cut at any byte, memory after reopening is the replay of the whole frames left, with index and counters rebuilt |
| `Database.Db.WriteSnapshot` | moltendb-core/src/engine/storage/disk/snapshot.rs:67-94 | the snapshot file holds one insert entry per document |
| `Database.Db.Compact` | moltendb-core/src/engine/storage/disk/sync_storage.rs:98-107 | the snapshot holds memory, the log is empty |
| `Database.BuildIndex` | moltendb-core/src/engine/open.rs:105-124 | index and next `_seq` of a collection, whatever order its documents are visited in |
| `Limits.CountedIsPrefix` | moltendb-core/src/engine/operations/delete.rs:175-229 | `delete_n` picks the first `n` of the listing whether or not there is an index |
| `Limits.EvictKeepsNewest` | moltendb-core/src/engine/operations/delete.rs:237-277 | eviction leaves exactly the maximum number of documents, each newer than every evicted one |
| `Limits.DeletePrefix` | moltendb-core/src/engine/operations/delete.rs:92-161 | deleting the first `n` matches of any predicate in either direction leaves everything else and exactly the rest of the listing |
| `Limits.DecodedRankIsRank` | moltendb-core/src/engine/operations/delete.rs:237-277 | `_seq` read from decoded documents and from raw bytes orders them alike |
| `Walker.FindValue` | moltendb-core/src/query.rs:122-153 | the cursor loops compute the specified lookup on every byte string |
| `Walker.WalkerAgrees` | moltendb-core/src/query.rs:122-153 | on an encoded document the byte lookup returns bytes beginning with the nested value if tree lookup finds it, and nothing otherwise |
| `Walker.FindMulti` | moltendb-core/src/query.rs:174-264 | on every byte string and every list of paths, each open slot gets what looking its path up alone gives, although the walk stops when no path is open |
| `Walker.Resolve` | moltendb-core/src/query.rs:216-262 | one map entry: every open path through its key is settled and the count of open paths stays exact |
| `Walker.FindValues` | moltendb-core/src/query.rs:165-171 | the one-pass lookup of all paths |
| `Walker.FindAnyExtends` | moltendb-core/src/query.rs:174-264 | on every byte string, whatever the single lookup finds the one-pass lookup finds at the same place |
| `Walker.MultiAgrees` | moltendb-core/src/query.rs:165-264 | on a stored document the one-pass lookup, the single lookup and tree lookup agree at every plain path |
| `Walker.NestedCanon` | moltendb-core/src/query.rs:527-537 | loading a stored document does not move what lies under a plain path |
| `Where.NumberAtEncoded` | moltendb-core/src/query.rs:397-463 | the raw number reader returns the same f64 as the decoded number, and nothing for any other value |
| `Where.TakeStringEncoded` | moltendb-core/src/query.rs:13-49 | the raw string reader succeeds exactly on strings |
| `Agreement.NestedExpand` | moltendb-core/src/common/system_field_tokens.rs:475-498 | public system names do not move what lies under a plain path |
| `Agreement.LeafRefines` | moltendb-core/src/query.rs:304-394 | one test: passing on bytes implies passing on the decoded value, with equality when the types match |
| `Agreement.WhereRefines` | moltendb-core/src/query.rs:602-836 | for clauses nested through `$or`, `$and` and arrays over plain paths, numeric equality included unless the two numbers are merely within epsilon: acceptance on bytes implies acceptance of the decoded document, which never errs; the verdicts are equal when every named field is present with a matching type |
| `Meaning.SplitMeaning` | moltendb-core/src/query.rs:301 | a path is cut at every dot and nowhere else: joining the parts gives the text back, and no part holds a dot |
| `Meaning.InfixMeaning` | moltendb-core/src/query.rs:375 | a text contains a needle iff the needle stands at some position of it |
| `Meaning.OrderingParses` | moltendb-core/src/common/where_operators.rs:34-65 | each comparison goes by its two names and no two share one |
| `Meaning.NameParses` | moltendb-core/src/common/where_operators.rs:34-65 | so do equality, inequality, the list operators and `$contains` |
| `Meaning.ComparisonMeaning` | moltendb-core/src/query.rs:351-370 | `$gt`, `$gte`, `$lt`, `$lte` under both of their names compare the exact values of the two numbers, on bytes and decoded; a field without a number passes neither |
| `Meaning.IntegerComparison` | moltendb-core/src/query.rs:761-788 | on integers below 2^53 both filters compare integers |
| `Meaning.IntegerEquality` | moltendb-core/src/query.rs:753-760 | on integers below 2^53 equality and inequality are those of integers, in every form |
| `Meaning.TextMeaning` | moltendb-core/src/query.rs:305-334 | equality and inequality of texts disregard case and `$contains` is a substring test, on bytes and decoded |
| `Meaning.ListMeaning` | moltendb-core/src/query.rs:335-350 | `$in` accepts a text iff it is, up to case, one of the listed texts, and `$nin` iff it is none of them |
| `Meaning.BooleanMeaning` | moltendb-core/src/query.rs:313-316 | booleans are compared as booleans |
| `Meaning.MissingMeaning` | moltendb-core/src/query.rs:725-748 | a missing field passes no test on bytes; decoded it is null, so only inequality holds |
| `Meaning.EqualityMeaning` | moltendb-core/src/query.rs:753-756 | decoded values are equal iff they are the same value, but for the sign of zero, at every depth |
| `Meaning.ValueEquality` | moltendb-core/src/query.rs:727-740 | an implied equality on a decoded value that is no text is that equality |
| `Meaning.RawLogic` | moltendb-core/src/query.rs:602-636 | on bytes `$or` asks for one clause, `$and` and a list for all of them |
| `Meaning.RawObject` | moltendb-core/src/query.rs:613-661 | an object asks for all of its fields |
| `Meaning.RawTests` | moltendb-core/src/query.rs:649-656 | a condition asks for all of its tests |
| `Meaning.DocLogic` | moltendb-core/src/query.rs:666-722 | decoded, when no clause errs, the same logic |
| `Meaning.DocObject` | moltendb-core/src/query.rs:682-835 | decoded, an object asks for all of its fields |
| `Meaning.DocTests` | moltendb-core/src/query.rs:750-832 | decoded, a condition asks for all of its tests |
| `Meaning.RawSystemMeaning` | moltendb-core/src/query.rs:289-300 | on bytes every comparison, equality and inequality on a system field is one on the raw reading |
| `Meaning.DecodedSystemMeaning` | moltendb-core/src/query.rs:753-788 | decoded it is one on the decoded reading |
| `Agreement.NumericEquality` | moltendb-core/src/query.rs:305-320 | in both forms, `{f: n}` and `{f: {$eq: n}}`, a numeric equality accepts on bytes iff the floats are within epsilon, and on decoded values iff the numbers are equal including their kind |
| `Agreement.NumericAgreement` | moltendb-core/src/query.rs:727-756 | the two filters agree iff the numbers are not merely within epsilon; they always agree on integers below 2^53, and on an integer and a double iff the two are not within epsilon |
| `Agreement.NumericEqualityShrinks` | moltendb-core/src/query.rs:305-320 | `{a: 1}` passes `{a: 1.0}` on bytes and fails it decoded |
| `Agreement.ArrayContainsShrinks` | moltendb-core/src/query.rs:371-393 | `{a: ["xy"]}` passes `$contains "x"` on bytes and fails it decoded |
| `Elements.ArrayContains` | moltendb-core/src/query.rs:371-393 | for every array whose elements keep their place, arrays of strings among them: on bytes some string must contain the needle, decoded some element must equal it, so the filters agree iff no string merely contains it or one equals it |
| `Elements.WalkInside` | moltendb-core/src/query.rs:379-391 | over strings and values whose bytes behind the first are exactly one value, the walk over the elements ends exactly behind the array |
| `Elements.SingletonInPlace` | moltendb-core/src/query.rs:379-391 | a nested list of one element, whatever it is, keeps the walk in its place |
| `Elements.ByteInPlace` | moltendb-core/src/query.rs:379-391 | an integer from 128 to 255 keeps the walk in its place iff its second byte is a value of one byte: 128, 144, 160, 192, 194, 195 or at least 224 |
| `Elements.WalkStaysIff` | moltendb-core/src/query.rs:379-391 | over strings and one-byte values the walk over the elements stays inside the array, whatever follows, iff every element is a string |
| `Elements.OneByteSwallows` | moltendb-core/src/query.rs:383-388 | after an element that is null, a boolean or a small integer the next value is skipped unread and the walk ends one value further on |
| `Elements.StrayWalk` | moltendb-core/src/query.rs:371-393 | `{a: [1, 2], b: "x"}` passes `{a: {$contains: "b"}}` on bytes, by the key of the next field, and fails it decoded |
| `SystemFields.TokenReadersAgree` | moltendb-core/src/common/system_field_tokens.rs:408-416 | the raw reader of a system field and the decoded document give the same integer iff the field is not stored under both spellings with different integers |
| `SystemFields.PreparedReaders` | moltendb-core/src/engine/operations/set.rs:68-117 | after an insert or overwrite the two readers agree on every managed field |
| `SystemFields.PatchedReaders` | moltendb-core/src/engine/operations/update.rs:70-90 | after an object update the raw `_v` and `_modifiedAt` are the old ones, the decoded ones the new ones |
| `SystemFields.RawBelow` | moltendb-core/src/query.rs:289-300 | on bytes `$lt` on a system field compares the raw reading |
| `SystemFields.DecodedBelow` | moltendb-core/src/query.rs:775-781 | on the decoded document it compares the decoded reading, exactly below 2^53 |
| `SystemFields.StaleVersion` | moltendb-core/src/query.rs:289-300 | `{"-1": 1, "_v": 2}` passes `{_v: {$lt: 2}}` on bytes and fails it decoded |
| `FastPredicates.ExtractPredicates` | moltendb-core/src/handlers/get/fetch.rs:269-321 | the loops return exactly the specified list, empty whenever the clause cannot be flattened |
| `FastPredicates.ExtractMeaning` | moltendb-core/src/handlers/get/fetch.rs:269-321 | a non-empty list decides the clause: its conjunction is the verdict of `evaluate_where_msgpack` on every byte string |
| `FastPredicates.ScanPredicateMeaning` | moltendb-core/src/handlers/get/fetch.rs:146-154 | the predicate used by the scan accepts exactly what the clause accepts on bytes |
| `Scan.WhereScan` | moltendb-core/src/engine/operations/get.rs:118-150 | the two-phase WHERE scan returns the page of the `_seq` listing |
| `Scan.IndexWalk` | moltendb-core/src/engine/operations/get.rs:152-178 | the index walk with early exit returns the same page |
| `Scan.FallbackScan` | moltendb-core/src/engine/operations/get.rs:179-198 | the scan without an index returns the same page |
| `Scan.SortScan` | moltendb-core/src/engine/operations/get.rs:201-262 | without a count: all matches from the offset on, oldest first |
| `Scan.CompactOrder` | moltendb-core/src/engine/operations/get.rs:51-59 | ordering compact items by the rounded `_seq` and then `_seq` is ordering by `_seq` |
| `Scan.GetFiltered` | moltendb-core/src/engine/operations/get.rs:88-263 | with a count all three plans compute skip/take of the matching documents in `_seq` order; without one, all matches from the offset on |
| `Pages.PageMeaning` | moltendb-core/src/engine/operations/get.rs:88-198 | the i-th document of a page is a stored match with exactly `offset + i` matches before it in `_seq` order, and the page is as long as the matches and the limit allow |
| `Pages.RestIsPage` | moltendb-core/src/engine/operations/get.rs:201-262 | without a count the answer is the page with room for every match |
| `Scan.ListingFilter` | moltendb-core/src/engine/operations/get.rs:152-178 | filtering the listing is listing what passes, in either direction |
| `Coalesce.CoalescedIsPage` | moltendb-core/src/engine/coalesce.rs:436-460 | the coalesced WHERE scan returns the page every other path returns |
| `TopN.PushBounded` | moltendb-core/src/engine/coalesce.rs:128-142 | after every push the heap holds exactly the best `cap` of everything offered |
| `TopN.MergeBounded` | moltendb-core/src/engine/coalesce.rs:418-424 | merging two heaps in any order keeps exactly the best `cap` of both parts |
| `TopN.SortedWinners` | moltendb-core/src/engine/coalesce.rs:463-472 | the heap in order is the first `cap` of the full sort |
| `TopN.BestIsPrefix` | moltendb-core/src/engine/coalesce.rs:463-472 | the best `cap` items, sorted, are the prefix of any full sort |
| `TopN.BoundedHeap.Push` | moltendb-core/src/engine/operations/get.rs:447-467 | the push-then-pop form keeps the same best `cap` |
| `TopN.BoundedHeap.Absorb` | moltendb-core/src/engine/operations/get.rs:482-488 | the reduce step of `scan_top_n` |
| `TopN.Winners` | moltendb-core/src/engine/operations/get.rs:469-493 | for every partition, visiting order and merge tree: exactly the first `cap` items of the full sort |
| `TopN.SortingUnique` | moltendb-core/src/engine/operations/get.rs:429-434 | the full sort by comparator and key is unique |
| `Floats.TotalComparePreorder` | moltendb-core/src/engine/coalesce.rs:117-124 | `total_cmp` is a total order on bit patterns |
| `Floats.NegateReverses` | moltendb-core/src/engine/coalesce.rs:395 | negating the values reverses their total order |
| `Floats.OrderIsValueOrder` | moltendb-core/src/handlers/get/document_processing.rs:17-19 | comparing two finite doubles by their patterns compares the exact numbers they stand for |
| `Comparator.CompareValuesLaws` | moltendb-core/src/handlers/get/document_processing.rs:11-26 | comparison of two optional values is antisymmetric and transitive across mixed types |
| `Comparator.ClassDecides` | moltendb-core/src/handlers/get/document_processing.rs:16-25 | values of different types stand in a fixed order: texts, numbers, lists, false, null, true, objects, and nothing last |
| `Comparator.ComparatorPreorder` | moltendb-core/src/handlers/get/document_processing.rs:30-64 | every `sort` array gives a total preorder on documents |
| `Comparator.ScanTopN` | moltendb-core/src/engine/operations/get.rs:393-493 | `scan_top_n` with such a comparator returns the first `cap` matching documents of the full sort, however the pass is divided |
| `SortOrder.LessMeaning` | moltendb-core/src/handlers/get/document_processing.rs:20-22 | a text is before another iff it is a proper prefix of it or smaller at the first byte where they differ |
| `SortOrder.CompareMeaning` | moltendb-core/src/handlers/get/document_processing.rs:11-26 | texts compare by their bytes, numbers by their exact values, any other two values by their JSON text, and a missing value comes last |
| `SortOrder.EntryMeaning` | moltendb-core/src/handlers/get/document_processing.rs:33-49 | a plain name and `"order": "asc"` ascend, `"desc"` in either case descends |
| `SortOrder.FirstDecides` | moltendb-core/src/handlers/get/document_processing.rs:32-63 | the first entry that tells two documents apart decides |
| `SortOrder.TopBySort` | moltendb-core/src/engine/operations/get.rs:393-493 | by any number of fields with any values: the answer is made of stored matches in the order asked for, ties by key, as many as the cap allows, and every match left out goes behind all of them |
| `SortOrder.TopByText` | moltendb-core/src/engine/operations/get.rs:393-493 | by one field of texts: rising in byte order, falling for `desc`, ties by key, with everything left out behind |
| `SortPlans.RawSortValue` | moltendb-core/src/engine/coalesce.rs:390-399 | the raw plan offers exactly the number that the decoded document has at a plain path |
| `SortPlans.RawSorted` | moltendb-core/src/engine/coalesce.rs:464-475 | in the raw list exact values never fall, or never rise when descending, and every match with a number that is left out goes behind |
| `SortPlans.PlansAgreeIff` | moltendb-core/src/handlers/process_get.rs:234-323 | for a `sort` array that names one field, with or without further entries that name none, the raw plan and the comparator plan return the same keys in the same order for every cap iff every match has a number there and no match at -0.0 and match at +0 have their keys the other way round than their signs |
| `SortPlans.ZerosDiffer` | moltendb-core/src/engine/operations/get.rs:393-493 | two such zeros stand in one order in the raw list and in the opposite order in the comparator list |
| `SortPlans.PlansDiffer` | moltendb-core/src/engine/coalesce.rs:390-399 | a match without a number at the field is missing from the raw list and in the general list once the cap has room for every match |
| `SortPlans.SignedZeros` | moltendb-core/src/handlers/process_get.rs:234-323 | `{f: 0}` at a, `{f: -0.0}` at b: the raw list is b, a and the comparator list is a, b |
| `SortPlans.NumberMissing` | moltendb-core/src/handlers/process_get.rs:234-323 | `{}` at a, `{f: 1}` at b: the raw list is b and the comparator list is b, a |
| `Coalesce.Visit` | moltendb-core/src/engine/coalesce.rs:371-410 | one document offered to one request keeps its accumulator exact for the keys visited |
| `Coalesce.Combine` | moltendb-core/src/engine/coalesce.rs:412-431 | joining accumulators of disjoint parts keeps them exact |
| `Coalesce.SharedPass` | moltendb-core/src/engine/coalesce.rs:367-431 | the shared pass computes for every request what a pass of its own would |
| `Coalesce.Finish` | moltendb-core/src/engine/coalesce.rs:434-475 | ordering, paging and decoding give the answer of the request on its own |
| `Coalesce.RunBatchForCollection` | moltendb-core/src/engine/coalesce.rs:326-478 | every request of the batch gets the answer it would get alone, under any schedule of the pass |
| `Coalesce.RunBatch` | moltendb-core/src/engine/coalesce.rs:311-317 | every request of the batch is answered exactly once |
| `Coalesce.CoordinatorLoop` | moltendb-core/src/engine/coalesce.rs:284-319 | for every arrival order and timing: batches are consecutive runs of 1 to 64 requests covering all of them, each answered once from the state in which its collection was scanned |
| `Pagination.RawCursor` | moltendb-core/src/query.rs:289-300 | on bytes `{"_seq": {"$lt": s}}` compares the raw `_seq` |
| `Pagination.DecodedCursor` | moltendb-core/src/query.rs:775-781 | on the decoded document the cursor compares the same `_seq` |
| `Pagination.Refilter` | moltendb-core/src/handlers/process_get.rs:350-391 | the loop keeps the accepted documents in order and stops at an evaluation error |
| `Pagination.KeptMeaning` | moltendb-core/src/handlers/process_get.rs:378-385 | the second filter errs iff some evaluation errs, and otherwise keeps exactly the accepted documents |
| `Pagination.SafeSurvives` | moltendb-core/src/handlers/process_get.rs:378-385 | a clause that is safe for the decoded document accepts decoded whatever it accepts on bytes |
| `Pagination.FetchPage` | moltendb-core/src/handlers/process_get.rs:427-433 | for every clause: the next selected documents below the cursor, filtered again; when the selected ones survive, the second filter never shrinks the page |
| `Pagination.CursorSelectsRest` | moltendb-core/src/engine/coalesce.rs:438-460 | after the first `i` documents the cursor selects exactly the rest |
| `Cursors.FollowIff` | moltendb-core/src/handlers/process_get.rs:427-433 | on any list: windows of c elements, each behind the last element shown, show everything that passes iff no c failing elements in a row stand in front of a passing one |
| `Cursors.PageIs` | moltendb-core/src/handlers/process_get.rs:350-433 | when no evaluation errs, the page behind the first i selected documents is the next window of the listing filtered decoded |
| `Cursors.Enumerate` | moltendb-core/src/handlers/process_get.rs:427-433 | for every clause a client that follows the cursor until an empty page ends; when no evaluation errs it has seen only documents that pass both filters, newest first and each once, and all of them if there is no gap of the least page size; with one page size, iff there is none |
| `Cursors.StopsEarly` | moltendb-core/src/handlers/process_get.rs:350-433 | newest `{a: 1}`, older `{a: 1.0}`, clause `{a: 1.0}`, page size 1: the client sees nothing, although the older document passes both filters |
| `Cursors.EnumerateAfter` | moltendb-core/src/handlers/process_get.rs:427-433 | in every reachable state, for a clause that is safe at every document and `_seq` below 2^53, following the cursor with any page sizes from 1 to 1000 shows every selected document exactly once, newest first |
| `Ttl.Sweep.constructor` | moltendb-server/src/ttl_sweep.rs:57-75 | startup drops exactly what has expired and enters the rest |
| `Ttl.Sweep.Insert` | moltendb-core/src/engine/mod.rs:342-361 | an insert with a default registers an expiry exactly that many seconds after the write and broadcasts it; every registered expiry keeps an entry no later than it |
| `Ttl.Sweep.SetDefault` | moltendb-core/src/engine/mod.rs:526-533 | removing the default removes the expiry without an event |
| `Ttl.Sweep.Drain` | moltendb-server/src/ttl_sweep.rs:81-88 | all events received are on the heap |
| `Ttl.Sweep.SleepFor` | moltendb-server/src/ttl_sweep.rs:91-96 | the sleep ends exactly at the earliest known expiry |
| `Ttl.Sweep.Evict` | moltendb-server/src/ttl_sweep.rs:109-134 | a round ends, drops exactly the collections with a due entry and no expiry in the future, and leaves no due entry; what is still registered as expired has its event on the way |
| `Ttl.Sweep.Turn` | moltendb-server/src/ttl_sweep.rs:79-135 | drain and evict: what has expired is no longer live, and a registered collection is dropped if and only if it has expired |
| `Ttl.DroppedIffExpired` | moltendb-server/src/ttl_sweep.rs:115-130 | for a registered collection, being dropped and being expired are the same |
| `Ttl.LivesItsTime` | moltendb-core/src/engine/mod.rs:342-361 | a collection written at `now` with a TTL of `secs` seconds is live after a turn of the sweep at `t` iff `t < now + 1000 * secs` |
| `Ttl.WritesProlong` | moltendb-core/src/engine/mod.rs:342-361 | with a second write it is the last write that counts |
| `Ttl.RemovedTtlStillDrops` | moltendb-server/src/ttl_sweep.rs:123-129 | a collection whose TTL was removed is still dropped when its old entry falls due |
| `Calendar.MsToIso` | moltendb-core/src/engine/operations/ttl.rs:27-43 | for every millisecond count, a valid date and time whose day number and seconds recompose to `ms / 1000`, and its text |
| `Calendar.SecondsOrder` | moltendb-core/src/engine/operations/ttl.rs:27-43 | the second count orders valid dates as the calendar does and tells them apart |
| `Calendar.YearStartStep` | moltendb-core/src/engine/operations/ttl.rs:32-37 | the year loop agrees with the closed form of the Gregorian rule |
| `Calendar.FormatReadsBack` | moltendb-core/src/engine/operations/ttl.rs:42 | through year 9999 the text has the shape of section 5.6 of RFC 3339 and parses back to the same instant |
| `Calendar.TextOrder` | moltendb-core/src/engine/operations/ttl.rs:27-43 | through year 9999 comparing texts is comparing instants |
| `Calendar.ConversionUnique` | moltendb-core/src/engine/operations/ttl.rs:27-43 | no two valid dates share a second count |
| `Projection.ProjectDoc` | moltendb-core/src/query.rs:513-524 | the loop computes the specified projection |
| `Projection.ProjectLeaves` | moltendb-core/src/query.rs:513-554 | a projection has exactly the leaves of the document at or below a listed field |
| `Projection.ProjectAgrees` | moltendb-core/src/query.rs:513-554 | a projection agrees with the document on every listed field, objects included, present or absent |
| `Projection.ProjectIdempotent` | moltendb-core/src/query.rs:513-524 | projecting twice is projecting once |
| `Projection.InsertNestedLookup` | moltendb-core/src/query.rs:539-554 | nested insertion: the new value below the path, the old one beside it, an object above it |
| `Projection.ExcludeDoc` | moltendb-core/src/query.rs:557-569 | the loop computes the specified exclusion |
| `Projection.ExcludeLeaves` | moltendb-core/src/query.rs:557-591 | an exclusion keeps exactly the leaves not at or below a listed field, although emptied parents are pruned |
| `Projection.ExcludeRemoves` | moltendb-core/src/query.rs:557-591 | every listed field is gone |
| `Projection.ProjectExcludePartition` | moltendb-core/src/query.rs:513-591 | projection and exclusion of the same fields divide the leaves between them |

## Left out

- Replay of TTL_EXPIRY and SCHEMA entries: expiry on replay depends on the clock and acts as a drop, schemas do not touch documents; runs contain neither.
- Interleaved writers, appends after a torn tail, failed snapshot writes, the window between the two renames of a snapshot, and `clear_all`: the code does not keep the invariants there.
- I/O failures and the read-only mode they cause, the asynchronous storage backend with its flush timing, gzip, at-rest encryption, the browser backend: the log is an append-only file with an atomic swap.
- Authentication, rate limiting, routes, WebSocket, request validation, response shaping, `extends` and joins: thin or single-branch code around the modelled core.
- Get by keys, key-prefix filters and the choice of scan strategy: each is a single branch over the modelled scans.
- `scan_top_n_raw` outside the coordinator: the same pushes as `TopN.PushBounded`, over the keys of the index.
- Codec.DecodeValue: the 1024-level nesting limit of the library that skips values is not modelled, nor stack exhaustion in the recursive reader.
- Replay.StateBuilder.Apply: a TTL_EXPIRY entry leaves the documents alone, where the source drops the collection when the expiry has passed by the clock.
- Replay.StateBuilder.Stream: the same, entry by entry.
- Database.Db.WriteSnapshot: the schema entries written after the documents are not modelled, since schemas are inputs here.
- Tokens.SkipEncoded: the 1024-level nesting limit of the library that skips values is not modelled.
- CodecOps.ReadTokenU64: a key whose announced length runs past the end of the buffer makes the code panic when it slices; the method returns nothing.
- Tokens.ReadToken: a key whose announced length runs past the end of the buffer makes the code panic when it slices; the model returns nothing.
- Agreement.WhereRefines: raw WHERE on system fields is left out because of the doubled tokens, which `SystemFields` treats; the `_seq` cursor, which is safe, is in `Pagination`.
- Ttl.Sweep.Evict: a drop that fails on I/O and events lost by a lagging receiver are not modelled.
- TopN.BoundedHeap.Push: a heap is the set of its items; how a binary heap arranges them is not modelled, since the keys of a collection are distinct.
- Walker.FindMulti: slices are byte sequences, so sharing of one buffer between the results is not visible.
- Elements.WalkInside: a sufficient condition; for an array with a wider element that loses its place, where the walk ends depends on the bytes found in the middle of the elements, and it may come back by accident. `Elements.WalkStaysIff` is exact, for strings and one-byte values only.
- SortPlans.PlansAgreeIff: requires a plain path; for a system field the raw plan looks for a string key and finds none.
