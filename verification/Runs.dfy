/** Whole runs of the engine against its disk: every write is one bracketed transaction in the
    log, compaction swaps the log for a snapshot, and a crash keeps some prefix of the log. */
module Runs {
  import opened Bytes
  import opened Json
  import opened Codec
  import opened Canonical
  import opened Tokens
  import opened LogCodec
  import opened Replay
  import opened Documents
  import opened Order
  import opened Engine

  /** Snapshot entries (none before the first compaction) and the log written since. */
  datatype Disk = Disk(snapshot: seq<LogEntry>, log: seq<LogEntry>)

  datatype Store = Store(ram: Ram, disk: Disk)

  const INIT := Store(EMPTY, Disk([], []))

  /** The documents a restart would recover from the first `k` log entries. */
  function Readable(disk: Disk, k: nat): Docs
    requires k <= |disk.log|
  {
    Recovered(CanonLog(disk.snapshot + disk.log[..k]))
  }

  /** The documents a restart would recover. */
  function OnDisk(disk: Disk): Docs {
    Readable(disk, |disk.log|)
  }

  // ----- Operations -----

  datatype Op =
    | Insert(c: Text, items: seq<Item>, tx: Text, t: Clock)
    | Update(c: Text, key: Text, updates: Value, now: u64, tx: Text, t: Clock)
    | Delete(c: Text, keys: seq<Text>, tx: Text, t: Clock)
    | DeleteN(c: Text, n: nat, asc: bool, tx: Text, t: Clock)
    | DeleteFiltered(c: Text, matches: (Text, Bytes) -> bool, limit: Option<nat>, asc: bool, tx: Text, t: Clock)
    | Evict(c: Text, max: nat, tx: Text, t: Clock)
    | Drop(c: Text, tx: Text, t: Clock)
    | Compact(order: seq<(Text, Text)>)
    | Crash(kept: nat)

  /** Effect of a write: new memory, logged body, and whether the commit marker follows. */
  datatype Txn = Txn(ram: Ram, body: seq<LogEntry>, committed: bool)

  const STAR: Text := [0x2a]

  /** Keys picked by `delete_n`: straight from the ordered index, or by a scan without one. */
  ghost function CountedKeys(ram: Ram, c: Text, n: nat, asc: bool): seq<Text> {
    if c !in ram.docs then []
    else if c in ram.index then
      var walk := Walk(ram.index[c], Ascending(ram.index[c].Keys));
      Take(if asc then walk else Reverse(walk), n)
    else Take(Listing(RankOf(ram.docs[c]), asc), n)
  }

  /** Keys picked by `delete_filtered`: the matches, by `_seq`, up to the limit. */
  ghost function FilteredKeys(ram: Ram, c: Text, matches: (Text, Bytes) -> bool, limit: Option<nat>, asc: bool): seq<Text> {
    if c !in ram.docs then []
    else
      var col := ram.docs[c];
      var all := Listing(Restrict(RankOf(col), k => k in col && matches(k, col[k])), asc);
      match limit case None => all case Some(n) => Take(all, n)
  }

  /** `_seq` as `evict_oldest` reads it: from the decoded document. */
  ghost function DecodedRank(col: Collection): Rank {
    map k | k in col && Decode(col[k]).Some? :: Or(U64At(Decode(col[k]).value, IKEY_SEQ), 0xffff_ffff_ffff_ffff)
  }

  /** Keys evicted to bring a collection down to `max` documents. */
  ghost function EvictedKeys(ram: Ram, c: Text, max: nat): seq<Text> {
    if c in ram.docs && |ram.docs[c]| > max then Take(Ranking(DecodedRank(ram.docs[c])), |ram.docs[c]| - max) else []
  }

  ghost function DeleteChosen(ram: Ram, c: Text, keys: seq<Text>, t: Clock): Option<Txn> {
    if keys == [] then None
    else var b := DeleteBatch(ram, c, keys, t); Some(Txn(b.ram, b.body, true))
  }

  /** The transaction of a write; None when nothing is written. */
  ghost function Transaction(ram: Ram, op: Op, accepts: Schema): Option<Txn>
    requires !op.Compact? && !op.Crash?
  {
    match op
    case Insert(c, items, _, t) =>
      var b := InsertBatch(ram, c, items, accepts, t); Some(Txn(b.ram, b.body, b.ok))
    case Update(c, key, updates, now, _, t) =>
      (match UpdateDoc(ram, c, key, updates, now, accepts)
       case NotFound => Some(Txn(ram, [], true))
       case Conflict => Some(Txn(ram, [], false))
       case Invalid => Some(Txn(ram, [], false))
       case Updated(ram', v) => Some(Txn(ram', [LogEntry(IKEY_INSERT, c, key, v, t(1))], true)))
    case Delete(c, keys, _, t) =>
      var b := DeleteBatch(ram, c, keys, t); Some(Txn(b.ram, b.body, true))
    case DeleteN(c, n, asc, _, t) => DeleteChosen(ram, c, CountedKeys(ram, c, n, asc), t)
    case DeleteFiltered(c, m, limit, asc, _, t) => DeleteChosen(ram, c, FilteredKeys(ram, c, m, limit, asc), t)
    case Evict(c, max, _, t) => DeleteChosen(ram, c, EvictedKeys(ram, c, max), t)
    case Drop(c, _, t) => Some(Txn(DropCollection(ram, c), [LogEntry(IKEY_DROP, c, STAR, Null, t(1))], true))
  }

  function BeginOf(c: Text, tx: Text, t: Clock): LogEntry {
    LogEntry(IKEY_TX_BEGIN, c, tx, Null, t(0))
  }

  function CommitOf(c: Text, tx: Text, t: Clock, n: nat): LogEntry {
    LogEntry(IKEY_TX_COMMIT, c, tx, Null, t(n + 1))
  }

  /** The log entries of a transaction; a failed one stays open. */
  function Bracket(c: Text, tx: Text, t: Clock, body: seq<LogEntry>, committed: bool): seq<LogEntry> {
    [BeginOf(c, tx, t)] + body + (if committed then [CommitOf(c, tx, t, |body|)] else [])
  }

  /** Snapshot entries for the documents enumerated by `order`. */
  function SnapshotOf(docs: Docs, order: seq<(Text, Text)>): seq<LogEntry>
    decreases order
  {
    if order == [] then []
    else
      var (c, k) := order[0];
      (match DocAt(docs, c, k) case Some(v) => [LogEntry(IKEY_INSERT, c, k, v, 0)] case None => [])
      + SnapshotOf(docs, order[1..])
  }

  /** The memory of a freshly opened database: index and counters are rebuilt from the documents. */
  ghost function Rebuild(docs: Docs): Ram {
    Ram(docs,
        map c | c in docs :: Wrap(MaxSeq(RankOf(docs[c])) + 1),
        map c | c in docs :: IndexFor(RankOf(docs[c])))
  }

  ghost function Step(s: Store, op: Op, accepts: Schema): Store {
    match op
    case Compact(order) => Store(s.ram, Disk(SnapshotOf(s.ram.docs, order), []))
    case Crash(kept) =>
      if kept <= |s.disk.log| then
        Store(Rebuild(Readable(s.disk, kept)), Disk(s.disk.snapshot, s.disk.log[..kept]))
      else s
    case _ =>
      match Transaction(s.ram, op, accepts)
      case None => s
      case Some(x) =>
        Store(x.ram, s.disk.(log := s.disk.log + Bracket(op.c, op.tx, op.t, x.body, x.committed)))
  }

  /** The store after a run. */
  ghost function After(ops: seq<Op>, accepts: Schema): Store {
    if ops == [] then INIT else Step(After(ops[..|ops| - 1], accepts), ops[|ops| - 1], accepts)
  }

  // ----- Admissible runs -----

  /** `order` lists every stored document. */
  ghost predicate Enumerates(order: seq<(Text, Text)>, docs: Docs) {
    forall c, k | DocAt(docs, c, k).Some? :: (c, k) in order
  }

  /** Documents are objects without reserved keys, updates keep a document's identity, JSON objects
      are key-ordered at every depth, counters do not wrap, and no entry reaches the 4 GiB frame limit. */
  ghost predicate StepOk(s: Store, op: Op, accepts: Schema) {
    && AllLoggable(Step(s, op, accepts).disk.log) && AllLoggable(Step(s, op, accepts).disk.snapshot)
    && match op
       case Insert(c, items, _, _) => GoodItems(items) && Counter(s.ram, c) + |items| < TWO_64
       case Update(_, _, updates, _, _, _) => updates.Obj? ==> KeepsIdentity(updates.fields) && WellOrdered(updates)
       case Compact(order) => Enumerates(order, s.ram.docs)
       case Crash(kept) => kept <= |s.disk.log|
       case _ => true
  }

  ghost predicate RunOk(ops: seq<Op>, accepts: Schema) {
    ops == [] ||
    (RunOk(ops[..|ops| - 1], accepts) && StepOk(After(ops[..|ops| - 1], accepts), ops[|ops| - 1], accepts))
  }

  // ----- Log segments under replay -----

  predicate BodyCommand(cmd: Text) {
    cmd == IKEY_INSERT || cmd == IKEY_DELETE || cmd == IKEY_DROP
  }

  predicate IsBody(body: seq<LogEntry>) {
    forall i | 0 <= i < |body| :: BodyCommand(body[i].cmd)
  }

  lemma IkeysFixed(cmd: Text)
    requires BodyCommand(cmd) || cmd == IKEY_TX_BEGIN || cmd == IKEY_TX_COMMIT
    ensures CanonCommand(cmd) == cmd
    ensures BodyCommand(cmd) ==> cmd != IKEY_TX_BEGIN && cmd != IKEY_TX_COMMIT
    ensures IKEY_TX_BEGIN != IKEY_TX_COMMIT
  {
    assert cmd == [0x2d, 0x31, cmd[2]];
    assert IkeyCommand(cmd) != 0;
    assert cmd[0] == 0x2d;
    assert IKEY_TX_BEGIN[2] == 0x36 && IKEY_TX_COMMIT[2] == 0x37;
  }

  lemma CanonLogConcat(a: seq<LogEntry>, b: seq<LogEntry>)
    ensures CanonLog(a + b) == CanonLog(a) + CanonLog(b)
  {
  }

  lemma CanonBodyPlain(body: seq<LogEntry>)
    requires IsBody(body)
    ensures Plain(CanonLog(body)) && IsBody(CanonLog(body))
  {
    forall i | 0 <= i < |body| ensures CanonLog(body)[i].cmd == body[i].cmd {
      IkeysFixed(body[i].cmd);
    }
    forall i | 0 <= i < |body|
      ensures CanonLog(body)[i].cmd != IKEY_TX_BEGIN && CanonLog(body)[i].cmd != IKEY_TX_COMMIT
    {
      IkeysFixed(body[i].cmd);
    }
  }

  lemma CanonBracket(c: Text, tx: Text, t: Clock, body: seq<LogEntry>, committed: bool, k: nat)
    requires k <= |Bracket(c, tx, t, body, committed)|
    ensures CanonLog(Bracket(c, tx, t, body, committed)[..k])
         == ([CanonEntry(BeginOf(c, tx, t))] + CanonLog(body) + [CanonEntry(CommitOf(c, tx, t, |body|))])[..k]
  {
    hide CanonEntry;
  }

  /** Any prefix of a transaction's entries leaves the documents as they were, unless it is the
      whole of a committed one. */
  lemma FeedBracket(r: Replayer, c: Text, tx: Text, t: Clock, body: seq<LogEntry>, committed: bool, k: nat)
    requires IsBody(body) && k <= |Bracket(c, tx, t, body, committed)|
    ensures var seg := Bracket(c, tx, t, body, committed);
            FeedAll(r, CanonLog(seg[..k])).docs
            == if committed && k == |seg| then ApplyAll(r.docs, CanonLog(body)) else r.docs
  {
    hide ApplyAll, FeedAll, Canon;
    var seg := Bracket(c, tx, t, body, committed);
    var begin, commit := CanonEntry(BeginOf(c, tx, t)), CanonEntry(CommitOf(c, tx, t, |body|));
    IkeysFixed(IKEY_TX_BEGIN);
    IkeysFixed(IKEY_TX_COMMIT);
    CanonBodyPlain(body);
    var whole := [begin] + CanonLog(body) + [commit];
    CanonBracket(c, tx, t, body, committed, k);
    FeedBracketPrefix(r, begin, CanonLog(body), commit, k);
  }
}
