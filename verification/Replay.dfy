/** Rebuilding the document maps from a log: entries are applied one by one, except that the
    entries of a transaction wait in a single buffer until its commit. */
module Replay {
  import opened Bytes
  import opened Json
  import opened Codec
  import opened Canonical
  import opened LogCodec

  type Collection = map<Text, Bytes>
  type Docs = map<Text, Collection>

  function CollectionOf(docs: Docs, c: Text): Collection {
    if c in docs then docs[c] else map[]
  }

  /** The decoded document stored under a key, if any. */
  function DocAt(docs: Docs, c: Text, k: Text): Option<Value> {
    if c in docs && k in docs[c] then Decode(docs[c][k]) else None
  }

  /** Same decoded document under every key; the stored bytes may differ. */
  ghost predicate SameDocs(a: Docs, b: Docs) {
    forall c, k :: DocAt(a, c, k) == DocAt(b, c, k)
  }

  // ----- Applying entries -----

  /** `apply_entry`: schema, index and unknown commands leave the documents alone. */
  function ApplyEntry(docs: Docs, e: LogEntry): Docs {
    if e.cmd == IKEY_INSERT then
      docs[e.collection := CollectionOf(docs, e.collection)[e.key := Encode(e.value)]]
    else if e.cmd == IKEY_DELETE then
      if e.collection in docs then docs[e.collection := docs[e.collection] - {e.key}] else docs
    else if e.cmd == IKEY_DROP then docs - {e.collection}
    else docs
  }

  function ApplyAll(docs: Docs, es: seq<LogEntry>): Docs
    decreases es
  {
    if es == [] then docs else ApplyAll(ApplyEntry(docs, es[0]), es[1..])
  }

  lemma {:induction false} ApplyConcat(docs: Docs, a: seq<LogEntry>, b: seq<LogEntry>)
    ensures ApplyAll(docs, a + b) == ApplyAll(ApplyAll(docs, a), b)
    decreases a
  {
    if a == [] {
      assert a + b == b;
    } else {
      ApplyConcat(ApplyEntry(docs, a[0]), a[1..], b);
      assert (a + b)[1..] == a[1..] + b;
    }
  }

  // ----- What entries mean for one key -----

  datatype Effect = Keep | Gone | Put(val: Value)

  function EffectOf(e: LogEntry, c: Text, k: Text): Effect {
    if e.collection != c then Keep
    else if e.cmd == IKEY_INSERT then (if e.key == k then Put(e.value) else Keep)
    else if e.cmd == IKEY_DELETE then (if e.key == k then Gone else Keep)
    else if e.cmd == IKEY_DROP then Gone
    else Keep
  }

  /** The last entry that touches the key decides. */
  function LastEffect(es: seq<LogEntry>, c: Text, k: Text): Effect {
    if es == [] then Keep
    else if LastEffect(es[1..], c, k).Keep? then EffectOf(es[0], c, k)
    else LastEffect(es[1..], c, k)
  }

  function Outcome(before: Option<Value>, f: Effect): Option<Value> {
    match f
    case Keep => before
    case Gone => None
    case Put(v) => Decode(Encode(v))
  }

  lemma ApplyEntryEffect(docs: Docs, e: LogEntry, c: Text, k: Text)
    ensures DocAt(ApplyEntry(docs, e), c, k) == Outcome(DocAt(docs, c, k), EffectOf(e, c, k))
  {
    assert IKEY_INSERT[2] != IKEY_DELETE[2] && IKEY_INSERT[2] != IKEY_DROP[2] && IKEY_DELETE[2] != IKEY_DROP[2];
  }

  /** Replay is last-writer-wins per key. */
  lemma {:induction false} ApplyAllEffect(docs: Docs, es: seq<LogEntry>, c: Text, k: Text)
    ensures DocAt(ApplyAll(docs, es), c, k) == Outcome(DocAt(docs, c, k), LastEffect(es, c, k))
    decreases es
  {
    if es != [] {
      ApplyEntryEffect(docs, es[0], c, k);
      ApplyAllEffect(ApplyEntry(docs, es[0]), es[1..], c, k);
    }
  }

  /** Applying the same entries to states that agree gives states that agree. */
  lemma ApplyAllRespects(a: Docs, b: Docs, es: seq<LogEntry>)
    requires SameDocs(a, b)
    ensures SameDocs(ApplyAll(a, es), ApplyAll(b, es))
  {
    forall c, k ensures DocAt(ApplyAll(a, es), c, k) == DocAt(ApplyAll(b, es), c, k) {
      ApplyAllEffect(a, es, c, k);
      ApplyAllEffect(b, es, c, k);
    }
  }

  /** Applying entries again to the state they produced changes no document. */
  lemma ApplyIdempotent(docs: Docs, es: seq<LogEntry>)
    ensures SameDocs(ApplyAll(ApplyAll(docs, es), es), ApplyAll(docs, es))
  {
    var once := ApplyAll(docs, es);
    forall c, k ensures DocAt(ApplyAll(once, es), c, k) == DocAt(once, c, k) {
      ApplyAllEffect(docs, es, c, k);
      ApplyAllEffect(once, es, c, k);
    }
  }

  // ----- Transactions -----

  datatype Replayer = Replayer(docs: Docs, active: Option<Text>, buffer: seq<LogEntry>)

  const FRESH := Replayer(map[], None, [])

  /** One step of `stream_into_state`. */
  function Feed(r: Replayer, e: LogEntry): Replayer {
    if e.cmd == IKEY_TX_BEGIN then r.(active := Some(e.key), buffer := [])
    else if e.cmd == IKEY_TX_COMMIT then
      if r.active == Some(e.key) then Replayer(ApplyAll(r.docs, r.buffer), None, []) else r
    else if r.active.Some? then r.(buffer := r.buffer + [e])
    else r.(docs := ApplyEntry(r.docs, e))
  }

  function FeedAll(r: Replayer, log: seq<LogEntry>): Replayer
    decreases log
  {
    if log == [] then r else FeedAll(Feed(r, log[0]), log[1..])
  }

  /** The documents recovered from a log. */
  function Recovered(log: seq<LogEntry>): Docs {
    FeedAll(FRESH, log).docs
  }

  lemma {:induction false} FeedConcat(r: Replayer, a: seq<LogEntry>, b: seq<LogEntry>)
    ensures FeedAll(r, a + b) == FeedAll(FeedAll(r, a), b)
    decreases a
  {
    if a == [] {
      assert a + b == b;
    } else {
      FeedConcat(Feed(r, a[0]), a[1..], b);
      assert (a + b)[1..] == a[1..] + b;
    }
  }

  /** The entries that a replay actually applies, in order. */
  function Committed(active: Option<Text>, buffer: seq<LogEntry>, log: seq<LogEntry>): seq<LogEntry>
    decreases log
  {
    if log == [] then []
    else
      var e, rest := log[0], log[1..];
      if e.cmd == IKEY_TX_BEGIN then Committed(Some(e.key), [], rest)
      else if e.cmd == IKEY_TX_COMMIT then
        if active == Some(e.key) then buffer + Committed(None, [], rest) else Committed(active, buffer, rest)
      else if active.Some? then Committed(active, buffer + [e], rest)
      else [e] + Committed(active, buffer, rest)
  }

  lemma {:induction false} FeedAllCommitted(r: Replayer, log: seq<LogEntry>)
    ensures FeedAll(r, log).docs == ApplyAll(r.docs, Committed(r.active, r.buffer, log))
    decreases log
  {
    if log != [] {
      FeedAllCommitted(Feed(r, log[0]), log[1..]);
      if log[0].cmd == IKEY_TX_COMMIT && r.active == Some(log[0].key) {
        ApplyConcat(r.docs, r.buffer, Committed(None, [], log[1..]));
      } else if log[0].cmd != IKEY_TX_BEGIN && log[0].cmd != IKEY_TX_COMMIT && r.active.None? {
        var more := Committed(r.active, r.buffer, log[1..]);
        assert ([log[0]] + more)[1..] == more;
      }
    }
  }

  /** Replaying a log over the documents it already produced changes nothing. */
  lemma ReplayIdempotent(log: seq<LogEntry>)
    ensures SameDocs(FeedAll(Replayer(Recovered(log), None, []), log).docs, Recovered(log))
  {
    FeedAllCommitted(FRESH, log);
    FeedAllCommitted(Replayer(Recovered(log), None, []), log);
    ApplyIdempotent(map[], Committed(None, [], log));
  }

  /** Entries of neither transaction marker only fill the buffer. */
  predicate Plain(es: seq<LogEntry>) {
    forall i | 0 <= i < |es| :: es[i].cmd != IKEY_TX_BEGIN && es[i].cmd != IKEY_TX_COMMIT
  }

  lemma {:induction false} FeedBuffered(r: Replayer, es: seq<LogEntry>)
    requires r.active.Some? && Plain(es)
    ensures FeedAll(r, es) == r.(buffer := r.buffer + es)
    decreases es
  {
    if es == [] {
      assert r.buffer + es == r.buffer;
    } else {
      FeedBuffered(Feed(r, es[0]), es[1..]);
      assert r.buffer + [es[0]] + es[1..] == r.buffer + es;
    }
  }

  lemma {:induction false} FeedPlain(r: Replayer, es: seq<LogEntry>)
    requires r.active.None? && Plain(es)
    ensures FeedAll(r, es) == r.(docs := ApplyAll(r.docs, es))
    decreases es
  {
    if es != [] {
      FeedPlain(Feed(r, es[0]), es[1..]);
    }
  }

  /** A prefix of `BEGIN body COMMIT` has no effect on the documents until it is whole. */
  lemma FeedBracketPrefix(r: Replayer, begin: LogEntry, body: seq<LogEntry>, commit: LogEntry, k: nat)
    requires begin.cmd == IKEY_TX_BEGIN && commit.cmd == IKEY_TX_COMMIT && begin.key == commit.key && Plain(body)
    requires k <= |body| + 2
    ensures FeedAll(r, ([begin] + body + [commit])[..k]).docs
         == if k == |body| + 2 then ApplyAll(r.docs, body) else r.docs
    ensures k == |body| + 2 ==> FeedAll(r, ([begin] + body + [commit])[..k]).active == None
  {
    var all := [begin] + body + [commit];
    if k > 0 {
      var r1 := Feed(r, begin);
      var n := if k <= |body| + 1 then k - 1 else |body|;
      assert all[..n + 1] == [begin] + body[..n];
      FeedConcat(r, [begin], body[..n]);
      assert FeedAll(r, [begin]) == FeedAll(r1, []);
      FeedBuffered(r1, body[..n]);
      if k == |body| + 2 {
        assert body[..n] == body && all[..k] == ([begin] + body) + [commit];
        FeedConcat(r, [begin] + body, [commit]);
        var r2 := FeedAll(r, [begin] + body);
        assert r2.buffer == body by { assert [] + body == body; }
        assert FeedAll(r2, [commit]) == FeedAll(Feed(r2, commit), []);
      }
    }
  }

  // ----- The replayer of the source, updating its maps in place -----

  class StateBuilder {
    var docs: Docs
    var activeTx: Option<Text>
    var txBuffer: seq<LogEntry>
    var count: nat

    constructor ()
      ensures View() == FRESH && count == 0
    {
      docs, activeTx, txBuffer, count := map[], None, [], 0;
    }

    ghost function View(): Replayer
      reads this
    {
      Replayer(docs, activeTx, txBuffer)
    }

    method Apply(e: LogEntry)
      modifies this`docs
      ensures docs == ApplyEntry(old(docs), e)
    {
      if e.cmd == IKEY_INSERT {
        docs := docs[e.collection := CollectionOf(docs, e.collection)[e.key := Encode(e.value)]];
      } else if e.cmd == IKEY_DELETE {
        if e.collection in docs {
          docs := docs[e.collection := docs[e.collection] - {e.key}];
        }
      } else if e.cmd == IKEY_DROP {
        docs := docs - {e.collection};
      }
    }

    method Stream(log: seq<LogEntry>)
      modifies this
      ensures View() == FeedAll(old(View()), log) && count == old(count) + |log|
    {
      var i := 0;
      while i < |log|
        invariant 0 <= i <= |log| && count == old(count) + i
        invariant FeedAll(old(View()), log) == FeedAll(View(), log[i..])
      {
        var e := log[i];
        ghost var before := View();
        assert log[i..][1..] == log[i + 1..];
        if e.cmd == IKEY_TX_BEGIN {
          activeTx, txBuffer := Some(e.key), [];
        } else if e.cmd == IKEY_TX_COMMIT {
          if activeTx == Some(e.key) {
            var j := 0;
            while j < |txBuffer|
              invariant 0 <= j <= |txBuffer| && txBuffer == before.buffer
              invariant activeTx == before.active && count == old(count) + i
              invariant ApplyAll(before.docs, txBuffer) == ApplyAll(docs, txBuffer[j..])
            {
              assert txBuffer[j..][1..] == txBuffer[j + 1..];
              Apply(txBuffer[j]);
              j := j + 1;
            }
            activeTx, txBuffer := None, [];
          }
        } else if activeTx.Some? {
          txBuffer := txBuffer + [e];
        } else {
          Apply(e);
        }
        assert View() == Feed(before, e);
        count := count + 1;
        i := i + 1;
      }
    }
  }
}
