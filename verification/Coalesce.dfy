/** The coalesced scanner: requests are batched, one pass over a collection serves all of its
    requests in the batch, and every request is answered as if it had run alone. */
module Coalesce {
  import opened Bytes
  import opened Json
  import opened Codec
  import opened Tokens
  import opened Replay
  import opened Documents
  import opened Order
  import opened Sorting
  import opened Engine
  import opened Limits
  import opened Database
  import opened Scan
  import opened Walker
  import opened Where
  import opened Floats
  import opened TopN

  const MAX_BATCH: nat := 64

  datatype Kind =
    | Filtered(need: Option<nat>, asc: bool)
    | SortedTopN(field: Text, desc: bool, cap: nat)

  datatype Request = Request(id: nat, collection: Text, keep: Keep, kind: Kind)

  // ----- The answer to one request on its own -----

  /** The sort value of a matching document; a document without a number there is left out. */
  function SortValue(h: Host, b: Bytes, path: Path, desc: bool): Option<u64>
    requires path != []
  {
    match Find(b, path)
    case None => None
    case Some(s) =>
      match NumberAt(h, s)
      case None => None
      case Some(x) => Some(if desc then Negate(x) else x)
  }

  function Picked(h: Host, col: Collection, r: Request, k: Text): Option<u64>
    requires r.kind.SortedTopN?
  {
    if k in col && r.keep(k, col[k]) then SortValue(h, col[k], Split(r.kind.field), r.kind.desc) else None
  }

  function ItemKeys(items: seq<Scored<u64>>): (ks: seq<Text>)
    ensures |ks| == |items| && forall i | 0 <= i < |ks| :: ks[i] == items[i].key
  {
    seq(|items|, i requires 0 <= i < |items| => items[i].key)
  }

  ghost function Candidates(h: Host, col: Collection, r: Request, keys: set<Text>): (s: set<Scored<u64>>)
    requires r.kind.SortedTopN?
    ensures DistinctKeys(s)
  {
    var s := Offered(keys, k => Picked(h, col, r, k));
    OfferedDistinct(keys, k => Picked(h, col, r, k));
    s
  }

  ghost function Answer(h: Host, ram: Ram, r: Request): seq<(Text, Value)> {
    if r.collection !in ram.docs then []
    else
      var col := ram.docs[r.collection];
      match r.kind
      case Filtered(need, asc) =>
        var keys := Listing(Passing(col, r.keep), asc);
        DocsOf(col, if need.Some? then Take(keys, need.value) else keys)
      case SortedTopN(_, _, cap) =>
        TotalComparePreorder();
        DocsOf(col, ItemKeys(Take(FullSort(TotalCompare, Candidates(h, col, r, col.Keys)), cap)))
  }

  /** A coalesced WHERE scan returns the page that every other access path returns. */
  lemma CoalescedIsPage(h: Host, ram: Ram, r: Request, n: nat)
    requires r.kind.Filtered? && r.kind.need == Some(n)
    ensures Answer(h, ram, r) == Page(ram, r.collection, r.keep, 0, n, r.kind.asc)
  {
    hide DocsOf, Listing, Passing;
    if r.collection in ram.docs {
      var keys := Listing(Passing(ram.docs[r.collection], r.keep), r.kind.asc);
      assert keys[0..] == keys;
    }
  }

  // ----- The shared pass -----

  datatype Accum = Matches(pairs: seq<Pair>) | Heap(items: set<Scored<u64>>)

  function Only(col: Collection, keys: set<Text>): Collection {
    map k | k in col && k in keys :: col[k]
  }

  /** What an accumulator holds after the documents under `keys` have been visited. */
  ghost predicate Holds(h: Host, col: Collection, r: Request, acc: Accum, keys: set<Text>) {
    match r.kind
    case Filtered(_, _) => acc.Matches? && Lists(acc.pairs, Passing(Only(col, keys), r.keep))
    case SortedTopN(_, _, cap) => acc.Heap? && IsBest(TotalCompare, acc.items, Candidates(h, col, r, keys), cap)
  }

  ghost predicate AllHold(h: Host, col: Collection, rs: seq<Request>, accs: seq<Accum>, keys: set<Text>) {
    |accs| == |rs| && forall i | 0 <= i < |rs| :: Holds(h, col, rs[i], accs[i], keys)
  }

  lemma CandidatesUnion(h: Host, col: Collection, r: Request, a: set<Text>, b: set<Text>)
    requires r.kind.SortedTopN?
    ensures Candidates(h, col, r, a + b) == Candidates(h, col, r, a) + Candidates(h, col, r, b)
    ensures a !! b ==> Candidates(h, col, r, a) !! Candidates(h, col, r, b)
  {
    hide Picked;
    OfferedUnion(a, b, k => Picked(h, col, r, k));
  }

  lemma PassingPut(col: Collection, keep: Keep, keys: set<Text>, k: Text)
    requires k in col && k !in keys
    ensures k !in Passing(Only(col, keys), keep)
    ensures Passing(Only(col, keys + {k}), keep)
         == if keep(k, col[k]) then Passing(Only(col, keys), keep)[k := SeqOf(col[k])] else Passing(Only(col, keys), keep)
  {
    hide SeqOf;
  }

  lemma PassingUnion(col: Collection, keep: Keep, a: set<Text>, b: set<Text>)
    requires a !! b
    ensures Passing(Only(col, a + b), keep) == Passing(Only(col, a), keep) + Passing(Only(col, b), keep)
    ensures Passing(Only(col, a), keep).Keys !! Passing(Only(col, b), keep).Keys
  {
    hide SeqOf, Passing, Only;
    forall k
      ensures k in Passing(Only(col, a + b), keep) <==> k in Passing(Only(col, a), keep) || k in Passing(Only(col, b), keep)
      ensures !(k in Passing(Only(col, a), keep) && k in Passing(Only(col, b), keep))
    {
      PassingAt(col, keep, a, k);
      PassingAt(col, keep, b, k);
      PassingAt(col, keep, a + b, k);
    }
    forall k | k in Passing(Only(col, a + b), keep)
      ensures Passing(Only(col, a + b), keep)[k] == (Passing(Only(col, a), keep) + Passing(Only(col, b), keep))[k]
    {
      PassingAt(col, keep, a, k);
      PassingAt(col, keep, b, k);
      PassingAt(col, keep, a + b, k);
    }
    assert Passing(Only(col, a + b), keep) == Passing(Only(col, a), keep) + Passing(Only(col, b), keep);
  }

  lemma PassingAt(col: Collection, keep: Keep, keys: set<Text>, k: Text)
    ensures k in Passing(Only(col, keys), keep) <==> k in col && k in keys && keep(k, col[k])
    ensures k in Passing(Only(col, keys), keep) ==> Passing(Only(col, keys), keep)[k] == SeqOf(col[k])
  {
    hide SeqOf;
  }

  lemma ListsUnion(ps: seq<Pair>, qs: seq<Pair>, a: Rank, b: Rank)
    requires Lists(ps, a) && Lists(qs, b) && a.Keys !! b.Keys
    ensures Lists(ps + qs, a + b)
  {
    hide PairSet;
    forall p: Pair ensures p in PairSet(a + b) <==> p in PairSet(a) + PairSet(b) {
      InPairSet(p, a);
      InPairSet(p, b);
      InPairSet(p, a + b);
    }
    assert PairSet(a) !! PairSet(b) by {
      forall p | p in PairSet(a) ensures p !in PairSet(b) {
        InPairSet(p, a);
        InPairSet(p, b);
      }
    }
    assert PairSet(a + b) == PairSet(a) + PairSet(b);
  }

  /** A fresh accumulator. */
  method NewAccum(h: Host, ghost col: Collection, r: Request) returns (acc: Accum)
    ensures Holds(h, col, r, acc, {})
  {
    hide SeqOf, Picked;
    acc := if r.kind.Filtered? then Matches([]) else Heap({});
    NoPairs();
    assert Only(col, {}) == map[];
    assert Passing(map[], r.keep) == map[];
    if r.kind.SortedTopN? { NoCandidates(h, col, r); }
  }

  lemma NoCandidates(h: Host, col: Collection, r: Request)
    requires r.kind.SortedTopN?
    ensures Candidates(h, col, r, {}) == {}
  {
    hide Picked;
  }

  /** One document offered to one request. */
  method Visit(h: Host, col: Collection, r: Request, acc: Accum, k: Text, ghost keys: set<Text>) returns (acc': Accum)
    requires Holds(h, col, r, acc, keys) && k in col && k !in keys
    ensures Holds(h, col, r, acc', keys + {k})
  {
    hide SeqOf, Find, NumberAt, Split, Lists, IsBest, Passing, Preorder, TotalCompare;
    acc' := acc;
    match r.kind
    case Filtered(_, _) =>
      PassingPut(col, r.keep, keys, k);
      if r.keep(k, col[k]) {
        ListsPut(acc.pairs, Passing(Only(col, keys), r.keep), k, SeqOf(col[k]));
        acc' := Matches(acc.pairs + [(SeqOf(col[k]), k)]);
      }
    case SortedTopN(field, desc, cap) =>
      CandidatesUnion(h, col, r, keys, {k});
      var none: set<Scored<u64>> := {};
      if r.keep(k, col[k]) {
        var x := SortValue(h, col[k], Split(field), desc);
        if x.Some? {
          assert Candidates(h, col, r, {k}) == {Scored(k, x.value)};
          TotalComparePreorder();
          var kept := PushBounded(TotalCompare, acc.items, Scored(k, x.value), cap, Candidates(h, col, r, keys));
          acc' := Heap(kept);
        } else {
          assert Candidates(h, col, r, {k}) == none;
          assert Candidates(h, col, r, keys + {k}) == Candidates(h, col, r, keys);
        }
      } else {
        assert Candidates(h, col, r, {k}) == none;
        assert Candidates(h, col, r, keys + {k}) == Candidates(h, col, r, keys);
      }
  }

  /** The accumulators of two disjoint parts, joined for one request. */
  method Combine(h: Host, ghost col: Collection, r: Request, a: Accum, b: Accum, ghost ka: set<Text>, ghost kb: set<Text>) returns (acc: Accum)
    requires Holds(h, col, r, a, ka) && Holds(h, col, r, b, kb) && ka !! kb
    ensures Holds(h, col, r, acc, ka + kb)
  {
    hide SeqOf, Picked, Lists, IsBest, Passing, Preorder, TotalCompare, Candidates;
    match r.kind
    case Filtered(_, _) =>
      PassingUnion(col, r.keep, ka, kb);
      ListsUnion(a.pairs, b.pairs, Passing(Only(col, ka), r.keep), Passing(Only(col, kb), r.keep));
      acc := Matches(a.pairs + b.pairs);
    case SortedTopN(_, _, cap) =>
      CandidatesUnion(h, col, r, ka, kb);
      TotalComparePreorder();
      var kept := MergeBounded(TotalCompare, a.items, b.items, cap, Candidates(h, col, r, ka), Candidates(h, col, r, kb));
      acc := Heap(kept);
  }

  /** The fold: each document is read once and offered to every request. */
  method FoldKeys(h: Host, col: Collection, rs: seq<Request>, keys: seq<Text>) returns (accs: seq<Accum>)
    requires Partition(Chunk(keys)) && PlanKeys(Chunk(keys)) <= col.Keys
    ensures AllHold(h, col, rs, accs, PlanKeys(Chunk(keys)))
  {
    hide Holds;
    accs := [];
    for i := 0 to |rs|
      invariant |accs| == i && forall j | 0 <= j < i :: Holds(h, col, rs[j], accs[j], {})
    {
      var acc := NewAccum(h, col, rs[i]);
      accs := accs + [acc];
    }
    assert PlanKeys(Chunk(keys[..0])) == {};
    for n := 0 to |keys|
      invariant AllHold(h, col, rs, accs, PlanKeys(Chunk(keys[..n])))
    {
      ghost var done := PlanKeys(Chunk(keys[..n]));
      assert PlanKeys(Chunk(keys[..n + 1])) == done + {keys[n]};
      assert keys[n] in PlanKeys(Chunk(keys)) && keys[n] !in done;
      for i := 0 to |rs|
        invariant |accs| == |rs|
        invariant forall j | 0 <= j < i :: Holds(h, col, rs[j], accs[j], done + {keys[n]})
        invariant forall j | i <= j < |rs| :: Holds(h, col, rs[j], accs[j], done)
      {
        var acc := Visit(h, col, rs[i], accs[i], keys[n], done);
        accs := accs[i := acc];
      }
    }
    assert keys[..|keys|] == keys;
  }

  /** The whole parallel pass. */
  method SharedPass(h: Host, col: Collection, rs: seq<Request>, p: Plan) returns (accs: seq<Accum>)
    requires Partition(p) && PlanKeys(p) <= col.Keys
    ensures AllHold(h, col, rs, accs, PlanKeys(p))
    decreases p
  {
    hide Holds;
    match p
    case Chunk(keys) => accs := FoldKeys(h, col, rs, keys);
    case Merge(l, r) =>
      accs := SharedPass(h, col, rs, l);
      var other := SharedPass(h, col, rs, r);
      for i := 0 to |rs|
        invariant |accs| == |rs|
        invariant forall j | 0 <= j < i :: Holds(h, col, rs[j], accs[j], PlanKeys(l) + PlanKeys(r))
        invariant forall j | i <= j < |rs| :: Holds(h, col, rs[j], accs[j], PlanKeys(l))
      {
        var acc := Combine(h, col, rs[i], accs[i], other[i], PlanKeys(l), PlanKeys(r));
        accs := accs[i := acc];
      }
  }

  // ----- Answers from the merged accumulators -----

  datatype Reply = Reply(request: Request, docs: seq<(Text, Value)>)

  /** Ordering, paging and decoding for one request. */
  method Finish(h: Host, ram: Ram, r: Request, acc: Accum) returns (docs: seq<(Text, Value)>)
    requires Inv(ram) && r.collection in ram.docs
    requires Holds(h, ram.docs[r.collection], r, acc, ram.docs[r.collection].Keys)
    ensures docs == Answer(h, ram, r)
  {
    hide Inv, SeqOf, Picked, Lists, IsBest, Listing, DocsOf, Preorder, TotalCompare, Candidates, RankOf;
    var col := ram.docs[r.collection];
    match r.kind
    case Filtered(need, asc) =>
      assert Only(col, col.Keys) == col;
      LiveInjective(ram, r.collection);
      RestrictInjective(RankOf(col), k => k in col && r.keep(k, col[k]));
      var keys := SortedKeys(acc.pairs, asc, Passing(col, r.keep));
      docs := DocsOf(col, if need.Some? then Take(keys, need.value) else keys);
    case SortedTopN(_, _, cap) =>
      TotalComparePreorder();
      ghost var all := Candidates(h, col, r, col.Keys);
      var winners := SortedWinners(TotalCompare, acc.items, cap, all, FullSort(TotalCompare, all));
      docs := DocsOf(col, ItemKeys(winners));
  }

  /** Any set of keys can be visited. */
  lemma {:induction false} PlanExists(keys: set<Text>) returns (p: Plan)
    ensures Partition(p) && PlanKeys(p) == keys
    decreases keys
  {
    if keys == {} {
      p := Chunk([]);
      assert PlanKeys(p) == {};
    } else {
      var k :| k in keys;
      var q := PlanExists(keys - {k});
      p := Merge(q, Chunk([k]));
      assert PlanKeys(Chunk([k])) == {k};
    }
  }

  /** `run_batch_for_collection`, under any schedule of the pass. */
  method RunBatchForCollection(h: Host, ram: Ram, c: Text, rs: seq<Request>) returns (replies: seq<Reply>)
    requires Inv(ram) && forall i | 0 <= i < |rs| :: rs[i].collection == c
    ensures |replies| == |rs| && forall i | 0 <= i < |rs| :: replies[i] == Reply(rs[i], Answer(h, ram, rs[i]))
  {
    hide Inv, Holds, Answer;
    replies := [];
    if c !in ram.docs {
      for i := 0 to |rs|
        invariant |replies| == i && forall j | 0 <= j < i :: replies[j] == Reply(rs[j], Answer(h, ram, rs[j]))
      {
        NoCollection(h, ram, rs[i]);
        replies := replies + [Reply(rs[i], [])];
      }
      return;
    }
    var col := ram.docs[c];
    ghost var q := PlanExists(col.Keys);
    var p :| Partition(p) && PlanKeys(p) == col.Keys;
    var accs := SharedPass(h, col, rs, p);
    for i := 0 to |rs|
      invariant |replies| == i && forall j | 0 <= j < i :: replies[j] == Reply(rs[j], Answer(h, ram, rs[j]))
    {
      var docs := Finish(h, ram, rs[i], accs[i]);
      replies := replies + [Reply(rs[i], docs)];
    }
  }

  lemma NoCollection(h: Host, ram: Ram, r: Request)
    requires r.collection !in ram.docs
    ensures Answer(h, ram, r) == []
  {
  }

  // ----- The coordinator -----

  /** The requests of a batch that go to one of these collections. */
  ghost function Select(rs: seq<Request>, cs: set<Text>): (s: seq<Request>)
    ensures forall i | 0 <= i < |s| :: s[i].collection in cs
  {
    if rs == [] then []
    else
      var s := Select(rs[..|rs| - 1], cs);
      if rs[|rs| - 1].collection in cs then s + [rs[|rs| - 1]] else s
  }

  lemma {:induction false} SelectUnion(rs: seq<Request>, a: set<Text>, b: set<Text>)
    requires a !! b
    ensures multiset(Select(rs, a + b)) == multiset(Select(rs, a)) + multiset(Select(rs, b))
  {
    if rs != [] { SelectUnion(rs[..|rs| - 1], a, b); }
  }

  lemma {:induction false} SelectAll(rs: seq<Request>, cs: set<Text>)
    requires forall i | 0 <= i < |rs| :: rs[i].collection in cs
    ensures Select(rs, cs) == rs
  {
    if rs != [] {
      SelectAll(rs[..|rs| - 1], cs);
      assert rs == rs[..|rs| - 1] + [rs[|rs| - 1]];
    }
  }

  lemma {:induction false} SelectNone(rs: seq<Request>)
    ensures Select(rs, {}) == []
  {
    if rs != [] { SelectNone(rs[..|rs| - 1]); }
  }

  /** Grouping: each collection gets its requests in arrival order. */
  method Group(batch: seq<Request>) returns (groups: map<Text, seq<Request>>)
    ensures forall c | c in groups :: groups[c] == Select(batch, {c})
    ensures forall i | 0 <= i < |batch| :: batch[i].collection in groups
  {
    groups := map[];
    for i := 0 to |batch|
      invariant forall c | c in groups :: groups[c] == Select(batch[..i], {c})
      invariant forall c | c !in groups :: Select(batch[..i], {c}) == []
      invariant forall j | 0 <= j < i :: batch[j].collection in groups
    {
      var c := batch[i].collection;
      assert batch[..i + 1][..i] == batch[..i];
      groups := groups[c := (if c in groups then groups[c] else []) + [batch[i]]];
    }
    assert batch[..|batch|] == batch;
  }

  ghost function Asked(replies: seq<Reply>): (rs: seq<Request>)
    ensures |rs| == |replies| && forall i | 0 <= i < |rs| :: rs[i] == replies[i].request
  {
    seq(|replies|, i requires 0 <= i < |replies| => replies[i].request)
  }

  /** Every request of the batch is answered exactly once, and as if it had run alone on the state in
      which its collection was scanned. */
  ghost predicate AnsweredAlone(h: Host, state: Text -> Ram, batch: seq<Request>, replies: seq<Reply>) {
    multiset(Asked(replies)) == multiset(batch)
    && forall i | 0 <= i < |replies| :: replies[i].docs == Answer(h, state(replies[i].request.collection), replies[i].request)
  }

  /** One batch: each collection is scanned once, at a moment of its own. */
  method RunBatch(h: Host, state: Text -> Ram, batch: seq<Request>) returns (replies: seq<Reply>)
    requires forall c :: Inv(state(c))
    ensures AnsweredAlone(h, state, batch, replies)
  {
    hide Inv, Answer, Select;
    var groups := Group(batch);
    replies := [];
    var todo := groups.Keys;
    SelectNone(batch);
    while todo != {}
      invariant todo <= groups.Keys
      invariant multiset(Asked(replies)) == multiset(Select(batch, groups.Keys - todo))
      invariant forall i | 0 <= i < |replies| :: replies[i].docs == Answer(h, state(replies[i].request.collection), replies[i].request)
      decreases todo
    {
      var c :| c in todo;
      var rs := RunBatchForCollection(h, state(c), c, groups[c]);
      ghost var done := groups.Keys - todo;
      SelectUnion(batch, done, {c});
      assert groups.Keys - (todo - {c}) == done + {c};
      assert Asked(rs) == groups[c];
      assert Asked(replies + rs) == Asked(replies) + Asked(rs);
      replies := replies + rs;
      todo := todo - {c};
    }
    assert groups.Keys - todo == groups.Keys;
    SelectAll(batch, groups.Keys);
  }

  ghost function Flatten(batches: seq<seq<Request>>): seq<Request> {
    if batches == [] then [] else Flatten(batches[..|batches| - 1]) + batches[|batches| - 1]
  }

  /** What has happened to the requests received so far. */
  ghost predicate Served(h: Host, states: (nat, Text) -> Ram, received: seq<Request>, batches: seq<seq<Request>>, sent: seq<seq<Reply>>) {
    && Flatten(batches) == received && |sent| == |batches|
    && (forall b | 0 <= b < |batches| :: 0 < |batches[b]| <= MAX_BATCH && AnsweredAlone(h, c => states(b, c), batches[b], sent[b]))
  }

  lemma ServeOne(h: Host, states: (nat, Text) -> Ram, received: seq<Request>, batches: seq<seq<Request>>, sent: seq<seq<Reply>>,
                 batch: seq<Request>, replies: seq<Reply>)
    requires Served(h, states, received, batches, sent)
    requires 0 < |batch| <= MAX_BATCH && AnsweredAlone(h, c => states(|batches|, c), batch, replies)
    ensures Served(h, states, received + batch, batches + [batch], sent + [replies])
  {
    hide AnsweredAlone;
    assert (batches + [batch])[..|batches|] == batches;
  }

  /** `coordinator_loop` on the requests as they arrive, until the channel closes: whatever the
      timing, batches are consecutive runs of at most 64 requests, and every request is answered
      once, from the state in which its collection was scanned for its batch. */
  method CoordinatorLoop(h: Host, rx: seq<Request>, states: (nat, Text) -> Ram)
    returns (batches: seq<seq<Request>>, sent: seq<seq<Reply>>)
    requires forall b, c :: Inv(states(b, c))
    ensures Served(h, states, rx, batches, sent)
  {
    hide Inv, AnsweredAlone;
    batches, sent := [], [];
    var next := 0;
    while next < |rx|
      invariant next <= |rx| && Served(h, states, rx[..next], batches, sent)
    {
      var start := next;
      var batch := [rx[next]];
      next := next + 1;
      while |batch| < MAX_BATCH && next < |rx|
        invariant start < next <= |rx| && batch == rx[start..next] && |batch| <= MAX_BATCH
        decreases |rx| - next
      {
        if * { break; }   // the window has elapsed
        batch := batch + [rx[next]];
        next := next + 1;
      }
      var n := |sent|;
      var replies := RunBatch(h, c => states(n, c), batch);
      ServeOne(h, states, rx[..start], batches, sent, batch, replies);
      assert rx[..start] + rx[start..next] == rx[..next];
      batches, sent := batches + [batch], sent + [replies];
    }
    assert rx[..next] == rx;
  }
}
