/** Paged reads: every access path returns the same page of the `_seq` listing. */
module Scan {
  import opened Bytes
  import opened Json
  import opened Codec
  import opened Tokens
  import opened Replay
  import opened Documents
  import opened Order
  import opened Sorting
  import opened Engine
  import opened Limits
  import opened Database
  import opened Where
  import Floats
  import TopN

  // ----- The specification -----

  /** The documents under these keys; what is missing or undecodable is left out. */
  function DocsOf(col: Collection, keys: seq<Text>): seq<(Text, Value)> {
    if keys == [] then []
    else if keys[0] in col && Decode(col[keys[0]]).Some? then
      [(keys[0], Decode(col[keys[0]]).value)] + DocsOf(col, keys[1..])
    else DocsOf(col, keys[1..])
  }

  function Window<T>(s: seq<T>, offset: nat, lim: nat): seq<T> {
    Take(Order.Skip(s, offset), lim)
  }

  /** Matching documents in `_seq` order, `offset` of them skipped and at most `lim` returned. */
  ghost function Page(ram: Ram, c: Text, keep: Keep, offset: nat, lim: nat, asc: bool): seq<(Text, Value)> {
    if c !in ram.docs then []
    else DocsOf(ram.docs[c], Window(Listing(Passing(ram.docs[c], keep), asc), offset, lim))
  }

  // ----- Every stored document decodes -----

  ghost predicate AllDecode(col: Collection) {
    forall k | k in col :: Decode(col[k]).Some?
  }

  lemma LiveDecodes(ram: Ram, c: Text)
    requires Inv(ram) && c in ram.docs
    ensures AllDecode(ram.docs[c])
  {
    hide IsGraph, Decode, SeqOf;
    assert CollectionInv(CollectionOf(ram.docs, c), IndexOf(ram, c), Counter(ram, c));
  }

  /** Reading documents is position by position, so it commutes with paging. */
  lemma {:induction false} DocsAt(col: Collection, keys: seq<Text>)
    requires AllDecode(col) && forall i | 0 <= i < |keys| :: keys[i] in col
    ensures |DocsOf(col, keys)| == |keys|
    ensures forall i | 0 <= i < |keys| :: DocsOf(col, keys)[i] == (keys[i], Decode(col[keys[i]]).value)
  {
    hide Decode;
    if keys != [] { DocsAt(col, keys[1..]); }
  }

  lemma DocsWindow(col: Collection, keys: seq<Text>, offset: nat, lim: nat)
    requires AllDecode(col) && forall i | 0 <= i < |keys| :: keys[i] in col
    ensures Window(DocsOf(col, keys), offset, lim) == DocsOf(col, Window(keys, offset, lim))
  {
    hide DocsOf, Decode;
    DocsAt(col, keys);
    DocsAt(col, Window(keys, offset, lim));
  }

  // ----- Filtering a listing -----

  lemma {:induction false} FilterConcat(a: seq<Text>, b: seq<Text>, keep: Text -> bool)
    ensures Filter(a + b, keep) == Filter(a, keep) + Filter(b, keep)
  {
    if a == [] {
      assert a + b == b;
    } else {
      FilterConcat(a[1..], b, keep);
      assert (a + b)[1..] == a[1..] + b;
    }
  }

  lemma {:induction false} FilterReverse(s: seq<Text>, keep: Text -> bool)
    ensures Filter(Reverse(s), keep) == Reverse(Filter(s, keep))
  {
    if s != [] {
      var t := s[1..];
      FilterReverse(t, keep);
      assert Reverse(s) == Reverse(t) + [s[0]];
      FilterConcat(Reverse(t), [s[0]], keep);
      ghost var one: seq<Text> := [s[0]];
      assert one[1..] == [];
      assert Filter([s[0]], keep) == if keep(s[0]) then [s[0]] else [];
      assert Reverse([s[0]] + Filter(t, keep)) == Reverse(Filter(t, keep)) + [s[0]];
    }
  }

  /** Filtering the listing is listing what passes, in either direction. */
  lemma ListingFilter(rank: Rank, keep: Text -> bool, asc: bool)
    requires Injective(rank)
    ensures Filter(Listing(rank, asc), keep) == Listing(Restrict(rank, keep), asc)
  {
    hide IsRanking;
    RankingFilter(Ranking(rank), rank, keep);
    RestrictInjective(rank, keep);
    RankingUnique(Filter(Ranking(rank), keep), Ranking(Restrict(rank, keep)), Restrict(rank, keep));
    FilterReverse(Ranking(rank), keep);
  }

  lemma ListingMember(rank: Rank, asc: bool, i: nat)
    requires Injective(rank) && i < |Listing(rank, asc)|
    ensures Listing(rank, asc)[i] in rank
  {
  }

  lemma PassingMember(col: Collection, keep: Keep, asc: bool)
    requires Injective(RankOf(col))
    ensures forall i | 0 <= i < |Listing(Passing(col, keep), asc)| :: Listing(Passing(col, keep), asc)[i] in col
  {
    hide Listing, SeqOf;
    var rank := Passing(col, keep);
    RestrictInjective(RankOf(col), k => k in col && keep(k, col[k]));
    forall i | 0 <= i < |Listing(rank, asc)| ensures Listing(rank, asc)[i] in col {
      ListingMember(rank, asc, i);
    }
  }

  /** The first `n` passing keys, however much longer the walk would have gone on. */
  lemma WindowOfPrefix<T>(found: seq<T>, rest: seq<T>, offset: nat, lim: nat)
    requires rest == [] || |found| >= offset + lim
    ensures Window(found + rest, offset, lim) == Window(found, offset, lim)
  {
  }

  // ----- The access paths -----

  /** WHERE without sort: pairs first, then only the page is decoded. */
  method WhereScan(ram: Ram, c: Text, keep: Keep, offset: nat, lim: nat, asc: bool) returns (r: seq<(Text, Value)>)
    requires Inv(ram) && c in ram.docs
    ensures r == Page(ram, c, keep, offset, lim, asc)
  {
    hide Inv, Listing, DocsOf, RankOf;
    var col := ram.docs[c];
    var pairs := CollectPairs(col, keep);
    LiveInjective(ram, c);
    RestrictInjective(RankOf(col), k => k in col && keep(k, col[k]));
    var keys := SortedKeys(pairs, asc, Passing(col, keep));
    r := DocsOf(col, Window(keys, offset, lim));
  }

  /** No index yet: every passing document is decoded, then sorted and paged. */
  method FallbackScan(ram: Ram, c: Text, keep: Keep, offset: nat, lim: nat, asc: bool) returns (r: seq<(Text, Value)>)
    requires Inv(ram) && c in ram.docs
    ensures r == Page(ram, c, keep, offset, lim, asc)
  {
    hide Inv, Listing, DocsOf, RankOf, Decode;
    var col := ram.docs[c];
    var pairs := CollectPairs(col, (k, b) => keep(k, b) && Decode(b).Some?);
    LiveInjective(ram, c);
    LiveDecodes(ram, c);
    RestrictInjective(RankOf(col), k => k in col && keep(k, col[k]));
    assert Restrict(RankOf(col), k => k in col && ((k, b) => keep(k, b) && Decode(b).Some?)(k, col[k])) == Passing(col, keep);
    var keys := SortedKeys(pairs, asc, Passing(col, keep));
    PassingMember(col, keep, asc);
    var found := DocsOf(col, keys);
    DocsWindow(col, keys, offset, lim);
    r := Window(found, offset, lim);
  }

  /** The loop of the index walk: documents are collected in key order until `need` are found. */
  method CollectUntil(col: Collection, keep: Keep, keys: seq<Text>, need: nat)
    returns (found: seq<(Text, Value)>, ghost taken: seq<Text>, ghost rest: seq<Text>)
    requires AllDecode(col)
    ensures found == DocsOf(col, taken) && forall j | 0 <= j < |taken| :: taken[j] in col
    ensures Filter(keys, k => k in col && keep(k, col[k])) == taken + rest
    ensures rest == [] || |taken| >= need
  {
    hide DocsOf, Decode, Filter;
    ghost var kp: Text -> bool := k => k in col && keep(k, col[k]);
    found, taken := [], [];
    var i := 0;
    assert keys[0..] == keys;
    StartWalk(col, keys, kp);
    while i < |keys|
      invariant 0 <= i <= |keys|
      invariant found == DocsOf(col, taken) && |found| == |taken| && Filter(keys, kp) == taken + Filter(keys[i..], kp)
      invariant forall j | 0 <= j < |taken| :: taken[j] in col
    {
      var key := keys[i];
      assert keys[i..][0] == key && keys[i..][1..] == keys[i + 1..];
      WalkStep(keys[i..], taken, kp);
      i := i + 1;
      if key in col && keep(key, col[key]) {
        var v := Decode(col[key]);
        if v.Some? {
          DocsSnoc(col, taken, key);
          found := found + [(key, v.value)];
          taken := taken + [key];
          if |found| >= need { break; }
        }
      }
    }
    EndWalk(keys, i, kp);
    rest := Filter(keys[i..], kp);
  }

  /** The walk over the index, which stops once `offset + lim` documents have been found. */
  method IndexWalk(ram: Ram, c: Text, keep: Keep, offset: nat, lim: nat, asc: bool) returns (r: seq<(Text, Value)>)
    requires Inv(ram) && c in ram.docs && c in ram.index
    ensures r == Page(ram, c, keep, offset, lim, asc)
  {
    hide Inv, DocsOf, Decode, Filter, Ascending, RankOf, Injective, Restrict, Listing, Window, AllDecode;
    var col, idx := ram.docs[c], ram.index[c];
    var seqs := InOrder(idx);
    var keys := Walk(idx, seqs);
    if !asc { keys := Reverse(keys); }
    LiveInjective(ram, c);
    LiveDecodes(ram, c);
    WalkIsListing(ram, c, seqs, asc);
    ListingFilter(RankOf(col), k => k in col && keep(k, col[k]), asc);
    var found, taken, rest := CollectUntil(col, keep, keys, offset + lim);
    r := Window(found, offset, lim);
    DocsWindow(col, taken, offset, lim);
    WindowOfPrefix(taken, rest, offset, lim);
  }

  lemma StartWalk(col: Collection, keys: seq<Text>, kp: Text -> bool)
    ensures DocsOf(col, []) == [] && Filter(keys, kp) == [] + Filter(keys, kp)
  {
  }

  lemma EndWalk(keys: seq<Text>, i: nat, kp: Text -> bool)
    requires i <= |keys|
    ensures i == |keys| ==> Filter(keys[i..], kp) == []
  {
  }

  lemma WalkStep(keys: seq<Text>, taken: seq<Text>, kp: Text -> bool)
    requires keys != []
    ensures taken + Filter(keys, kp) == (if kp(keys[0]) then taken + [keys[0]] else taken) + Filter(keys[1..], kp)
  {
    if kp(keys[0]) { assert taken + ([keys[0]] + Filter(keys[1..], kp)) == taken + [keys[0]] + Filter(keys[1..], kp); }
  }

  lemma {:induction false} DocsSnoc(col: Collection, taken: seq<Text>, k: Text)
    requires k in col && Decode(col[k]).Some?
    ensures DocsOf(col, taken + [k]) == DocsOf(col, taken) + [(k, Decode(col[k]).value)]
  {
    hide Decode;
    if taken == [] {
      assert taken + [k] == [k];
      assert DocsOf(col, [k][1..]) == [];
    } else {
      DocsSnoc(col, taken[1..], k);
      assert (taken + [k])[1..] == taken[1..] + [k];
    }
  }

  lemma WalkIsListing(ram: Ram, c: Text, seqs: seq<u64>, asc: bool)
    requires Inv(ram) && c in ram.docs && c in ram.index && seqs == Ascending(ram.index[c].Keys)
    ensures var keys := Walk(ram.index[c], seqs);
            Listing(RankOf(ram.docs[c]), asc) == if asc then keys else Reverse(keys)
  {
    hide Sound, SeqOf;
    assert CollectionInv(CollectionOf(ram.docs, c), IndexOf(ram, c), Counter(ram, c));
    var idx, rank := ram.index[c], RankOf(ram.docs[c]);
    LiveInjective(ram, c);
    WalkIsRanking(idx, rank, seqs);
    RankingUnique(Walk(idx, seqs), Ranking(rank), rank);
  }

  // ----- No count: a sort is requested and all matches are needed -----

  /** `seq as f64` never reverses the order of two sequence numbers. */
  ghost predicate Monotone(h: Host) {
    forall a: u64, b: u64 | a <= b :: Floats.ByBits(h.float(a)) <= Floats.ByBits(h.float(b))
  }

  /** `Ord` of `CompactItem`: the rounded value first, then the number itself. */
  predicate CompactBefore(h: Host, a: u64, b: u64) {
    var o := Floats.TotalCompare(h.float(a), h.float(b));
    o == TopN.Lesser || (o == TopN.Equal && a < b)
  }

  /** Rounding is harmless: compact items are ordered by `_seq`. */
  lemma CompactOrder(h: Host, a: u64, b: u64)
    requires Monotone(h)
    ensures CompactBefore(h, a, b) <==> a < b
  {
    hide Floats.ByBits;
    if a < b { assert Floats.ByBits(h.float(a)) <= Floats.ByBits(h.float(b)); }
    else { assert Floats.ByBits(h.float(b)) <= Floats.ByBits(h.float(a)); }
  }

  /** The `_seq` of every matching document. */
  method CollectSeqs(col: Collection, keep: Keep) returns (seqs: set<u64>)
    ensures seqs == Ranks(Passing(col, keep))
  {
    hide SeqOf;
    seqs := {};
    var todo := col.Keys;
    while todo != {}
      invariant todo <= col.Keys
      invariant seqs == set k | k in Passing(col, keep) && k !in todo :: Passing(col, keep)[k]
      decreases todo
    {
      var k :| k in todo;
      todo := todo - {k};
      if keep(k, col[k]) {
        assert k in Passing(col, keep) && Passing(col, keep)[k] == SeqOf(col[k]);
        seqs := seqs + {SeqOf(col[k])};
      }
    }
  }

  /** Sorting compact items. */
  method SortCompact(h: Host, s: set<u64>) returns (seqs: seq<u64>)
    requires Monotone(h)
    ensures seqs == Ascending(s)
  {
    hide CompactBefore, Monotone;
    seqs := [];
    var rest := s;
    while rest != {}
      invariant rest <= s && IsAscending(seqs, s - rest)
      invariant forall i, x | 0 <= i < |seqs| && x in rest :: seqs[i] < x
      decreases rest
    {
      ghost var least := Least(rest);
      forall x | x in rest && x != least ensures CompactBefore(h, least, x) { CompactOrder(h, least, x); }
      var m :| m in rest && forall x | x in rest :: x == m || CompactBefore(h, m, x);
      forall x | x in rest && x != m ensures m < x { CompactOrder(h, m, x); }
      ghost var done := s - rest;
      AscendingSnoc(seqs, done, m);
      assert s - (rest - {m}) == done + {m};
      seqs := seqs + [m];
      rest := rest - {m};
    }
    assert s - rest == s;
    AscendingUnique(seqs, Ascending(s), s);
  }

  /** Hydration: the key behind every wanted `_seq`. */
  method Hydrate(col: Collection, wanted: set<u64>) returns (keys: map<u64, Text>)
    requires Injective(RankOf(col))
    ensures forall k | k in col && SeqOf(col[k]) in wanted :: SeqOf(col[k]) in keys && keys[SeqOf(col[k])] == k
  {
    hide SeqOf;
    keys := map[];
    var todo := col.Keys;
    while todo != {}
      invariant todo <= col.Keys
      invariant forall k | k in col && k !in todo && SeqOf(col[k]) in wanted :: SeqOf(col[k]) in keys && keys[SeqOf(col[k])] == k
      decreases todo
    {
      var k :| k in todo;
      todo := todo - {k};
      var s := SeqOf(col[k]);
      if s in wanted {
        forall j | j in col && j != k ensures SeqOf(col[j]) != s { assert RankOf(col)[j] == SeqOf(col[j]) && RankOf(col)[k] == s; }
        keys := keys[s := k];
      }
    }
  }

  /** The ascending `_seq` values and the keys behind them are the listing. */
  lemma HydratedListing(col: Collection, keep: Keep, seqs: seq<u64>, i: nat)
    requires Injective(RankOf(col)) && seqs == Ascending(Ranks(Passing(col, keep))) && i < |seqs|
    ensures |Ranking(Passing(col, keep))| == |seqs|
    ensures var k := Ranking(Passing(col, keep))[i]; k in col && SeqOf(col[k]) == seqs[i]
  {
    hide SeqOf, Ascending, IsRanking;
    var rank := Passing(col, keep);
    PassingInjective(col, keep);
    var idx := IndexFor(rank);
    IndexForIsGraph(rank);
    assert idx.Keys == Ranks(rank);
    WalkIsRanking(idx, rank, seqs);
    RankingUnique(Walk(idx, seqs), Ranking(rank), rank);
    assert rank[idx[seqs[i]]] == seqs[i];
  }

  /** All matches from `offset` on, oldest first; the caller sorts them. */
  method SortScan(h: Host, ram: Ram, c: Text, keep: Keep, offset: nat) returns (r: seq<(Text, Value)>)
    requires Monotone(h) && Inv(ram) && c in ram.docs
    ensures r == DocsOf(ram.docs[c], Order.Skip(Ranking(Passing(ram.docs[c], keep)), offset))
  {
    hide Inv, Monotone, DocsOf, Ascending, SeqOf, Injective, RankOf, Ranks;
    var col := ram.docs[c];
    LiveInjective(ram, c);
    var matching := CollectSeqs(col, keep);
    var seqs := SortCompact(h, matching);
    ghost var all := Ranking(Passing(col, keep));
    ListingLength(col, keep, seqs);
    if offset >= |seqs| {
      NoDocs(col);
      assert Order.Skip(all, offset) == [];
      return [];
    }
    var page := seqs[offset..];
    var hydrated := Hydrate(col, set s | s in page);
    forall i | 0 <= i < |page| ensures all[offset + i] in col && page[i] in hydrated && hydrated[page[i]] == all[offset + i] {
      HydratedListing(col, keep, seqs, offset + i);
      assert page[i] == seqs[offset + i];
    }
    var keys := seq(|page|, i requires 0 <= i < |page| && page[i] in hydrated => hydrated[page[i]]);
    assert keys == all[offset..];
    r := DocsOf(col, keys);
  }

  lemma ListingLength(col: Collection, keep: Keep, seqs: seq<u64>)
    requires Injective(RankOf(col)) && seqs == Ascending(Ranks(Passing(col, keep)))
    ensures |Ranking(Passing(col, keep))| == |seqs|
  {
    hide SeqOf, Ascending, IsRanking;
    var rank := Passing(col, keep);
    PassingInjective(col, keep);
    IndexForIsGraph(rank);
    assert IndexFor(rank).Keys == Ranks(rank);
    WalkIsRanking(IndexFor(rank), rank, seqs);
    RankingUnique(Walk(IndexFor(rank), seqs), Ranking(rank), rank);
  }

  lemma NoDocs(col: Collection)
    ensures DocsOf(col, []) == []
  {
  }

  /** `get_filtered`: with a count, three plans and one page; without, all matches from the offset on. */
  method GetFiltered(h: Host, ram: Ram, c: Text, keep: Keep, offset: nat, count: Option<nat>, asc: bool, hasWhere: bool)
    returns (r: seq<(Text, Value)>)
    requires Monotone(h) && Inv(ram)
    ensures count.Some? ==> r == Page(ram, c, keep, offset, count.value, asc)
    ensures count.None? && c in ram.docs ==> r == DocsOf(ram.docs[c], Order.Skip(Ranking(Passing(ram.docs[c], keep)), offset))
    ensures c !in ram.docs ==> r == []
  {
    hide Inv, DocsOf, Listing, Passing, Monotone;
    if c !in ram.docs {
      r := [];
    } else if count.None? {
      r := SortScan(h, ram, c, keep, offset);
    } else if hasWhere {
      r := WhereScan(ram, c, keep, offset, count.value, asc);
    } else if c in ram.index {
      r := IndexWalk(ram, c, keep, offset, count.value, asc);
    } else {
      r := FallbackScan(ram, c, keep, offset, count.value, asc);
    }
  }
}
