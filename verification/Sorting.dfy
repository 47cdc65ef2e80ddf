/** Collecting `(_seq, key)` pairs in any order and sorting them gives the listing. */
module Sorting {
  import opened Bytes
  import opened Order

  type Pair = (u64, Text)

  ghost function PairSet(rank: Rank): set<Pair> {
    set k | k in rank :: (rank[k], k)
  }

  lemma InPairSet(p: Pair, rank: Rank)
    ensures p in PairSet(rank) <==> p.1 in rank && rank[p.1] == p.0
  {
    if p.1 in rank && rank[p.1] == p.0 { assert p == (rank[p.1], p.1); }
  }

  /** `ps` holds the pair of every key exactly once, in some order. */
  ghost predicate Lists(ps: seq<Pair>, rank: Rank) {
    multiset(ps) == multiset(PairSet(rank))
  }

  predicate SortedPairs(ps: seq<Pair>) {
    forall i, j | 0 <= i < j < |ps| :: ps[i].0 <= ps[j].0
  }

  function InsertPair(p: Pair, s: seq<Pair>): (r: seq<Pair>)
    requires SortedPairs(s)
    ensures SortedPairs(r) && multiset(r) == multiset(s) + multiset{p}
  {
    if s == [] then [p]
    else if p.0 <= s[0].0 then [p] + s
    else
      var t := InsertPair(p, s[1..]);
      InsertAbove(p, s, t);
      [s[0]] + t
  }

  lemma InsertAbove(p: Pair, s: seq<Pair>, t: seq<Pair>)
    requires s != [] && SortedPairs(s) && p.0 > s[0].0 && SortedPairs(t)
    requires multiset(t) == multiset(s[1..]) + multiset{p}
    ensures SortedPairs([s[0]] + t) && multiset([s[0]] + t) == multiset(s) + multiset{p}
  {
    forall j | 0 <= j < |t| ensures s[0].0 <= t[j].0 {
      assert t[j] in multiset(t);
      if t[j] != p { assert t[j] in s[1..]; }
    }
    assert s == [s[0]] + s[1..];
  }

  /** `sort_unstable_by_key` on the `_seq` component. */
  function SortPairs(s: seq<Pair>): (r: seq<Pair>)
    ensures SortedPairs(r) && multiset(r) == multiset(s)
  {
    if s == [] then []
    else
      assert s == [s[0]] + s[1..];
      InsertPair(s[0], SortPairs(s[1..]))
  }

  function KeysOf(ps: seq<Pair>): (ks: seq<Text>)
    ensures |ks| == |ps| && forall i | 0 <= i < |ks| :: ks[i] == ps[i].1
  {
    seq(|ps|, i requires 0 <= i < |ps| => ps[i].1)
  }

  lemma ListedOnce(ps: seq<Pair>, rank: Rank, i: nat, j: nat)
    requires Lists(ps, rank) && i < j < |ps|
    ensures ps[i] != ps[j]
  {
    assert ps == ps[..j] + ps[j..];
    assert ps[..j][i] in multiset(ps[..j]) && ps[j..][0] in multiset(ps[j..]);
    assert multiset(ps)[ps[i]] == multiset(ps[..j])[ps[i]] + multiset(ps[j..])[ps[i]];
    assert multiset(PairSet(rank))[ps[i]] <= 1;
  }

  lemma ListedPair(ps: seq<Pair>, rank: Rank, p: Pair)
    requires Lists(ps, rank)
    ensures p in ps <==> p.1 in rank && rank[p.1] == p.0
  {
    assert p in ps <==> p in multiset(ps);
    assert p in multiset(PairSet(rank)) <==> p in PairSet(rank);
  }

  /** Whatever order the pairs were collected in, sorting them gives the unique listing. */
  lemma SortedIsRanking(ps: seq<Pair>, rank: Rank)
    requires Lists(ps, rank) && Injective(rank)
    ensures IsRanking(KeysOf(SortPairs(ps)), rank)
  {
    var r := SortPairs(ps);
    var s := KeysOf(r);
    forall i | 0 <= i < |r| ensures s[i] in rank && rank[s[i]] == r[i].0 {
      ListedPair(r, rank, r[i]);
    }
    forall k | k in rank ensures k in s {
      ListedPair(r, rank, (rank[k], k));
      var i :| 0 <= i < |r| && r[i] == (rank[k], k);
      assert s[i] == k;
    }
    forall i, j | 0 <= i < j < |s| ensures rank[s[i]] < rank[s[j]] {
      ListedOnce(r, rank, i, j);
      assert r[i].0 <= r[j].0;
      assert s[i] != s[j] && rank[s[i]] != rank[s[j]];
    }
  }

  lemma SortedIsListing(ps: seq<Pair>, rank: Rank)
    requires Lists(ps, rank) && Injective(rank)
    ensures KeysOf(SortPairs(ps)) == Ranking(rank)
  {
    SortedIsRanking(ps, rank);
    RankingUnique(KeysOf(SortPairs(ps)), Ranking(rank), rank);
  }

  lemma ListsPut(ps: seq<Pair>, rank: Rank, k: Text, s: u64)
    requires Lists(ps, rank) && k !in rank
    ensures Lists(ps + [(s, k)], rank[k := s])
  {
    hide PairSet;
    var rank' := rank[k := s];
    forall p: Pair ensures p in PairSet(rank') <==> p in PairSet(rank) + {(s, k)} {
      InPairSet(p, rank);
      InPairSet(p, rank');
    }
    assert PairSet(rank') == PairSet(rank) + {(s, k)};
    InPairSet((s, k), rank);
  }

  lemma {:induction false} AscendingUnique(a: seq<u64>, b: seq<u64>, s: set<u64>)
    requires IsAscending(a, s) && IsAscending(b, s)
    ensures a == b
    decreases |a|
  {
    assert a != [] ==> a[0] in s && a[0] in b;
    assert b != [] ==> b[0] in s && b[0] in a;
    if a != [] {
      assert a[0] == b[0];
      AscendingTail(a, s);
      AscendingTail(b, s);
      AscendingUnique(a[1..], b[1..], s - {a[0]});
    }
  }

  lemma AscendingTail(a: seq<u64>, s: set<u64>)
    requires IsAscending(a, s) && a != []
    ensures IsAscending(a[1..], s - {a[0]})
  {
    forall x | x in s - {a[0]} ensures x in a[1..] {
      var i :| 0 <= i < |a| && a[i] == x;
      assert a[1..][i - 1] == x;
    }
    forall i | 0 <= i < |a| - 1 ensures a[1..][i] in s - {a[0]} {
      assert a[0] < a[i + 1];
    }
  }
}
