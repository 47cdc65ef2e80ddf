/** Ordering documents by `_seq`: the unique ascending listing that every scan, page and
    count-limited delete is specified by. */
module Order {
  import opened Bytes

  /** The `_seq` of every key of a collection. */
  type Rank = map<Text, u64>

  ghost predicate Injective(rank: Rank) {
    forall a, b | a in rank && b in rank && rank[a] == rank[b] :: a == b
  }

  /** `s` lists exactly the keys of `rank`, lowest `_seq` first. */
  ghost predicate IsRanking(s: seq<Text>, rank: Rank) {
    && (forall i | 0 <= i < |s| :: s[i] in rank)
    && (forall k | k in rank :: k in s)
    && (forall i, j | 0 <= i < j < |s| :: rank[s[i]] < rank[s[j]])
  }

  lemma RankingHead(s: seq<Text>, rank: Rank)
    requires IsRanking(s, rank) && s != []
    ensures forall k | k in rank :: rank[s[0]] <= rank[k]
    ensures IsRanking(s[1..], rank - {s[0]})
  {
    forall k | k in rank ensures rank[s[0]] <= rank[k] {
      var i :| 0 <= i < |s| && s[i] == k;
    }
    forall k | k in rank - {s[0]} ensures k in s[1..] {
      var i :| 0 <= i < |s| && s[i] == k;
      assert s[1..][i - 1] == k;
    }
    forall i | 0 <= i < |s| - 1 ensures s[1..][i] in rank - {s[0]} {
      assert rank[s[0]] < rank[s[i + 1]];
    }
  }

  lemma {:induction false} RankingUnique(s: seq<Text>, t: seq<Text>, rank: Rank)
    requires IsRanking(s, rank) && IsRanking(t, rank)
    ensures s == t
    decreases |s|
  {
    assert s != [] ==> s[0] in rank && s[0] in t;
    assert t != [] ==> t[0] in rank && t[0] in s;
    if s != [] {
      RankingHead(s, rank);
      RankingHead(t, rank);
      assert rank[s[0]] <= rank[t[0]] <= rank[s[0]];
      RankingInjective(s, rank, s[0], t[0]);
      RankingUnique(s[1..], t[1..], rank - {s[0]});
    }
  }

  /** Every collection with distinct `_seq` values has its listing. */
  lemma {:induction false} RankingExists(rank: Rank)
    requires Injective(rank)
    ensures exists s :: IsRanking(s, rank)
    decreases |rank|
  {
    if |rank| == 0 {
      assert rank.Keys == {};
      assert IsRanking([], rank);
    } else {
      var k := LowestKey(rank);
      RankingExists(rank - {k});
      var t :| IsRanking(t, rank - {k});
      RankingCons(k, t, rank);
      assert IsRanking([k] + t, rank);
    }
  }

  lemma RankingCons(k: Text, t: seq<Text>, rank: Rank)
    requires k in rank && Injective(rank) && (forall x | x in rank :: rank[k] <= rank[x])
    requires IsRanking(t, rank - {k})
    ensures IsRanking([k] + t, rank)
  {
    var s := [k] + t;
    forall x | x in rank ensures x in s {
      if x != k { assert x in t; }
    }
    forall i, j | 0 <= i < j < |s| ensures rank[s[i]] < rank[s[j]] {
      assert s[j] == t[j - 1] && t[j - 1] in rank - {k};
      if i > 0 {
        assert s[i] == t[i - 1] && rank[t[i - 1]] < rank[t[j - 1]];
      } else {
        assert rank[k] <= rank[s[j]] && rank[k] != rank[s[j]];
      }
    }
  }

  lemma {:induction false} LowestKey(rank: Rank) returns (k: Text)
    requires |rank| > 0
    ensures k in rank && forall x | x in rank :: rank[k] <= rank[x]
    decreases |rank|
  {
    k :| k in rank.Keys;
    var rest := rank - {k};
    assert rest.Keys == rank.Keys - {k};
    if |rest| > 0 {
      var m := LowestKey(rest);
      forall x | x in rank && x != k ensures rank[m] <= rank[x] { assert x in rest; }
      if rank[m] < rank[k] { k := m; }
    } else {
      assert rest.Keys == {};
      forall x | x in rank ensures x == k { assert x !in rest.Keys; }
    }
  }

  /** The listing, oldest first. */
  ghost function Ranking(rank: Rank): (s: seq<Text>)
    ensures Injective(rank) ==> IsRanking(s, rank)
  {
    if Injective(rank) then
      RankingExists(rank);
      var s :| IsRanking(s, rank);
      s
    else []
  }

  function Reverse<T>(s: seq<T>): (r: seq<T>)
    ensures |r| == |s| && forall i | 0 <= i < |s| :: r[i] == s[|s| - 1 - i]
  {
    seq(|s|, i requires 0 <= i < |s| => s[|s| - 1 - i])
  }

  /** The first `n` elements, or all of them. */
  function Take<T>(s: seq<T>, n: nat): (r: seq<T>)
    ensures |r| == if n <= |s| then n else |s|
    ensures r <= s
  {
    if n <= |s| then s[..n] else s
  }

  /** All but the first `n` elements. */
  function Skip<T>(s: seq<T>, n: nat): (r: seq<T>)
    ensures |r| == if n <= |s| then |s| - n else 0
    ensures forall i | 0 <= i < |r| :: r[i] == s[n + i]
  {
    if n <= |s| then s[n..] else []
  }

  /** Oldest first or newest first. */
  ghost function Listing(rank: Rank, asc: bool): seq<Text> {
    if asc then Ranking(rank) else Reverse(Ranking(rank))
  }

  ghost function Elems(s: seq<Text>): set<Text> {
    set k | k in s
  }

  /** Removing the first `n` of the listing leaves the rest of it, in order. */
  lemma RankingRest(s: seq<Text>, rank: Rank, n: nat)
    requires IsRanking(s, rank) && n <= |s|
    ensures IsRanking(s[n..], rank - Elems(s[..n]))
  {
    var rest := rank - Elems(s[..n]);
    forall i | 0 <= i < |s| - n ensures s[n..][i] in rest { LaterIsNew(s, rank, n, n + i); }
    forall k | k in rest ensures k in s[n..] { NotBefore(s, n, k); }
    forall i, j | 0 <= i < j < |s| - n ensures rest[s[n..][i]] < rest[s[n..][j]] {
      assert s[n..][i] == s[n + i] && s[n..][j] == s[n + j];
    }
  }

  /** Removing the end of the listing leaves its beginning. */
  lemma RankingInit(s: seq<Text>, rank: Rank, m: nat)
    requires IsRanking(s, rank) && m <= |s|
    ensures IsRanking(s[..m], rank - Elems(s[m..]))
  {
    var rest := rank - Elems(s[m..]);
    forall i | 0 <= i < m ensures s[..m][i] in rest { EarlierIsKept(s, rank, m, i); }
    forall k | k in rest ensures k in s[..m] { NotAfter(s, m, k); }
    forall i, j | 0 <= i < j < m ensures rest[s[..m][i]] < rest[s[..m][j]] {
      assert rank[s[i]] < rank[s[j]];
    }
  }

  lemma EarlierIsKept(s: seq<Text>, rank: Rank, m: nat, i: nat)
    requires IsRanking(s, rank) && i < m <= |s|
    ensures s[i] in rank && s[i] !in Elems(s[m..])
  {
    forall j | 0 <= j < |s| - m ensures s[m..][j] != s[i] { assert rank[s[i]] < rank[s[m + j]]; }
  }

  lemma NotAfter(s: seq<Text>, m: nat, k: Text)
    requires m <= |s| && k in s && k !in Elems(s[m..])
    ensures k in s[..m]
  {
    assert s == s[..m] + s[m..];
  }

  lemma LaterIsNew(s: seq<Text>, rank: Rank, n: nat, i: nat)
    requires IsRanking(s, rank) && n <= i < |s|
    ensures s[i] in rank && s[i] !in Elems(s[..n])
  {
    forall j | 0 <= j < n ensures s[..n][j] != s[i] { assert rank[s[j]] < rank[s[i]]; }
  }

  lemma NotBefore(s: seq<Text>, n: nat, k: Text)
    requires n <= |s| && k in s && k !in Elems(s[..n])
    ensures k in s[n..]
  {
    assert s == s[..n] + s[n..];
  }

  function Filter(s: seq<Text>, keep: Text -> bool): seq<Text> {
    if s == [] then []
    else if keep(s[0]) then [s[0]] + Filter(s[1..], keep)
    else Filter(s[1..], keep)
  }

  lemma {:induction false} FilterMember(s: seq<Text>, keep: Text -> bool, k: Text)
    ensures k in Filter(s, keep) <==> k in s && keep(k)
  {
    if s != [] {
      FilterMember(s[1..], keep, k);
      assert k in s <==> k == s[0] || k in s[1..];
    }
  }

  lemma {:induction false} FilterAscends(s: seq<Text>, keep: Text -> bool, rank: Rank)
    requires forall i | 0 <= i < |s| :: s[i] in rank
    requires forall i, j | 0 <= i < j < |s| :: rank[s[i]] < rank[s[j]]
    ensures forall i | 0 <= i < |Filter(s, keep)| :: Filter(s, keep)[i] in rank
    ensures forall i, j | 0 <= i < j < |Filter(s, keep)| :: rank[Filter(s, keep)[i]] < rank[Filter(s, keep)[j]]
  {
    if s != [] {
      var t := Filter(s[1..], keep);
      FilterAscends(s[1..], keep, rank);
      forall j | 0 <= j < |t| ensures rank[s[0]] < rank[t[j]] {
        FilterMember(s[1..], keep, t[j]);
        var i :| 0 <= i < |s| - 1 && s[1..][i] == t[j];
        assert s[i + 1] == t[j];
      }
    }
  }

  function Restrict(rank: Rank, keep: Text -> bool): Rank {
    map k | k in rank && keep(k) :: rank[k]
  }

  /** Filtering the listing is listing the filtered collection. */
  lemma RankingFilter(s: seq<Text>, rank: Rank, keep: Text -> bool)
    requires IsRanking(s, rank)
    ensures IsRanking(Filter(s, keep), Restrict(rank, keep))
  {
    FilterAscends(s, keep, rank);
    forall k ensures k in Filter(s, keep) <==> k in s && keep(k) {
      FilterMember(s, keep, k);
    }
    forall i | 0 <= i < |Filter(s, keep)| ensures Filter(s, keep)[i] in Restrict(rank, keep) {
      assert Filter(s, keep)[i] in Filter(s, keep);
    }
  }

  lemma RankingInjective(s: seq<Text>, rank: Rank, a: Text, b: Text)
    requires IsRanking(s, rank) && a in rank && b in rank && rank[a] == rank[b]
    ensures a == b
  {
    assert a in s && b in s;
    var i :| 0 <= i < |s| && s[i] == a;
    var j :| 0 <= j < |s| && s[j] == b;
  }

  // ----- Walking an ordered index (`BTreeMap` iteration) -----

  ghost predicate IsGraph(idx: map<u64, Text>, rank: Rank) {
    && (forall k | k in rank :: rank[k] in idx && idx[rank[k]] == k)
    && (forall s | s in idx :: idx[s] in rank && rank[idx[s]] == s)
  }

  lemma GraphPut(idx: map<u64, Text>, rank: Rank, k: Text, s: u64)
    requires IsGraph(idx, rank)
    requires if k in rank then rank[k] == s else s !in idx
    ensures IsGraph(idx[s := k], rank[k := s])
  {
  }

  lemma GraphRemove(idx: map<u64, Text>, rank: Rank, k: Text)
    requires IsGraph(idx, rank)
    ensures IsGraph(if k in rank then idx - {rank[k]} else idx, rank - {k})
  {
  }

  ghost predicate IsAscending(keys: seq<u64>, s: set<u64>) {
    && (forall i | 0 <= i < |keys| :: keys[i] in s)
    && (forall x | x in s :: x in keys)
    && (forall i, j | 0 <= i < j < |keys| :: keys[i] < keys[j])
  }

  /** Ascending iteration over the keys of an ordered map. */
  ghost function Ascending(s: set<u64>): (keys: seq<u64>)
    ensures IsAscending(keys, s)
  {
    if s == {} then []
    else
      var m := Least(s);
      AscendingCons(m, Ascending(s - {m}), s);
      [m] + Ascending(s - {m})
  }

  lemma AscendingCons(m: u64, t: seq<u64>, s: set<u64>)
    requires m in s && (forall x | x in s :: m <= x) && IsAscending(t, s - {m})
    ensures IsAscending([m] + t, s)
  {
    var r := [m] + t;
    forall x | x in s ensures x in r {
      if x != m { assert x in t; }
    }
    forall i, j | 0 <= i < j < |r| ensures r[i] < r[j] {
      assert r[j] == t[j - 1] && t[j - 1] in s - {m};
      if i > 0 { assert r[i] == t[i - 1]; }
    }
  }

  ghost function Least(s: set<u64>): (m: u64)
    requires s != {}
    ensures m in s && forall x | x in s :: m <= x
  {
    var x :| x in s;
    if s == {x} then x
    else
      var m := Least(s - {x});
      assert forall y | y in s && y != x :: y in s - {x};
      if m < x then m else x
  }

  // ----- Rebuilding index and counter -----

  ghost function Ranks(rank: Rank): set<u64> {
    set k | k in rank :: rank[k]
  }

  ghost function Greatest(s: set<u64>): (m: u64)
    requires s != {}
    ensures m in s && forall x | x in s :: x <= m
  {
    var x :| x in s;
    if s == {x} then x
    else
      var m := Greatest(s - {x});
      assert forall y | y in s && y != x :: y in s - {x};
      if m > x then m else x
  }

  /** Highest `_seq` of a collection, 0 when it is empty. */
  ghost function MaxSeq(rank: Rank): (m: u64)
    ensures forall k | k in rank :: rank[k] <= m
    ensures m == 0 || exists k :: k in rank && rank[k] == m
  {
    assert forall k | k in rank :: rank[k] in Ranks(rank);
    if Ranks(rank) == {} then 0 else Greatest(Ranks(rank))
  }

  ghost function KeyWith(rank: Rank, s: u64): (k: Text)
    requires s in Ranks(rank)
    ensures k in rank && rank[k] == s
  {
    var k :| k in rank && rank[k] == s; k
  }

  ghost function IndexFor(rank: Rank): map<u64, Text> {
    map s | s in Ranks(rank) :: KeyWith(rank, s)
  }

  lemma IndexForIsGraph(rank: Rank)
    requires Injective(rank)
    ensures IsGraph(IndexFor(rank), rank)
  {
    assert forall k | k in rank :: rank[k] in Ranks(rank);
  }

  lemma GraphUnique(a: map<u64, Text>, b: map<u64, Text>, rank: Rank)
    requires IsGraph(a, rank) && IsGraph(b, rank)
    ensures a == b
  {
    forall s | s in a ensures s in b && a[s] == b[s] { assert rank[a[s]] == s; }
    forall s | s in b ensures s in a { assert rank[b[s]] == s; }
  }

  /** The keys met when the index is walked upwards through `seqs`. */
  function Walk(idx: map<u64, Text>, seqs: seq<u64>): (r: seq<Text>)
    requires forall i | 0 <= i < |seqs| :: seqs[i] in idx
    ensures |r| == |seqs| && forall i | 0 <= i < |r| :: r[i] == idx[seqs[i]]
  {
    seq(|seqs|, i requires 0 <= i < |seqs| => idx[seqs[i]])
  }

  /** An exact index, walked in order, yields the listing. */
  lemma WalkIsRanking(idx: map<u64, Text>, rank: Rank, seqs: seq<u64>)
    requires IsGraph(idx, rank) && IsAscending(seqs, idx.Keys)
    ensures IsRanking(Walk(idx, seqs), rank)
  {
    var s := Walk(idx, seqs);
    forall k | k in rank ensures k in s {
      assert rank[k] in seqs;
      var i :| 0 <= i < |seqs| && seqs[i] == rank[k];
      assert s[i] == k;
    }
  }
}
