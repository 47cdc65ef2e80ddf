/** Count-limited deletes: each removes exactly a prefix of the `_seq` listing, so a capped
    collection keeps exactly its newest documents. */
module Limits {
  import opened Bytes
  import opened Json
  import opened Codec
  import opened Tokens
  import opened LogCodec
  import opened Replay
  import opened Documents
  import opened Order
  import opened Sorting
  import opened Engine
  import opened Runs

  type Keep = (Text, Bytes) -> bool

  /** `_seq` of the documents that pass the predicate. */
  ghost function Passing(col: Collection, keep: Keep): Rank {
    Restrict(RankOf(col), k => k in col && keep(k, col[k]))
  }

  lemma {:induction false} RankingLength(s: seq<Text>, rank: Rank)
    requires IsRanking(s, rank)
    ensures |s| == |rank|
    decreases |s|
  {
    if s == [] {
      assert forall k | k in rank :: k in s;
      assert rank.Keys == {};
    } else {
      RankingHead(s, rank);
      RankingLength(s[1..], rank - {s[0]});
      assert (rank - {s[0]}).Keys == rank.Keys - {s[0]};
    }
  }

  /** Reading `_seq` from the decoded document or from the raw bytes is the same. */
  lemma DecodedRankIsRank(ram: Ram, c: Text)
    requires Inv(ram) && c in ram.docs
    ensures DecodedRank(ram.docs[c]) == RankOf(ram.docs[c])
  {
    hide Sound, Decode, SeqOf, IsGraph, U64At;
    var col := ram.docs[c];
    assert CollectionInv(CollectionOf(ram.docs, c), IndexOf(ram, c), Counter(ram, c));
    forall k | k in col ensures Decode(col[k]).Some? && U64At(Decode(col[k]).value, IKEY_SEQ) == Some(SeqOf(col[k])) {
      SoundSeq(col[k]);
    }
  }

  /** `_seq` values of a live collection are pairwise distinct. */
  lemma LiveInjective(ram: Ram, c: Text)
    requires Inv(ram)
    ensures Injective(RankOf(CollectionOf(ram.docs, c)))
  {
    hide CollectionInv, RankOf;
    assert CollectionInv(CollectionOf(ram.docs, c), IndexOf(ram, c), Counter(ram, c));
    DistinctSeqs(CollectionOf(ram.docs, c), IndexOf(ram, c), Counter(ram, c));
  }

  /** `delete_n` picks the first `n` of the listing, through the index or without it. */
  lemma CountedIsPrefix(ram: Ram, c: Text, n: nat, asc: bool)
    requires Inv(ram) && c in ram.docs
    ensures CountedKeys(ram, c, n, asc) == Take(Listing(RankOf(ram.docs[c]), asc), n)
  {
    hide Sound, SeqOf;
    assert CollectionInv(CollectionOf(ram.docs, c), IndexOf(ram, c), Counter(ram, c));
    if c in ram.index {
      var idx, rank := ram.index[c], RankOf(ram.docs[c]);
      LiveInjective(ram, c);
      WalkIsRanking(idx, rank, Ascending(idx.Keys));
      RankingUnique(Walk(idx, Ascending(idx.Keys)), Ranking(rank), rank);
    }
  }

  /** Deleting the first `n` matches, in either direction, leaves everything else and exactly the rest
      of the listing. */
  lemma DeletePrefix(ram: Ram, c: Text, keep: Keep, asc: bool, n: nat)
    requires Inv(ram) && c in ram.docs && n <= |Listing(Passing(ram.docs[c], keep), asc)|
    ensures var keys := Listing(Passing(ram.docs[c], keep), asc);
            var left := DeleteKeys(ram, c, keys[..n]).docs[c];
            && Listing(Passing(left, keep), asc) == keys[n..]
            && left == map k | k in ram.docs[c] && k !in keys[..n] :: ram.docs[c][k]
  {
    hide SeqOf, Inv, DeleteKeys, IsRanking, RankOf, Injective, Passing;
    var col := ram.docs[c];
    var rank := Passing(col, keep);
    var keys, up := Listing(rank, asc), Ranking(rank);
    LiveInjective(ram, c);
    PassingInjective(col, keep);
    DeleteKeysDocs(ram, c, keys[..n]);
    RankMinus(col, keys[..n]);
    var left := col - Elems(keys[..n]);
    PassingMinus(col, keep, keys[..n]);
    RankingExistsFor(left, keep, col);
    if asc {
      RankingRest(up, rank, n);
      RankingUnique(up[n..], Ranking(Passing(left, keep)), Passing(left, keep));
    } else {
      var m := |up| - n;
      ReverseParts(up, m);
      RankingInit(up, rank, m);
      RankingUnique(up[..m], Ranking(Passing(left, keep)), Passing(left, keep));
    }
  }

  lemma PassingInjective(col: Collection, keep: Keep)
    requires Injective(RankOf(col))
    ensures Injective(Passing(col, keep))
  {
    hide SeqOf;
  }

  lemma PassingMinus(col: Collection, keep: Keep, keys: seq<Text>)
    ensures Passing(col - Elems(keys), keep) == Passing(col, keep) - Elems(keys)
  {
    hide SeqOf;
  }

  lemma RankingExistsFor(left: Collection, keep: Keep, col: Collection)
    requires Injective(Passing(col, keep)) && Passing(left, keep).Keys <= Passing(col, keep).Keys
    requires forall k | k in Passing(left, keep) :: Passing(left, keep)[k] == Passing(col, keep)[k]
    ensures IsRanking(Ranking(Passing(left, keep)), Passing(left, keep))
  {
    hide Passing, IsRanking;
    assert Injective(Passing(left, keep));
  }

  lemma ReverseParts(s: seq<Text>, m: nat)
    requires m <= |s|
    ensures var n := |s| - m;
            Reverse(s)[n..] == Reverse(s[..m]) && Elems(Reverse(s)[..n]) == Elems(s[m..])
  {
    var n := |s| - m;
    forall k | k in s[m..] ensures k in Reverse(s)[..n] {
      var i :| 0 <= i < n && s[m..][i] == k;
      assert Reverse(s)[..n][n - 1 - i] == k;
    }
    forall k | k in Reverse(s)[..n] ensures k in s[m..] {
      var i :| 0 <= i < n && Reverse(s)[..n][i] == k;
      assert s[m..][n - 1 - i] == k;
    }
  }

  /** Deleting the `n` oldest documents leaves exactly the rest of the ascending listing. */
  lemma DeleteOldest(ram: Ram, c: Text, n: nat)
    requires Inv(ram) && c in ram.docs && n <= |Ranking(RankOf(ram.docs[c]))|
    ensures var keys := Ranking(RankOf(ram.docs[c]));
            var left := DeleteKeys(ram, c, keys[..n]).docs[c];
            IsRanking(keys[n..], RankOf(left)) && left == map k | k in ram.docs[c] && k !in keys[..n] :: ram.docs[c][k]
  {
    hide SeqOf, Inv, DeleteKeys, IsRanking, RankOf, Injective;
    var col := ram.docs[c];
    var keys := Ranking(RankOf(col));
    LiveInjective(ram, c);
    RankingRest(keys, RankOf(col), n);
    DeleteKeysDocs(ram, c, keys[..n]);
    RankMinus(col, keys[..n]);
  }

  lemma RankMinus(col: Collection, keys: seq<Text>)
    ensures RankOf(col - Elems(keys)) == RankOf(col) - Elems(keys)
    ensures col - Elems(keys) == map k | k in col && k !in keys :: col[k]
  {
    hide SeqOf;
  }

  lemma PrefixOlder(s: seq<Text>, rank: Rank, n: nat, e: Text, k: Text)
    requires IsRanking(s, rank) && n <= |s| && e in s[..n] && k in s[n..]
    ensures rank[e] < rank[k]
  {
    var i :| 0 <= i < n && s[..n][i] == e;
    var j :| 0 <= j < |s| - n && s[n..][j] == k;
    assert s[i] == e && s[n + j] == k;
  }

  /** The keys left after removing a prefix of the listing: how many, and newer than those removed. */
  lemma RestIsNewest(ram: Ram, c: Text, n: nat)
    requires Inv(ram) && c in ram.docs && n <= |ram.docs[c]|
    ensures var keys := Ranking(RankOf(ram.docs[c]));
            |keys| == |ram.docs[c]| && var left := DeleteKeys(ram, c, keys[..n]).docs[c]; var col := ram.docs[c];
            |left| == |col| - n && left.Keys <= col.Keys
            && (forall k | k in left :: left[k] == col[k])
            && (forall k, e | k in left && e in col && e !in left :: SeqOf(col[e]) < SeqOf(col[k]))
  {
    hide SeqOf, Inv, DeleteKeys, IsRanking;
    var col := ram.docs[c];
    var rank := RankOf(col);
    var keys := Ranking(rank);
    LiveInjective(ram, c);
    RankingLength(keys, rank);
    assert rank.Keys == col.Keys;
    DeleteOldest(ram, c, n);
    var left := DeleteKeys(ram, c, keys[..n]).docs[c];
    RankingLength(keys[n..], RankOf(left));
    assert RankOf(left).Keys == left.Keys;
    forall k, e | k in left && e in col && e !in left ensures SeqOf(col[e]) < SeqOf(col[k]) {
      RankingHas(keys[n..], RankOf(left), k);
      PrefixOlder(keys, rank, n, e, k);
      assert rank[e] == SeqOf(col[e]) && rank[k] == SeqOf(col[k]);
    }
  }

  lemma RankingHas(s: seq<Text>, rank: Rank, k: Text)
    requires IsRanking(s, rank) && k in rank
    ensures k in s
  {
  }

  /** `left` is what remains of `col` when all but the `max` newest documents are removed. */
  ghost predicate KeepsNewest(col: Collection, left: Collection, max: nat) {
    && left.Keys <= col.Keys && |left| == (if |col| <= max then |col| else max)
    && (forall k | k in left :: left[k] == col[k])
    && (forall k, e | k in left && e in col && e !in left :: SeqOf(col[e]) < SeqOf(col[k]))
  }

  /** After eviction a collection that was over its cap holds exactly `max` documents, every one of
      them newer than every evicted one. */
  lemma EvictKeepsNewest(ram: Ram, c: Text, max: nat, t: Clock)
    requires Inv(ram) && c in ram.docs && |ram.docs[c]| > max
    ensures KeepsNewest(ram.docs[c], DeleteBatch(ram, c, EvictedKeys(ram, c, max), t).ram.docs[c], max)
  {
    hide SeqOf, Inv, DeleteKeys, DecodedRank, RankOf, Ranking;
    DecodedRankIsRank(ram, c);
    RestIsNewest(ram, c, |ram.docs[c]| - max);
  }
}
