/** Positions in the `_seq` listing, told by counting: how many documents come before each one. */
module Positions {
  import opened Bytes
  import opened Tokens
  import opened Replay
  import opened Order
  import opened Engine
  import opened Limits

  /** The keys of the matching documents. */
  ghost function Matching(col: Collection, keep: Keep): set<Text> {
    set k | k in col && keep(k, col[k])
  }

  /** The matching documents that are listed before key `k`: older ones, or newer ones. */
  ghost function Ahead(col: Collection, keep: Keep, asc: bool, k: Text): set<Text>
    requires k in col
  {
    set j | j in Matching(col, keep) && if asc then SeqOf(col[j]) < SeqOf(col[k]) else SeqOf(col[j]) > SeqOf(col[k])
  }

  // ----- Positions in a ranking -----

  lemma {:induction false} ElemsCount(s: seq<Text>)
    requires forall i, j | 0 <= i < j < |s| :: s[i] != s[j]
    ensures |Elems(s)| == |s|
  {
    if s == [] {
      assert Elems(s) == {};
    } else {
      var n := |s| - 1;
      ElemsCount(s[..n]);
      assert Elems(s) == Elems(s[..n]) + {s[n]} by {
        assert s == s[..n] + [s[n]];
      }
      assert s[n] !in Elems(s[..n]);
    }
  }

  /** The i-th of a ranking has exactly `i` keys below it. */
  lemma BelowCount(s: seq<Text>, rank: Rank, i: nat)
    requires IsRanking(s, rank) && i < |s|
    ensures |set k | k in rank && rank[k] < rank[s[i]]| == i
  {
    ElemsCount(s[..i]);
    var below := set k | k in rank && rank[k] < rank[s[i]];
    forall k ensures k in below <==> k in Elems(s[..i]) {
      if k in below {
        var j :| 0 <= j < |s| && s[j] == k;
        assert j < i;
        assert s[..i][j] == k;
      }
      if k in Elems(s[..i]) {
        var j :| 0 <= j < i && s[..i][j] == k;
        assert s[j] == k;
      }
    }
    assert below == Elems(s[..i]);
  }

  /** ... and the rest above it. */
  lemma AboveCount(s: seq<Text>, rank: Rank, i: nat)
    requires IsRanking(s, rank) && i < |s|
    ensures |set k | k in rank && rank[k] > rank[s[i]]| == |s| - 1 - i
  {
    var rest := s[i + 1..];
    ElemsCount(rest);
    var above := set k | k in rank && rank[k] > rank[s[i]];
    forall k ensures k in above <==> k in Elems(rest) {
      if k in above {
        var j :| 0 <= j < |s| && s[j] == k;
        assert j > i;
        assert rest[j - i - 1] == k;
      }
      if k in Elems(rest) {
        var j :| 0 <= j < |rest| && rest[j] == k;
        assert s[j + i + 1] == k;
      }
    }
    assert above == Elems(rest);
  }

  /** A key of the listing stands behind exactly those it should. */
  lemma ListingPosition(col: Collection, keep: Keep, asc: bool, i: nat)
    requires Injective(RankOf(col)) && i < |Listing(Passing(col, keep), asc)|
    ensures var k := Listing(Passing(col, keep), asc)[i]; k in Matching(col, keep) && |Ahead(col, keep, asc, k)| == i
  {
    hide SeqOf, Passing, Ahead, Matching, RankOf, IsRanking, Injective;
    var rank := Passing(col, keep);
    PassingInjective(col, keep);
    var s := Ranking(rank);
    var at := if asc then i else |s| - 1 - i;
    BelowCount(s, rank, at);
    AboveCount(s, rank, at);
    RankingIn(s, rank, at);
    AheadIs(col, keep, s[at]);
  }

  lemma RankingIn(s: seq<Text>, rank: Rank, i: nat)
    requires IsRanking(s, rank) && i < |s|
    ensures s[i] in rank
  {
  }

  lemma AheadIs(col: Collection, keep: Keep, k: Text)
    requires k in Passing(col, keep)
    ensures var rank := Passing(col, keep);
            && k in Matching(col, keep)
            && Ahead(col, keep, true, k) == (set j | j in rank && rank[j] < rank[k])
            && Ahead(col, keep, false, k) == (set j | j in rank && rank[j] > rank[k])
  {
    hide SeqOf;
  }

  lemma ListingSize(col: Collection, keep: Keep, asc: bool)
    requires Injective(RankOf(col))
    ensures |Listing(Passing(col, keep), asc)| == |Matching(col, keep)|
  {
    hide SeqOf, Injective, IsRanking;
    var rank := Passing(col, keep);
    PassingInjective(col, keep);
    RankingLength(Ranking(rank), rank);
    assert rank.Keys == Matching(col, keep);
  }

  // ----- The first few -----

  /** A match that is among the first `limit`, or any match without a limit. */
  ghost predicate AmongFirst(col: Collection, keep: Keep, asc: bool, limit: Option<nat>, k: Text) {
    k in Matching(col, keep) && k in col && (limit.None? || |Ahead(col, keep, asc, k)| < limit.value)
  }

  /** How many matches that is. */
  function Up(n: nat, limit: Option<nat>): nat {
    if limit.None? || n <= limit.value then n else limit.value
  }

  function TakeUpTo(s: seq<Text>, limit: Option<nat>): seq<Text> {
    match limit case None => s case Some(n) => Take(s, n)
  }

  /** The beginning of the listing holds exactly the first matches. */
  lemma FirstMeaning(col: Collection, keep: Keep, asc: bool, limit: Option<nat>)
    requires Injective(RankOf(col))
    ensures var keys := TakeUpTo(Listing(Passing(col, keep), asc), limit);
            |keys| == Up(|Matching(col, keep)|, limit) && forall k :: k in keys <==> AmongFirst(col, keep, asc, limit, k)
  {
    hide Listing, Passing, Injective, RankOf, Matching, Ahead;
    var all := Listing(Passing(col, keep), asc);
    var keys := TakeUpTo(all, limit);
    ListingSize(col, keep, asc);
    forall i | 0 <= i < |all| ensures all[i] in Matching(col, keep) && all[i] in col && |Ahead(col, keep, asc, all[i])| == i {
      ListedIn(col, keep, asc, i);
      ListingPosition(col, keep, asc, i);
    }
    forall k ensures k in keys <==> AmongFirst(col, keep, asc, limit, k) {
      if k in keys {
        var i :| 0 <= i < |keys| && keys[i] == k;
        assert keys[i] == all[i];
      }
      if AmongFirst(col, keep, asc, limit, k) {
        var i := ListedAt(col, keep, asc, k);
        assert i < |keys| && keys[i] == k;
      }
    }
  }

  lemma ListedIn(col: Collection, keep: Keep, asc: bool, i: nat)
    requires Injective(RankOf(col)) && i < |Listing(Passing(col, keep), asc)|
    ensures Listing(Passing(col, keep), asc)[i] in col
  {
    hide SeqOf, Ahead, Listing, Passing;
    ListingPosition(col, keep, asc, i);
  }

  lemma ListedAt(col: Collection, keep: Keep, asc: bool, k: Text) returns (i: nat)
    requires Injective(RankOf(col)) && k in Matching(col, keep)
    ensures i < |Listing(Passing(col, keep), asc)| && Listing(Passing(col, keep), asc)[i] == k
  {
    hide SeqOf, Injective;
    var s := Ranking(Passing(col, keep));
    PassingInjective(col, keep);
    assert k in Passing(col, keep);
    var j :| 0 <= j < |s| && s[j] == k;
    i := if asc then j else |s| - 1 - j;
  }
}
