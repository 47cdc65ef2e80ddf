/** What a page of the `_seq` listing holds, told by how many matches come before each document. */
module Pages {
  import opened Bytes
  import opened Json
  import opened Codec
  import opened Tokens
  import opened Replay
  import opened Documents
  import opened Order
  import opened Engine
  import opened Limits
  import opened Positions
  import opened Scan

  // ----- The page -----

  /** How many of `n` matches a page shows. */
  function PageSize(n: nat, offset: nat, lim: nat): nat {
    if n <= offset then 0 else if n - offset <= lim then n - offset else lim
  }

  /** The i-th document of a page is a stored match with exactly `offset + i` matches ahead of it, and
      the page is as long as the matches and the limit allow. */
  lemma PageMeaning(ram: Ram, c: Text, keep: Keep, offset: nat, lim: nat, asc: bool)
    requires Inv(ram) && c in ram.docs
    ensures var col := ram.docs[c]; var page := Page(ram, c, keep, offset, lim, asc);
            && |page| == PageSize(|Matching(col, keep)|, offset, lim)
            && forall i | 0 <= i < |page| ::
                 && page[i].0 in Matching(col, keep) && Decode(col[page[i].0]) == Some(page[i].1)
                 && |Ahead(col, keep, asc, page[i].0)| == offset + i
  {
    hide Inv, DocsOf, Decode, Listing, Passing, Injective, RankOf, Matching, Ahead;
    var col := ram.docs[c];
    LiveInjective(ram, c);
    LiveDecodes(ram, c);
    var all := Listing(Passing(col, keep), asc);
    ListingSize(col, keep, asc);
    forall i | 0 <= i < |all| ensures all[i] in col && all[i] in Matching(col, keep) && |Ahead(col, keep, asc, all[i])| == i {
      ListedIn(col, keep, asc, i);
      ListingPosition(col, keep, asc, i);
    }
    var keys := Window(all, offset, lim);
    assert forall i | 0 <= i < |keys| :: keys[i] == all[offset + i];
    DocsAt(col, keys);
  }

  /** Without a count the scan returns the page that has room for every match. */
  lemma RestIsPage(ram: Ram, c: Text, keep: Keep, offset: nat)
    requires Inv(ram) && c in ram.docs
    ensures var col := ram.docs[c];
            DocsOf(col, Order.Skip(Ranking(Passing(col, keep)), offset)) == Page(ram, c, keep, offset, |Matching(col, keep)|, true)
  {
    hide Inv, DocsOf, Passing, Injective, RankOf, Matching;
    LiveInjective(ram, c);
    var col := ram.docs[c];
    ListingSize(col, keep, true);
    var all := Ranking(Passing(col, keep));
    assert Listing(Passing(col, keep), true) == all;
    assert Window(all, offset, |Matching(col, keep)|) == Order.Skip(all, offset);
  }
}
