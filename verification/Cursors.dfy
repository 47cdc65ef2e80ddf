/** Following the cursor: what a client sees that asks again behind the last document shown and stops
    at an empty page, and exactly when it sees everything. */
module Cursors {
  import opened Bytes
  import opened Json
  import opened Codec
  import opened Canonical
  import opened Tokens
  import opened Replay
  import opened Documents
  import opened Order
  import opened Engine
  import opened Runs
  import opened Invariants
  import opened Encodings
  import opened SystemFields
  import opened Limits
  import opened Scan
  import opened Walker
  import opened Where
  import opened Agreement
  import opened Pagination

  // ----- On lists -----

  /** Position of the last element that passes, -1 if none does. */
  function LastPass(s: seq<Text>, pass: Text -> bool): (i: int)
    ensures -1 <= i < |s| && (i >= 0 ==> pass(s[i])) && forall j | i < j < |s| :: !pass(s[j])
  {
    if s == [] then -1
    else if pass(s[|s| - 1]) then |s| - 1
    else LastPass(s[..|s| - 1], pass)
  }

  /** What is shown when windows of `c` elements are filtered, each window starting behind the last
      element shown, until a window shows nothing. */
  function Follow(keys: seq<Text>, pass: Text -> bool, c: nat): seq<Text>
    requires c > 0
    decreases |keys|
  {
    var window := Take(keys, c);
    var i := LastPass(window, pass);
    if i < 0 then [] else Filter(window, pass) + Follow(keys[i + 1..], pass, c)
  }

  predicate NonePass(keys: seq<Text>, pass: Text -> bool, i: nat, n: nat)
    requires n <= |keys|
  {
    forall m | i <= m < n :: !pass(keys[m])
  }

  predicate GapAt(keys: seq<Text>, pass: Text -> bool, c: nat, i: nat, j: nat) {
    i + c <= j < |keys| && pass(keys[j]) && NonePass(keys, pass, i, i + c)
  }

  /** `c` consecutive elements that all fail stand in front of one that passes. */
  ghost predicate Gap(keys: seq<Text>, pass: Text -> bool, c: nat) {
    exists i: nat, j: nat :: GapAt(keys, pass, c, i, j)
  }

  lemma TailFails(s: seq<Text>, pass: Text -> bool, n: nat)
    requires n <= |s| && forall j | n <= j < |s| :: !pass(s[j])
    ensures Filter(s, pass) == Filter(s[..n], pass)
  {
    hide Filter;
    assert s == s[..n] + s[n..];
    FilterConcat(s[..n], s[n..], pass);
    FilterKeepsNone(s[n..], pass);
  }

  lemma PrefixOfPrefix(w: seq<Text>, keys: seq<Text>, n: nat)
    requires w <= keys && n <= |w|
    ensures w[..n] == keys[..n]
  {
  }

  /** A window up to its last passing element shows all of it that passes. */
  lemma WindowShown(keys: seq<Text>, pass: Text -> bool, c: nat)
    ensures var i := LastPass(Take(keys, c), pass); Filter(Take(keys, c), pass) == Filter(keys[..i + 1], pass)
  {
    hide Filter, LastPass, Take;
    var window := Take(keys, c);
    var i := LastPass(window, pass);
    TailFails(window, pass, i + 1);
    PrefixOfPrefix(window, keys, i + 1);
  }

  lemma FilterEmpty(keys: seq<Text>, pass: Text -> bool)
    ensures Filter(keys, pass) == [] <==> NonePass(keys, pass, 0, |keys|)
  {
    if NonePass(keys, pass, 0, |keys|) {
      FilterKeepsNone(keys, pass);
    } else {
      var m :| 0 <= m < |keys| && pass(keys[m]);
      FilterMember(keys, pass, keys[m]);
    }
  }

  /** A window that shows nothing is a gap exactly when something passes further down. */
  lemma StopIsGap(keys: seq<Text>, pass: Text -> bool, c: nat)
    requires LastPass(Take(keys, c), pass) < 0
    ensures Filter(keys, pass) == [] ==> !Gap(keys, pass, c)
    ensures Filter(keys, pass) != [] ==> Gap(keys, pass, c)
  {
    FilterEmpty(keys, pass);
    if Filter(keys, pass) != [] {
      var j :| 0 <= j < |keys| && pass(keys[j]);
      var window := Take(keys, c);
      assert forall m | 0 <= m < |window| :: window[m] == keys[m] && !pass(window[m]);
      GapExists(keys, pass, c, 0, j);
    }
  }

  /** Behind an element shown from the first window, gaps are the same. */
  lemma GapBehind(keys: seq<Text>, pass: Text -> bool, c: nat, i: nat)
    requires i < c && i < |keys| && pass(keys[i])
    ensures Gap(keys, pass, c) <==> Gap(keys[i + 1..], pass, c)
  {
    hide Gap;
    var rest := keys[i + 1..];
    if Gap(keys, pass, c) {
      var a, b := GapFound(keys, pass, c);
      assert a > i;
      GapExists(rest, pass, c, a - i - 1, b - i - 1);
    }
    if Gap(rest, pass, c) {
      var a, b := GapFound(rest, pass, c);
      assert forall m | a <= m < a + c :: rest[m] == keys[m + i + 1];
      assert NonePass(keys, pass, a + i + 1, a + i + 1 + c);
      GapExists(keys, pass, c, a + i + 1, b + i + 1);
    }
  }

  /** Following the windows shows everything that passes if and only if there is no gap. */
  lemma {:induction false} FollowIff(keys: seq<Text>, pass: Text -> bool, c: nat)
    requires c > 0
    ensures Follow(keys, pass, c) == Filter(keys, pass) <==> !Gap(keys, pass, c)
    decreases |keys|
  {
    hide Gap, LastPass, Filter;
    var i := LastPass(Take(keys, c), pass);
    if i < 0 {
      StopIsGap(keys, pass, c);
    } else {
      var rest := keys[i + 1..];
      assert Take(keys, c)[i] == keys[i];
      WindowShown(keys, pass, c);
      assert keys == keys[..i + 1] + rest;
      FilterConcat(keys[..i + 1], rest, pass);
      FollowIff(rest, pass, c);
      GapBehind(keys, pass, c, i);
      if Follow(keys, pass, c) == Filter(keys, pass) {
        var shown := Filter(keys[..i + 1], pass);
        assert Follow(rest, pass, c) == (shown + Follow(rest, pass, c))[|shown|..];
        assert Filter(rest, pass) == (shown + Filter(rest, pass))[|shown|..];
      }
    }
  }

  /** Stopping at an empty window of at least `c` elements without a gap: nothing is left. */
  lemma StopsAtEnd(keys: seq<Text>, pass: Text -> bool, i: nat, n: nat, c: nat)
    requires i <= |keys| && c <= n && LastPass(Take(keys[i..], n), pass) < 0 && !Gap(keys, pass, c)
    ensures Filter(keys[i..], pass) == []
  {
    hide Gap;
    var rest := keys[i..];
    FilterEmpty(rest, pass);
    if Filter(rest, pass) != [] {
      var j :| 0 <= j < |rest| && pass(rest[j]);
      WindowFails(keys, pass, i, n);
      assert rest[j] == keys[i + j];
      GapExists(keys, pass, c, i, i + j);
    }
  }

  lemma WindowFails(keys: seq<Text>, pass: Text -> bool, i: nat, n: nat)
    requires i <= |keys| && LastPass(Take(keys[i..], n), pass) < 0
    ensures forall m | i <= m < i + n && m < |keys| :: !pass(keys[m])
  {
    hide LastPass;
    var window := Take(keys[i..], n);
    forall m | i <= m < i + n && m < |keys| ensures !pass(keys[m]) { assert window[m - i] == keys[m]; }
  }

  lemma GapFound(keys: seq<Text>, pass: Text -> bool, c: nat) returns (i: nat, j: nat)
    requires Gap(keys, pass, c)
    ensures GapAt(keys, pass, c, i, j)
  {
    i, j :| GapAt(keys, pass, c, i, j);
  }

  lemma GapExists(keys: seq<Text>, pass: Text -> bool, c: nat, i: nat, j: nat)
    requires GapAt(keys, pass, c, i, j)
    ensures Gap(keys, pass, c)
  {
  }

  // ----- Pages -----

  /** The second filter accepts the document under this key. */
  function Passes(h: Host, col: Collection, base: Value): Text -> bool {
    k => k in col && Decode(col[k]).Some? && DocWhere(h, Expand(Decode(col[k]).value), base) == Ok(true)
  }

  /** No selected document makes the second filter fail with an error. */
  ghost predicate NoErrors(h: Host, col: Collection, base: Value) {
    forall k | k in col && Decode(col[k]).Some? && RawWhere(h, col[k], base) == Some(true) ::
      DocWhere(h, Expand(Decode(col[k]).value), base) != Err
  }

  /** For a document in front of the cursor the page clause says what the base clause says. */
  lemma PageClauseIs(h: Host, b: Bytes, base: Value, last: Option<u64>)
    requires Exact(h) && Sound(b) && SeqOf(b) < TWO_53 && (last.Some? ==> last.value < TWO_53) && InPage(b, last)
    ensures Decode(b).Some?
    ensures DocWhere(h, Expand(Decode(b).value), PageClause(base, last)) == DocWhere(h, Expand(Decode(b).value), base)
  {
    hide Sound, SeqOf, DocFields, Older, Decode, Expand;
    SoundSeq(b);
    var d := Expand(Decode(b).value);
    if last.Some? {
      DecodedCursor(h, b, last.value);
      var items := [base, Older(last.value)];
      assert items[1..] == [Older(last.value)] && items[1..][1..] == [];
      assert DocAll(h, d, items[1..][1..]) == Ok(true);
      assert DocAll(h, d, items[1..]) == Ok(true);
    }
  }

  /** The second filter on shown documents is the filter on their keys. */
  lemma {:induction false} KeptShown(h: Host, col: Collection, keys: seq<Text>, clause: Value, pass: Text -> bool)
    requires AllDecode(col) && forall i | 0 <= i < |keys| :: keys[i] in col
    requires forall i | 0 <= i < |keys| :: DocWhere(h, Expand(Decode(col[keys[i]]).value), clause) == Ok(pass(keys[i]))
    ensures Kept(h, Shown(col, keys), clause) == Some(Shown(col, Filter(keys, pass)))
  {
    hide DocWhere, Expand, Decode, Shown, Filter;
    if keys == [] {
      NothingKept(h, clause);
      ShownNothing(col);
      NoFilter(pass);
    } else {
      var n := |keys| - 1;
      var init, k := keys[..n], keys[n];
      KeptShown(h, col, init, clause, pass);
      assert keys == init + [k];
      ShownConcat(col, init, [k]);
      ShownOne(col, k);
      FilterConcat(init, [k], pass);
      FilterOne(k, pass);
      var docs := Shown(col, keys);
      assert docs[..|docs| - 1] == Shown(col, init) && docs[|docs| - 1] == (k, Expand(Decode(col[k]).value));
      if pass(k) {
        FilterIn(init, pass, col);
        ShownConcat(col, Filter(init, pass), [k]);
      } else {
        assert Filter(init, pass) + [] == Filter(init, pass);
      }
    }
  }

  lemma NoFilter(pass: Text -> bool)
    ensures Filter([], pass) == []
  {
  }

  lemma FilterOne(k: Text, pass: Text -> bool)
    ensures Filter([k], pass) == if pass(k) then [k] else []
  {
    var one: seq<Text> := [k];
    assert one[1..] == [];
  }

  lemma FilterIn(keys: seq<Text>, pass: Text -> bool, col: Collection)
    requires forall i | 0 <= i < |keys| :: keys[i] in col
    ensures forall i | 0 <= i < |Filter(keys, pass)| :: Filter(keys, pass)[i] in col
  {
    hide Filter;
    forall i | 0 <= i < |Filter(keys, pass)| ensures Filter(keys, pass)[i] in col {
      FilterMember(keys, pass, Filter(keys, pass)[i]);
    }
  }

  lemma ShownOne(col: Collection, k: Text)
    requires k in col && Decode(col[k]).Some?
    ensures Shown(col, [k]) == [(k, Expand(Decode(col[k]).value))]
  {
    hide Decode, Expand;
    var one: seq<Text> := [k];
    assert one[1..] == [];
    assert DocsOf(col, one[1..]) == [];
  }

  /** The page after the first `i` documents of the listing: the next window, filtered. */
  lemma PageIs(h: Host, col: Collection, base: Value, i: nat, last: Option<u64>, count: nat)
    requires Exact(h) && Injective(RankOf(col)) && Exactly(col) && NoErrors(h, col, base) && i <= |Newest(h, col, base)|
    requires if i == 0 then last == None
             else Newest(h, col, base)[i - 1] in col && last == Some(SeqOf(col[Newest(h, col, base)[i - 1]])) && last.value < TWO_53
    ensures Kept(h, Shown(col, Take(Selected(h, col, base, last), count)), PageClause(base, last))
         == Some(Shown(col, Filter(Take(Newest(h, col, base)[i..], count), Passes(h, col, base))))
  {
    hide Exact, Injective, RankOf, Newest, SeqOf, Selected, InPage, Shown, Filter, PageClause, DocWhere, RawWhere, Expand, Decode, Sound, Kept;
    CursorSelectsRest(h, col, base, i, last);
    ExactlyDecodes(col);
    var keys := Take(Selected(h, col, base, last), count);
    forall j | 0 <= j < |keys|
      ensures keys[j] in col && DocWhere(h, Expand(Decode(col[keys[j]]).value), PageClause(base, last)) == Ok(Passes(h, col, base)(keys[j]))
    {
      SelectedPass(h, col, base, last, keys[j]);
      PageClauseIs(h, col[keys[j]], base, last);
    }
    KeptShown(h, col, keys, PageClause(base, last), Passes(h, col, base));
  }

  /** The last document of a page is the last one that passes in its window. */
  lemma CursorMoves(col: Collection, rest: seq<Text>, pass: Text -> bool, count: nat)
    requires Exactly(col) && forall j | 0 <= j < |rest| :: rest[j] in col
    ensures var window := Take(rest, count); var w := LastPass(window, pass); var page := Shown(col, Filter(window, pass));
            && (w < 0 <==> page == [])
            && (w >= 0 ==> CursorOf(page[|page| - 1].1) == SeqOf(col[rest[w]]) < TWO_53)
  {
    hide Exactly, Filter, LastPass, Shown, CursorOf, SeqOf;
    var w := LastPass(Take(rest, count), pass);
    WindowShown(rest, pass, count);
    if w < 0 {
      NoFilter(pass);
      ShownNothing(col);
    } else {
      LastShown(rest, pass, w);
      FilterIn(rest[..w + 1], pass, col);
      ShownLast(col, Filter(rest[..w + 1], pass));
    }
  }

  lemma LastShown(rest: seq<Text>, pass: Text -> bool, w: nat)
    requires w < |rest| && pass(rest[w])
    ensures var f := Filter(rest[..w + 1], pass); f != [] && f[|f| - 1] == rest[w]
  {
    hide Filter;
    assert rest[..w + 1] == rest[..w] + [rest[w]];
    FilterConcat(rest[..w], [rest[w]], pass);
    FilterOne(rest[w], pass);
  }

  /** What has been shown up to the window, and the window, is what has been shown behind it. */
  lemma ShownGrows(col: Collection, keys: seq<Text>, pass: Text -> bool, i: nat, count: nat)
    requires AllDecode(col) && i <= |keys| && forall j | 0 <= j < |keys| :: keys[j] in col
    ensures var window := Take(keys[i..], count); var w := LastPass(window, pass);
            Shown(col, Filter(keys[..i], pass)) + Shown(col, Filter(window, pass)) == Shown(col, Filter(keys[..i + w + 1], pass))
  {
    hide Filter, LastPass, Shown;
    var rest := keys[i..];
    var n := LastPass(Take(rest, count), pass) + 1;
    WindowShown(rest, pass, count);
    Pieces(keys, i, n);
    FilterIn(rest[..n], pass, col);
    FilterIn(keys[..i], pass, col);
    FilterConcat(keys[..i], rest[..n], pass);
    ShownConcat(col, Filter(keys[..i], pass), Filter(rest[..n], pass));
  }

  // ----- The client -----

  /** A client that follows the cursor with page sizes from `least` to `most` until a page comes back
      empty, for any clause: it ends, and has seen only documents that pass both filters, newest first
      and each once; all of them if no `least` selected documents in a row that fail decoded stand in
      front of one that passes. With one fixed page size that condition is exact. */
  method Enumerate(h: Host, ram: Ram, c: Text, base: Value, least: nat, most: nat) returns (all: seq<(Text, Value)>)
    requires Exact(h) && Inv(ram) && c in ram.docs && Exactly(ram.docs[c]) && 1 <= least <= most <= MAX_COUNT
    ensures NoErrors(h, ram.docs[c], base) ==>
              var col := ram.docs[c]; var keys, pass := Newest(h, col, base), Passes(h, col, base);
              && all <= Shown(col, Filter(keys, pass))
              && (!Gap(keys, pass, least) ==> all == Shown(col, Filter(keys, pass)))
              && (least == most ==> all == Shown(col, Follow(keys, pass, least)))
              && (least == most ==> (all == Shown(col, Filter(keys, pass)) <==> !Gap(keys, pass, least)))
  {
    hide Exact, Inv, Newest, Selected, Shown, Exactly, NoErrors, RankOf, Injective, SeqOf, CursorOf, InPage, PageClause, Kept,
         Filter, Follow, Gap, LastPass, Passes, AllSurvive, Along;
    ghost var col := ram.docs[c];
    ghost var keys, pass := Newest(h, col, base), Passes(h, col, base);
    ghost var fine := NoErrors(h, col, base);
    LiveInjective(ram, c);
    NewestIn(h, col, base);
    all := [];
    var last: Option<u64> := None;
    ghost var i := 0;
    AlongStart(col, keys, pass, least, most);
    while true
      invariant last.Some? ==> last.value < TWO_53
      invariant fine ==> Along(col, keys, pass, i, last, all, least, most)
      decreases Bound(last)
    {
      var count: nat :| least <= count <= most;
      var reply := FetchPage(h, ram, c, base, last, count);
      if reply.None? || reply.value == [] {
        if fine { AlongStop(h, col, base, i, last, all, count, least, most); }
        break;
      }
      var page := reply.value;
      PageBelow(h, col, base, last, count, page);
      if fine { i := AlongStep(h, col, base, i, last, all, count, least, most, page); }
      all := all + page;
      last := Some(CursorOf(page[|page| - 1].1));
    }
  }

  /** The client has shown what passes among the first `i` documents, and its cursor stands there. */
  ghost predicate Along(col: Collection, keys: seq<Text>, pass: Text -> bool, i: int, last: Option<u64>, all: seq<(Text, Value)>, least: nat, most: nat)
    requires least > 0
  {
    && 0 <= i <= |keys| && all == Shown(col, Filter(keys[..i], pass))
    && (if i == 0 then last == None else keys[i - 1] in col && last == Some(SeqOf(col[keys[i - 1]])) && last.value < TWO_53)
    && (least == most ==> Follow(keys, pass, least) == Filter(keys[..i], pass) + Follow(keys[i..], pass, least))
  }

  lemma AlongStart(col: Collection, keys: seq<Text>, pass: Text -> bool, least: nat, most: nat)
    requires least > 0
    ensures Along(col, keys, pass, 0, None, [], least, most)
  {
    hide Filter, Follow, Shown;
    NoFilter(pass);
    ShownNothing(col);
    assert keys[..0] == [] && keys[0..] == keys;
    assert [] + Follow(keys, pass, least) == Follow(keys, pass, least);
  }

  /** A page that shows something: the client goes on behind the last document shown. */
  lemma AlongStep(h: Host, col: Collection, base: Value, i: int, last: Option<u64>, all: seq<(Text, Value)>, count: nat, least: nat, most: nat,
                  page: seq<(Text, Value)>)
    returns (next: int)
    requires Exact(h) && Injective(RankOf(col)) && Exactly(col) && NoErrors(h, col, base) && 1 <= least <= count <= most
    requires Along(col, Newest(h, col, base), Passes(h, col, base), i, last, all, least, most) && page != []
    requires Kept(h, Shown(col, Take(Selected(h, col, base, last), count)), PageClause(base, last)) == Some(page)
    ensures Along(col, Newest(h, col, base), Passes(h, col, base), next, Some(CursorOf(page[|page| - 1].1)), all + page, least, most)
  {
    hide Exact, Injective, RankOf, Exactly, NoErrors, Newest, Selected, Shown, Kept, Filter, Follow, LastPass, CursorOf, SeqOf, PageClause, Passes;
    NewestIn(h, col, base);
    PageIs(h, col, base, i, last, count);
    next := AlongMove(col, Newest(h, col, base), Passes(h, col, base), i, last, all, count, least, most);
  }

  lemma AlongMove(col: Collection, keys: seq<Text>, pass: Text -> bool, i: int, last: Option<u64>, all: seq<(Text, Value)>,
                  count: nat, least: nat, most: nat)
    returns (next: int)
    requires Exactly(col) && (forall j | 0 <= j < |keys| :: keys[j] in col) && 1 <= least <= count <= most
    requires Along(col, keys, pass, i, last, all, least, most) && Shown(col, Filter(Take(keys[i..], count), pass)) != []
    ensures var page := Shown(col, Filter(Take(keys[i..], count), pass));
            Along(col, keys, pass, next, Some(CursorOf(page[|page| - 1].1)), all + page, least, most)
  {
    hide Exactly, Shown, Filter, Follow, LastPass, CursorOf, SeqOf, Take, Along;
    AlongBounds(col, keys, pass, i, last, all, least, most);
    SuffixIn(col, keys, i);
    CursorMoves(col, keys[i..], pass, count);
    var w := LastPass(Take(keys[i..], count), pass);
    next := i + w + 1;
    AlongShown(col, keys, pass, i, last, all, count, least, most);
    AlongFollows(col, keys, pass, i, last, all, count, least, most);
    var page := Shown(col, Filter(Take(keys[i..], count), pass));
    AlongAt(col, keys, pass, next, Some(CursorOf(page[|page| - 1].1)), all + page, least, most);
  }

  lemma AlongBounds(col: Collection, keys: seq<Text>, pass: Text -> bool, i: int, last: Option<u64>, all: seq<(Text, Value)>, least: nat, most: nat)
    requires least > 0 && Along(col, keys, pass, i, last, all, least, most)
    ensures 0 <= i <= |keys|
  {
    hide Shown, Filter, Follow, SeqOf;
  }

  lemma AlongAt(col: Collection, keys: seq<Text>, pass: Text -> bool, i: int, last: Option<u64>, all: seq<(Text, Value)>, least: nat, most: nat)
    requires least > 0 && 0 < i <= |keys| && keys[i - 1] in col && last == Some(SeqOf(col[keys[i - 1]])) && last.value < TWO_53
    requires all == Shown(col, Filter(keys[..i], pass))
    requires least == most ==> Follow(keys, pass, least) == Filter(keys[..i], pass) + Follow(keys[i..], pass, least)
    ensures Along(col, keys, pass, i, last, all, least, most)
  {
    hide Shown, Filter, Follow, SeqOf;
  }

  lemma AlongShown(col: Collection, keys: seq<Text>, pass: Text -> bool, i: int, last: Option<u64>, all: seq<(Text, Value)>,
                   count: nat, least: nat, most: nat)
    requires Exactly(col) && (forall j | 0 <= j < |keys| :: keys[j] in col) && least > 0 && Along(col, keys, pass, i, last, all, least, most)
    ensures 0 <= i <= |keys|
    ensures var window := Take(keys[i..], count);
            all + Shown(col, Filter(window, pass)) == Shown(col, Filter(keys[..i + LastPass(window, pass) + 1], pass))
  {
    hide Exactly, Shown, Filter, Follow, LastPass, SeqOf, Take;
    ExactlyDecodes(col);
    ShownGrows(col, keys, pass, i, count);
  }

  lemma AlongFollows(col: Collection, keys: seq<Text>, pass: Text -> bool, i: int, last: Option<u64>, all: seq<(Text, Value)>,
                     count: nat, least: nat, most: nat)
    requires 1 <= least <= count <= most && Along(col, keys, pass, i, last, all, least, most)
    ensures 0 <= i <= |keys|
    ensures var w := LastPass(Take(keys[i..], count), pass);
            least == most && w >= 0 ==>
              Follow(keys, pass, least) == Filter(keys[..i + w + 1], pass) + Follow(keys[i + w + 1..], pass, least)
  {
    hide Shown, Filter, Follow, LastPass, SeqOf, Take;
    FollowStep(keys, pass, i, count);
  }

  lemma SuffixIn(col: Collection, keys: seq<Text>, i: nat)
    requires i <= |keys| && forall j | 0 <= j < |keys| :: keys[j] in col
    ensures forall j | 0 <= j < |keys[i..]| :: keys[i..][j] in col
  {
  }

  /** An empty page: what has been shown so far is all there will be. */
  lemma AlongStop(h: Host, col: Collection, base: Value, i: int, last: Option<u64>, all: seq<(Text, Value)>, count: nat, least: nat, most: nat)
    requires Exact(h) && Injective(RankOf(col)) && Exactly(col) && NoErrors(h, col, base) && 1 <= least <= count <= most
    requires Along(col, Newest(h, col, base), Passes(h, col, base), i, last, all, least, most)
    requires var reply := Kept(h, Shown(col, Take(Selected(h, col, base, last), count)), PageClause(base, last)); reply.None? || reply.value == []
    ensures var keys, pass := Newest(h, col, base), Passes(h, col, base);
            && all <= Shown(col, Filter(keys, pass))
            && (!Gap(keys, pass, least) ==> all == Shown(col, Filter(keys, pass)))
            && (least == most ==> all == Shown(col, Follow(keys, pass, least)))
            && (least == most ==> (all == Shown(col, Filter(keys, pass)) <==> !Gap(keys, pass, least)))
  {
    hide Exact, Injective, RankOf, Exactly, NoErrors, Newest, Selected, Shown, Kept, Filter, Follow, LastPass, CursorOf, SeqOf, PageClause, Passes, Gap;
    var keys, pass := Newest(h, col, base), Passes(h, col, base);
    NewestIn(h, col, base);
    PageIs(h, col, base, i, last, count);
    var rest := keys[i..];
    assert forall j | 0 <= j < |rest| :: rest[j] == keys[i + j];
    CursorMoves(col, rest, pass, count);
    Stopped(col, keys, pass, i, count, least, most);
  }

  /** What bounds the `_seq` values still to come. */
  function Bound(last: Option<u64>): nat {
    if last.None? then TWO_53 else last.value
  }

  /** Whatever the clause, the cursor moves down. */
  lemma PageBelow(h: Host, col: Collection, base: Value, last: Option<u64>, count: nat, page: seq<(Text, Value)>)
    requires Injective(RankOf(col)) && Exactly(col) && page != []
    requires Kept(h, Shown(col, Take(Selected(h, col, base, last), count)), PageClause(base, last)) == Some(page)
    ensures CursorOf(page[|page| - 1].1) < TWO_53 && CursorOf(page[|page| - 1].1) < Bound(last)
  {
    hide Injective, RankOf, Selected, Shown, PageClause, Kept, Sound, SeqOf, CursorOf, Decode, Expand, DocWhere, RawWhere;
    var keys := Take(Selected(h, col, base, last), count);
    var docs := Shown(col, keys);
    KeptMeaning(h, docs, PageClause(base, last));
    var d := page[|page| - 1];
    assert d in page && d in docs;
    ShownAt(h, col, base, last, keys);
    var j :| 0 <= j < |docs| && docs[j] == d;
    SelectedPass(h, col, base, last, keys[j]);
    CursorRead(col[keys[j]]);
  }

  lemma FollowStep(keys: seq<Text>, pass: Text -> bool, i: nat, c: nat)
    requires i <= |keys| && c > 0
    ensures var w := LastPass(Take(keys[i..], c), pass);
            w >= 0 ==> Filter(keys[..i], pass) + Follow(keys[i..], pass, c)
                       == Filter(keys[..i + w + 1], pass) + Follow(keys[i + w + 1..], pass, c)
    ensures LastPass(Take(keys[i..], c), pass) < 0 ==> Follow(keys[i..], pass, c) == []
  {
    hide Filter, LastPass, Follow;
    var rest := keys[i..];
    var w := LastPass(Take(rest, c), pass);
    WindowShown(rest, pass, c);
    FollowUnfold(rest, pass, c);
    if w >= 0 {
      Pieces(keys, i, w + 1);
      FilterConcat(keys[..i], rest[..w + 1], pass);
      Regroup(Filter(keys[..i], pass), Filter(rest[..w + 1], pass), Follow(keys[i + w + 1..], pass, c));
    }
  }

  lemma FollowUnfold(keys: seq<Text>, pass: Text -> bool, c: nat)
    requires c > 0
    ensures var i := LastPass(Take(keys, c), pass);
            Follow(keys, pass, c) == if i < 0 then [] else Filter(Take(keys, c), pass) + Follow(keys[i + 1..], pass, c)
  {
    hide Filter, LastPass;
  }

  lemma Pieces(keys: seq<Text>, i: nat, n: nat)
    requires i + n <= |keys|
    ensures keys[..i + n] == keys[..i] + keys[i..][..n] && keys[i..][n..] == keys[i + n..]
  {
  }

  lemma Regroup(a: seq<Text>, b: seq<Text>, d: seq<Text>)
    ensures a + (b + d) == a + b + d
  {
  }

  /** What an empty page means. */
  lemma Stopped(col: Collection, keys: seq<Text>, pass: Text -> bool, i: nat, count: nat, least: nat, most: nat)
    requires Exactly(col) && (forall j | 0 <= j < |keys| :: keys[j] in col) && i <= |keys| && 1 <= least <= count <= most
    requires LastPass(Take(keys[i..], count), pass) < 0
    requires least == most ==> Follow(keys, pass, least) == Filter(keys[..i], pass) + Follow(keys[i..], pass, least)
    ensures var all := Shown(col, Filter(keys[..i], pass));
            && all <= Shown(col, Filter(keys, pass))
            && (!Gap(keys, pass, least) ==> all == Shown(col, Filter(keys, pass)))
            && (least == most ==> all == Shown(col, Follow(keys, pass, least)))
            && (least == most ==> (all == Shown(col, Filter(keys, pass)) <==> !Gap(keys, pass, least)))
  {
    hide Exactly, Filter, LastPass, Shown, Gap, Follow;
    var done, rest := keys[..i], keys[i..];
    ExactlyDecodes(col);
    assert keys == done + rest;
    FilterConcat(done, rest, pass);
    FilterIn(done, pass, col);
    FilterIn(rest, pass, col);
    ShownConcat(col, Filter(done, pass), Filter(rest, pass));
    if !Gap(keys, pass, least) {
      StopsAtEnd(keys, pass, i, count, least);
      assert Filter(done, pass) + [] == Filter(done, pass);
    }
    if least == most {
      FollowStep(keys, pass, i, count);
      assert Filter(done, pass) + [] == Filter(done, pass);
      FollowIff(keys, pass, least);
      ShownSize(col, Filter(done, pass));
      ShownSize(col, Filter(keys, pass));
      FilterIn(keys, pass, col);
    }
  }

  lemma ShownSize(col: Collection, keys: seq<Text>)
    requires AllDecode(col) && forall i | 0 <= i < |keys| :: keys[i] in col
    ensures |Shown(col, keys)| == |keys|
  {
    hide Decode, DocsOf, Expand;
    DocsAt(col, keys);
  }

  // ----- In every reachable state -----

  /** A clause that is safe at every document has no gap: what the scan selects, the second filter keeps. */
  lemma SurvivorsPass(h: Host, col: Collection, base: Value)
    requires Injective(RankOf(col)) && AllDecode(col) && AllSurvive(h, col, base)
    ensures NoErrors(h, col, base) && Filter(Newest(h, col, base), Passes(h, col, base)) == Newest(h, col, base)
    ensures !Gap(Newest(h, col, base), Passes(h, col, base), 1)
  {
    hide Injective, RankOf, Newest, Filter, Decode, DocWhere, RawWhere, Expand, Gap, InPage;
    var keys, pass := Newest(h, col, base), Passes(h, col, base);
    forall i | 0 <= i < |keys| ensures pass(keys[i]) { NewestAccepted(h, col, base, i); }
    FilterKeepsAll(keys, pass);
    NoGap(keys, pass);
  }

  lemma NoGap(keys: seq<Text>, pass: Text -> bool)
    requires forall i | 0 <= i < |keys| :: pass(keys[i])
    ensures !Gap(keys, pass, 1)
  {
    forall i: nat, j: nat ensures !GapAt(keys, pass, 1, i, j) {
      if i < |keys| { assert pass(keys[i]); }
    }
  }

  lemma NewestAccepted(h: Host, col: Collection, base: Value, i: nat)
    requires Injective(RankOf(col)) && i < |Newest(h, col, base)|
    ensures Newest(h, col, base)[i] in col && RawWhere(h, col[Newest(h, col, base)[i]], base) == Some(true)
  {
    hide Injective, RankOf, Newest, RawWhere, InPage, Selected;
    CursorSelectsRest(h, col, base, 0, None);
    assert Newest(h, col, base)[0..] == Newest(h, col, base);
    SelectedPass(h, col, base, None, Newest(h, col, base)[i]);
  }

  /** In every reachable state the only conditions left are on the clause and on the size of `_seq`:
      then the client sees everything the scan selects, whatever page sizes it asks for. */
  method EnumerateAfter(h: Host, ram: Ram, c: Text, base: Value, ghost ops: seq<Op>, ghost accepts: Schema)
    returns (all: seq<(Text, Value)>)
    requires RunOk(ops, accepts) && ram == After(ops, accepts).ram && c in ram.docs
    requires Sane(h) && Exact(h) && forall k | k in ram.docs[c] :: SeqOf(ram.docs[c][k]) < TWO_53
    requires forall k | k in ram.docs[c] && Decode(ram.docs[c][k]).Some? :: SafeWhere(h, Decode(ram.docs[c][k]).value, base)
    ensures all == Shown(ram.docs[c], Newest(h, ram.docs[c], base))
  {
    hide Exact, Sane, Inv, After, RunOk, Newest, Shown, SeqOf, Decode, Sound, SafeWhere, Survives, Encoded, Lag, OnDisk,
         Passes, Filter, Gap, NoErrors, RankOf, Injective, Follow;
    RunInvariant(ops, accepts);
    RunEncoded(ops, accepts);
    InvSound(ram);
    LiveDecodes(ram, c);
    LiveInjective(ram, c);
    forall k | k in ram.docs[c] ensures Survives(h, ram.docs[c][k], base) {
      SafeSurvives(h, ram.docs[c][k], base);
    }
    SurvivorsPass(h, ram.docs[c], base);
    all := Enumerate(h, ram, c, base, 1, MAX_COUNT);
  }

  // ----- A client that stops early -----

  const COLLECTION: Text := [0x63]
  const OLD: Text := [0x6f]
  const NEW: Text := [0x6e]

  /** `{a: 1.0}`. */
  const IS_ONE: Value := Obj([Field(FIELD_A, Num(Double(ONE)))])

  /** A stored document `{_seq: s, a: n}`. */
  function Pair(s: u64, n: Number): Value {
    Obj([Field(IKEY_SEQ, Int(s)), Field(FIELD_A, Num(n))])
  }

  lemma PairStored(s: u64, n: Number)
    ensures var v := Pair(s, n);
            && Storable(v) && WellOrdered(v) && PlainPath(Split(FIELD_A)) && Nested(v, Split(FIELD_A)) == Some(Num(n))
            && Sound(Encode(v)) && SeqOf(Encode(v)) == s && Decode(Encode(v)) == Some(Canon(v))
  {
    hide Encode, Decode, SeqOf, Sound, Canon;
    var fs := Pair(s, n).fields;
    PairFields(s, n);
    StoredIsSound(fs, s);
    SplitPlain(FIELD_A);
    assert Split(FIELD_A)[1..] == [];
  }

  lemma PairFields(s: u64, n: Number)
    ensures var v := Pair(s, n);
            && Storable(v) && WellOrdered(v) && Ordered(v.fields) && SEQ !in Keys(v.fields)
            && Lookup(v.fields, IKEY_SEQ) == Some(Int(s)) && Lookup(v.fields, FIELD_A) == Some(Num(n))
  {
    var fs := Pair(s, n).fields;
    AsciiIsUtf8(FIELD_A);
    AsciiIsUtf8(IKEY_SEQ);
    assert IKEY_SEQ[0] < FIELD_A[0] && Less(IKEY_SEQ, FIELD_A);
    assert fs[1..] == [Field(FIELD_A, Num(n))] && fs[1..][1..] == [];
    assert StorableFields(fs[1..][1..]) && FieldsWellOrdered(fs[1..][1..]);
    assert StorableFields(fs[1..]) && FieldsWellOrdered(fs[1..]);
    assert Lookup(fs[1..], FIELD_A) == Some(Num(n));
  }

  /** The two filters on such a document. */
  lemma PairVerdicts(h: Host, s: u64, n: Number)
    ensures var v := Pair(s, n);
            && RawWhere(h, Encode(v), IS_ONE) == Some(h.near(AsFloat(h, n), ONE))
            && DocWhere(h, Expand(Canon(v)), IS_ONE) == Ok(JsonEq(h, Num(n), Num(Double(ONE))))
  {
    hide Encode, Decode, SeqOf, Sound, Canon, Expand, RawCondition, DocCondition, Storable, WellOrdered, PlainPath, Split, Nested, JsonEq;
    PairStored(s, n);
    NumericEquality(h, Pair(s, n), FIELD_A, n, Double(ONE), Num(Double(ONE)));
    var fs := IS_ONE.fields;
    assert fs[1..] == [];
    assert FIELD_A != OR && FIELD_A != AND;
    assert RawFields(h, Encode(Pair(s, n)), fs[1..]) == Some(true);
    assert DocFields(h, Expand(Canon(Pair(s, n))), fs[1..]) == Ok(true);
  }

  /** The older document holds 1.0, the newer one 1. */
  function TwoDocs(): Collection {
    map[OLD := Encode(Pair(0, Double(ONE)))][NEW := Encode(Pair(1, PosInt(1)))]
  }

  function TwoDocsRam(): Ram {
    Ram(map[COLLECTION := TwoDocs()], map[COLLECTION := 2], map[COLLECTION := map[0 := OLD][1 := NEW]])
  }

  lemma TwoDocsInv()
    ensures Inv(TwoDocsRam()) && Exactly(TwoDocs())
  {
    hide Encode, SeqOf, Sound, CollectionInv, Pair, Storable, WellOrdered, PlainPath, Split, Nested;
    PairStored(0, Double(ONE));
    PairStored(1, PosInt(1));
    var old_, new_ := Encode(Pair(0, Double(ONE))), Encode(Pair(1, PosInt(1)));
    assert NEW[0] != OLD[0];
    EmptyCollectionInv();
    PutInv(map[], map[], 0, 1, OLD, old_);
    PutInv(map[OLD := old_], map[0 := OLD], 1, 2, NEW, new_);
    assert (map[])[OLD := old_] == map[OLD := old_] && (map[])[0 := OLD] == map[0 := OLD];
  }

  /** Both are selected, newest first. */
  lemma TwoDocsNewest(h: Host)
    requires h.near(h.float(1), ONE) && h.near(ONE, ONE)
    ensures Newest(h, TwoDocs(), IS_ONE) == [NEW, OLD]
  {
    hide Encode, Decode, SeqOf, RawWhere, DocWhere, Pair, Sound, Listing, Storable, WellOrdered, PlainPath, Split, Nested, Canon, Expand, JsonEq;
    PairVerdicts(h, 0, Double(ONE));
    PairVerdicts(h, 1, PosInt(1));
    PairStored(0, Double(ONE));
    PairStored(1, PosInt(1));
    assert NEW[0] != OLD[0];
    assert Passing(TwoDocs(), Accepts(h, IS_ONE)) == map[OLD := 0, NEW := 1];
    TwoListed();
  }

  lemma TwoListed()
    ensures Listing(map[OLD := 0, NEW := 1], false) == [NEW, OLD]
  {
    var rank: Rank := map[OLD := 0, NEW := 1];
    var up: seq<Text> := [OLD, NEW];
    assert NEW[0] != OLD[0];
    assert up[0] == OLD && up[1] == NEW;
    RankingUnique(up, Ranking(rank), rank);
    assert Reverse(up) == [NEW, OLD];
  }

  lemma TwoDocsPass(h: Host)
    requires Sane(h)
    ensures var pass := Passes(h, TwoDocs(), IS_ONE); !pass(NEW) && pass(OLD)
    ensures NoErrors(h, TwoDocs(), IS_ONE)
  {
    hide Encode, Decode, SeqOf, Sound, Pair, RawWhere, DocWhere, Expand, Canon, Storable, WellOrdered, PlainPath, Split, Nested;
    PairVerdicts(h, 0, Double(ONE));
    PairVerdicts(h, 1, PosInt(1));
    PairStored(0, Double(ONE));
    PairStored(1, PosInt(1));
    assert NEW[0] != OLD[0];
    FiniteSame(ONE);
  }

  /** The second filter throws out the newer document, whose page of one is then empty: the client
      stops and never sees the older one, which passes both filters. */
  method StopsEarly(h: Host) returns (all: seq<(Text, Value)>)
    requires Exact(h) && Sane(h) && h.near(h.float(1), ONE)
    ensures all == [] && Inv(TwoDocsRam()) && NoErrors(h, TwoDocs(), IS_ONE)
    ensures RawWhere(h, TwoDocs()[OLD], IS_ONE) == Some(true) && Passes(h, TwoDocs(), IS_ONE)(OLD)
  {
    hide Exact, Sane, Inv, Exactly, Newest, Shown, Passes, Filter, Gap, NoErrors, Follow, RawWhere, Encode, Pair, Expand, Canon, DocWhere, JsonEq, LastPass;
    assert h.near(ONE, ONE) by { NearItself(h); }
    TwoDocsInv();
    TwoDocsNewest(h);
    TwoDocsPass(h);
    PairVerdicts(h, 0, Double(ONE));
    all := Enumerate(h, TwoDocsRam(), COLLECTION, IS_ONE, 1, 1);
    StopsAtOnce(Passes(h, TwoDocs(), IS_ONE));
    ShownNothing(TwoDocs());
  }

  lemma NearItself(h: Host)
    requires Sane(h)
    ensures h.near(ONE, ONE)
  {
  }

  lemma StopsAtOnce(pass: Text -> bool)
    requires !pass(NEW)
    ensures Follow([NEW, OLD], pass, 1) == []
  {
    var window: seq<Text> := Take([NEW, OLD], 1);
    assert window == [NEW];
  }
}
