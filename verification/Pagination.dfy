/** Cursor pagination: asking again for `_seq` below the last one seen enumerates every matching
    document exactly once. */
module Pagination {
  import opened Bytes
  import opened Json
  import opened Codec
  import opened Canonical
  import opened Tokens
  import opened Replay
  import opened Documents
  import opened Order
  import opened Engine
  import opened Runs
  import opened Invariants
  import opened Encodings
  import opened SystemFields
  import opened Limits
  import opened Database
  import opened Scan
  import opened Walker
  import opened Where
  import opened Agreement
  import opened FastPredicates
  import opened Coalesce

  const MAX_COUNT: nat := 1000

  // ----- The cursor clause -----

  /** `{"_seq": {"$lt": s}}`. */
  function Older(s: u64): Value {
    FieldBelow(3, s)
  }

  /** The clause of the next page: the first page has no cursor yet. */
  function PageClause(base: Value, last: Option<u64>): Value {
    match last case None => base case Some(s) => Arr([base, Older(s)])
  }

  lemma SeqSpellings()
    ensures PublicName(3) == SEQ && TokenText(3) == IKEY_SEQ && TOK_SEQ == 253
  {
  }

  /** On bytes the cursor compares the raw `_seq`. */
  lemma RawCursor(h: Host, b: Bytes, s: u64)
    requires Exact(h) && Sound(b) && s < TWO_53
    ensures RawWhere(h, b, Older(s)) == Some(SeqOf(b) < s)
  {
    hide Decode, ReadToken, RawWhere, FieldBelow, IsCanon, Storable, U64At;
    RawBelow(h, b, 3, s, SeqOf(b));
  }

  /** A client reads `_seq` under its public name. */
  lemma PublicSeqField(b: Bytes)
    requires Sound(b)
    ensures Decode(b).Some? && Nested(Expand(Decode(b).value), [SEQ]) == Some(Num(PosInt(SeqOf(b))))
  {
    hide Decode, ReadToken, Storable, Nested, Expand, IsCanon, U64At;
    SeqSpellings();
    SoundSeq(b);
    PublicField(Decode(b).value, 3, SeqOf(b));
  }

  /** On the decoded document the cursor compares the same `_seq`. */
  lemma DecodedCursor(h: Host, b: Bytes, s: u64)
    requires Exact(h) && Sound(b) && SeqOf(b) < TWO_53 && s < TWO_53
    ensures Decode(b).Some? && DocWhere(h, Expand(Decode(b).value), Older(s)) == Ok(SeqOf(b) < s)
  {
    hide Decode, ReadToken, Storable, DocWhere, Expand, IsCanon, U64At, FieldBelow;
    SeqSpellings();
    SoundSeq(b);
    DecodedBelow(h, Decode(b).value, 3, s, SeqOf(b));
  }

  // ----- One page -----

  /** The second filter does not reject what the scan on bytes accepted. */
  ghost predicate Survives(h: Host, b: Bytes, base: Value) {
    RawWhere(h, b, base) == Some(true)
    ==> Decode(b).Some? && DocWhere(h, Expand(Decode(b).value), base) == Ok(true)
  }

  predicate InPage(b: Bytes, last: Option<u64>) {
    last.None? || SeqOf(b) < last.value
  }

  lemma RawPage(h: Host, b: Bytes, base: Value, last: Option<u64>)
    requires Exact(h) && Sound(b) && (last.Some? ==> last.value < TWO_53)
    ensures RawWhere(h, b, PageClause(base, last)) == Some(true) <==> RawWhere(h, b, base) == Some(true) && InPage(b, last)
  {
    hide Sound, SeqOf, RawFields, Older;
    if last.Some? {
      RawCursor(h, b, last.value);
      var items := [base, Older(last.value)];
      assert items[1..] == [Older(last.value)] && items[1..][1..] == [];
      assert RawAll(h, b, items[1..][1..]);
      assert RawAll(h, b, items[1..]) <==> RawWhere(h, b, Older(last.value)) == Some(true);
      assert RawWhere(h, b, Arr(items)) == Some(RawAll(h, b, items));
    }
  }

  lemma DocPage(h: Host, b: Bytes, base: Value, last: Option<u64>)
    requires Exact(h) && Sound(b) && SeqOf(b) < TWO_53 && Survives(h, b, base) && (last.Some? ==> last.value < TWO_53)
    requires RawWhere(h, b, base) == Some(true) && InPage(b, last)
    ensures Decode(b).Some? && DocWhere(h, Expand(Decode(b).value), PageClause(base, last)) == Ok(true)
  {
    hide Sound, SeqOf, DocFields, Older, Decode, Expand, RawWhere;
    var d := Expand(Decode(b).value);
    if last.Some? {
      DecodedCursor(h, b, last.value);
      var items := [base, Older(last.value)];
      assert items[1..] == [Older(last.value)] && items[1..][1..] == [];
      assert DocAll(h, d, items[1..][1..]) == Ok(true);
      assert DocAll(h, d, items[1..]) == Ok(true);
    }
  }

  // ----- Safe clauses survive -----

  /** All that the safety of a test depends on: being an array, and the number if it is one. */
  predicate SameShape(x: Value, y: Value) {
    (x.Arr? <==> y.Arr?) && (x.Num? || y.Num? ==> x == y)
  }

  lemma {:induction false} SafeOpsKind(h: Host, x: Option<Value>, y: Option<Value>, ops: seq<Field>)
    requires (x.Some? <==> y.Some?) && (x.Some? ==> SameShape(x.value, y.value))
    ensures SafeOps(h, x, ops) <==> SafeOps(h, y, ops)
  {
    hide ParseOperator;
    if ops != [] { SafeOpsKind(h, x, y, ops[1..]); }
  }

  lemma {:induction false} SafeCanon(h: Host, v: Value, q: Value)
    requires WellOrdered(v)
    ensures SafeWhere(h, v, q) <==> SafeWhere(h, Canon(v), q)
    decreases q, 1
  {
    hide WellOrdered, Canon;
    match q
    case Arr(items) => SafeCanonItems(h, v, items);
    case Obj(fs) => SafeCanonFields(h, v, fs);
    case _ =>
  }

  lemma {:induction false} SafeCanonItems(h: Host, v: Value, items: seq<Value>)
    requires WellOrdered(v)
    ensures SafeItems(h, v, items) <==> SafeItems(h, Canon(v), items)
    decreases items, 0
  {
    hide WellOrdered, Canon, SafeWhere;
    if items != [] {
      SafeCanon(h, v, items[0]);
      SafeCanonItems(h, v, items[1..]);
    }
  }

  lemma {:induction false} SafeCanonFields(h: Host, v: Value, fs: seq<Field>)
    requires WellOrdered(v)
    ensures SafeFields(h, v, fs) <==> SafeFields(h, Canon(v), fs)
    decreases fs, 0
  {
    hide WellOrdered, Canon, SafeItems, PlainPath, Split, Nested, SafeOps;
    if fs != [] {
      SafeCanonFields(h, v, fs[1..]);
      var k, cond := fs[0].key, fs[0].val;
      if k == OR || k == AND {
        if cond.Arr? { SafeCanonItems(h, v, cond.items); }
      } else if PlainPath(Split(k)) {
        NestedCanon(v, Split(k));
        var x, y := Nested(v, Split(k)), Nested(Canon(v), Split(k));
        if x.Some? { CanonKind(x.value); }
        if cond.Obj? { SafeOpsKind(h, x, y, cond.fields); }
      }
    }
  }

  lemma CanonKind(v: Value)
    ensures SameShape(v, Canon(v))
  {
  }

  /** A clause that is safe for the decoded document survives the second filter. */
  lemma SafeSurvives(h: Host, b: Bytes, base: Value)
    requires Sane(h) && Encoded(b) && Decode(b).Some? && SafeWhere(h, Decode(b).value, base)
    ensures Survives(h, b, base)
  {
    hide DocWhere, Encode, Decode, Expand, RawWhere, SafeWhere, Sane, Storable, WellOrdered, TypedWhere, Canon;
    var v :| b == Encode(v) && Storable(v) && WellOrdered(v);
    DecodeEncode(v);
    SafeCanon(h, v, base);
    WhereRefines(h, v, base);
  }

  // ----- The second filter -----

  /** What the second filter leaves; an evaluation error ends the request. */
  ghost function Kept(h: Host, docs: seq<(Text, Value)>, clause: Value): (r: Option<seq<(Text, Value)>>)
    ensures r.Some? ==> |r.value| <= |docs|
  {
    if docs == [] then Some([])
    else
      var n := |docs| - 1;
      match Kept(h, docs[..n], clause)
      case None => None
      case Some(some) =>
        match DocWhere(h, docs[n].1, clause)
        case Err => None
        case Ok(pass) => Some(if pass then some + [docs[n]] else some)
  }

  lemma NothingKept(h: Host, clause: Value)
    ensures Kept(h, [], clause) == Some([]) && Expanded([]) == []
  {
  }

  lemma KeptSize(h: Host, docs: seq<(Text, Value)>, clause: Value)
    ensures Kept(h, docs, clause).Some? ==> |Kept(h, docs, clause).value| <= |docs|
  {
  }

  lemma {:induction false} KeptAll(h: Host, docs: seq<(Text, Value)>, clause: Value)
    requires forall i | 0 <= i < |docs| :: DocWhere(h, docs[i].1, clause) == Ok(true)
    ensures Kept(h, docs, clause) == Some(docs)
  {
    hide DocWhere;
    if docs != [] {
      KeptAll(h, docs[..|docs| - 1], clause);
      assert docs == docs[..|docs| - 1] + [docs[|docs| - 1]];
    }
  }

  lemma {:induction false} KeptError(h: Host, docs: seq<(Text, Value)>, clause: Value, i: nat)
    requires i <= |docs| && Kept(h, docs[..i], clause) == None
    ensures Kept(h, docs, clause) == None
    decreases |docs|
  {
    hide DocWhere;
    if i < |docs| {
      assert docs[..|docs| - 1][..i] == docs[..i];
      KeptError(h, docs[..|docs| - 1], clause, i);
    } else {
      assert docs[..i] == docs;
    }
  }

  /** The second filter errs iff some evaluation errs, and otherwise keeps exactly the documents that
      are accepted. */
  lemma {:induction false} KeptMeaning(h: Host, docs: seq<(Text, Value)>, clause: Value)
    ensures Kept(h, docs, clause) == None <==> exists i :: 0 <= i < |docs| && DocWhere(h, docs[i].1, clause) == Err
    ensures Kept(h, docs, clause).Some? ==>
              forall d :: d in Kept(h, docs, clause).value <==> d in docs && DocWhere(h, d.1, clause) == Ok(true)
  {
    hide DocWhere;
    if docs != [] {
      var n := |docs| - 1;
      KeptMeaning(h, docs[..n], clause);
      assert docs == docs[..n] + [docs[n]];
      if Kept(h, docs[..n], clause) == None {
        var i :| 0 <= i < n && DocWhere(h, docs[..n][i].1, clause) == Err;
        assert docs[i] == docs[..n][i];
      }
    }
  }

  /** `filter_and_join_docs` without joins or prefixes: the clause is applied again, in order. */
  method Refilter(h: Host, docs: seq<(Text, Value)>, clause: Value) returns (r: Option<seq<(Text, Value)>>)
    ensures r == Kept(h, docs, clause)
  {
    hide DocWhere;
    var results := [];
    for i := 0 to |docs|
      invariant Kept(h, docs[..i], clause) == Some(results)
    {
      assert docs[..i + 1][..i] == docs[..i];
      match DocWhere(h, docs[i].1, clause)
      case Err => KeptError(h, docs, clause, i + 1); return None;
      case Ok(pass) =>
        if pass { results := results + [docs[i]]; }
    }
    assert docs[..|docs|] == docs;
    r := Some(results);
  }

  function Expanded(docs: seq<(Text, Value)>): (r: seq<(Text, Value)>)
    ensures |r| == |docs| && forall i | 0 <= i < |r| :: r[i] == (docs[i].0, Expand(docs[i].1))
  {
    seq(|docs|, i requires 0 <= i < |docs| => (docs[i].0, Expand(docs[i].1)))
  }

  function Accepts(h: Host, base: Value): Keep {
    (k: Text, b: Bytes) => RawWhere(h, b, base) == Some(true)
  }

  /** Every matching key, newest first. */
  ghost function Newest(h: Host, col: Collection, base: Value): seq<Text> {
    Listing(Passing(col, Accepts(h, base)), false)
  }

  /** Every `_seq` of the collection is exact as f64. */
  ghost predicate Exactly(col: Collection) {
    forall k | k in col :: Sound(col[k]) && SeqOf(col[k]) < TWO_53
  }

  ghost predicate AllSurvive(h: Host, col: Collection, base: Value) {
    forall k | k in col :: Survives(h, col[k], base)
  }

  lemma PassingNarrowed(col: Collection, keep: Keep, wide: Keep, kp: Text -> bool)
    requires forall k | k in col :: keep(k, col[k]) <==> wide(k, col[k]) && kp(k)
    ensures Passing(col, keep) == Restrict(Passing(col, wide), kp)
  {
    hide SeqOf;
  }

  /** The keys a cursor query selects, as a filter on the full listing. */
  lemma SelectedKeys(h: Host, col: Collection, base: Value, last: Option<u64>)
    requires Exact(h) && Injective(RankOf(col)) && Exactly(col) && (last.Some? ==> last.value < TWO_53)
    ensures Listing(Passing(col, (k, b) => ScanPredicate(h, b, PageClause(base, last))), false)
         == Filter(Newest(h, col, base), k => k in col && InPage(col[k], last))
  {
    hide Sound, SeqOf, Listing, ScanPredicate, RawWhere, Injective, PageClause, Restrict, RankOf, InPage;
    var keep := (k, b) => ScanPredicate(h, b, PageClause(base, last));
    var kp := k => k in col && InPage(col[k], last);
    var rank := Passing(col, Accepts(h, base));
    forall k | k in col ensures keep(k, col[k]) <==> RawWhere(h, col[k], base) == Some(true) && kp(k) {
      ScanPredicateMeaning(h, col[k], PageClause(base, last));
      RawPage(h, col[k], base, last);
    }
    PassingNarrowed(col, keep, Accepts(h, base), kp);
    RestrictInjective(RankOf(col), k => k in col && Accepts(h, base)(k, col[k]));
    ListingFilter(rank, kp, false);
  }

  /** What the client is sent for these keys. */
  function Shown(col: Collection, keys: seq<Text>): seq<(Text, Value)> {
    Expanded(DocsOf(col, keys))
  }

  ghost function Selected(h: Host, col: Collection, base: Value, last: Option<u64>): seq<Text> {
    Filter(Newest(h, col, base), k => k in col && InPage(col[k], last))
  }

  /** Selected keys are keys of the collection that pass on bytes. */
  lemma SelectedPass(h: Host, col: Collection, base: Value, last: Option<u64>, k: Text)
    requires Injective(RankOf(col)) && k in Selected(h, col, base, last)
    ensures k in col && RawWhere(h, col[k], base) == Some(true) && InPage(col[k], last)
  {
    hide SeqOf, RawWhere, InPage, Listing;
    var rank := Passing(col, Accepts(h, base));
    FilterMember(Newest(h, col, base), k => k in col && InPage(col[k], last), k);
    var j :| 0 <= j < |Newest(h, col, base)| && Newest(h, col, base)[j] == k;
    RestrictInjective(RankOf(col), k => k in col && Accepts(h, base)(k, col[k]));
    ListingMember(rank, false, j);
  }

  lemma ExactlyDecodes(col: Collection)
    requires Exactly(col)
    ensures AllDecode(col)
  {
    hide SeqOf, Decode, ReadToken;
  }

  /** The documents of selected keys, one by one. */
  lemma ShownAt(h: Host, col: Collection, base: Value, last: Option<u64>, keys: seq<Text>)
    requires Injective(RankOf(col)) && Exactly(col)
    requires forall i | 0 <= i < |keys| :: keys[i] in Selected(h, col, base, last)
    ensures |Shown(col, keys)| == |keys|
    ensures forall i | 0 <= i < |keys| ::
              keys[i] in col && Decode(col[keys[i]]).Some? && Shown(col, keys)[i] == (keys[i], Expand(Decode(col[keys[i]]).value))
  {
    hide Injective, Selected, Expand, Decode, DocWhere, RawWhere, InPage, PageClause, DocsOf, Exactly;
    ExactlyDecodes(col);
    forall i | 0 <= i < |keys| ensures keys[i] in col { SelectedPass(h, col, base, last, keys[i]); }
    DocsAt(col, keys);
  }

  /** What was selected on bytes survives the second filter, document by document. */
  lemma ShownPass(h: Host, col: Collection, base: Value, last: Option<u64>, keys: seq<Text>)
    requires Exact(h) && Injective(RankOf(col)) && Exactly(col) && AllSurvive(h, col, base) && (last.Some? ==> last.value < TWO_53)
    requires forall i | 0 <= i < |keys| :: keys[i] in Selected(h, col, base, last)
    ensures Kept(h, Shown(col, keys), PageClause(base, last)) == Some(Shown(col, keys))
  {
    hide Exact, Injective, Selected, Expand, Decode, DocWhere, RawWhere, InPage, PageClause, Shown, Survives, Sound, SeqOf, Kept;
    ShownAt(h, col, base, last, keys);
    var docs := Shown(col, keys);
    forall i | 0 <= i < |docs| ensures DocWhere(h, docs[i].1, PageClause(base, last)) == Ok(true) {
      SelectedPass(h, col, base, last, keys[i]);
      DocPage(h, col[keys[i]], base, last);
    }
    KeptAll(h, docs, PageClause(base, last));
  }

  /** One request, for any clause: scan on bytes, expand, filter again, cut to the page. `None` is an
      evaluation error. When the selected documents survive, the second filter removes nothing, so a
      page is short only when nothing is left. */
  method FetchPage(h: Host, ram: Ram, c: Text, base: Value, last: Option<u64>, count: nat) returns (page: Option<seq<(Text, Value)>>)
    requires Exact(h) && Inv(ram) && (c in ram.docs ==> Exactly(ram.docs[c]))
    requires last.Some? ==> last.value < TWO_53
    ensures c in ram.docs ==>
              var shown := Shown(ram.docs[c], Take(Selected(h, ram.docs[c], base, last), count));
              && page == Kept(h, shown, PageClause(base, last))
              && (AllSurvive(h, ram.docs[c], base) ==> page == Some(shown))
    ensures c !in ram.docs ==> page == Some([])
  {
    hide Exact, Inv, Selected, DocWhere, PageClause, ScanPredicate, DocsOf, Listing, Exactly, RankOf, Passing, Injective, Answer,
         AllSurvive, Kept;
    var clause := PageClause(base, last);
    var keep: Keep := (k, b) => ScanPredicate(h, b, clause);
    var request := Request(0, c, keep, Filtered(Some(count), false));
    var replies := RunBatchForCollection(h, ram, c, [request]);
    if c !in ram.docs {
      NoCollection(h, ram, request);
      NothingKept(h, clause);
      page := Refilter(h, Expanded(replies[0].docs), clause);
      return;
    }
    ghost var col := ram.docs[c];
    LiveInjective(ram, c);
    AnswerFiltered(h, ram, request);
    SelectedKeys(h, col, base, last);
    ghost var keys := Take(Selected(h, col, base, last), count);
    assert Selected(h, col, base, last) == Listing(Passing(col, keep), false) by { SelectedDef(h, col, base, last); }
    PageKept(h, col, base, last, count);
    var docs := Expanded(replies[0].docs);
    assert docs == Shown(col, keys);
    hide Shown, Expanded;
    page := Refilter(h, docs, clause);
    KeptSize(h, docs, clause);
    if page.Some? {
      assert Take(page.value, count) == page.value;
      page := Some(Take(page.value, count));
    }
  }

  lemma PageKept(h: Host, col: Collection, base: Value, last: Option<u64>, count: nat)
    requires Exact(h) && Injective(RankOf(col)) && Exactly(col) && (last.Some? ==> last.value < TWO_53)
    ensures var shown := Shown(col, Take(Selected(h, col, base, last), count));
            |shown| <= count && (AllSurvive(h, col, base) ==> Kept(h, shown, PageClause(base, last)) == Some(shown))
  {
    hide Exact, Selected, PageClause, Exactly, Injective, AllSurvive, Kept, Shown;
    var keys := Take(Selected(h, col, base, last), count);
    ShownAt(h, col, base, last, keys);
    if AllSurvive(h, col, base) { ShownPass(h, col, base, last, keys); }
  }

  lemma SelectedDef(h: Host, col: Collection, base: Value, last: Option<u64>)
    ensures Selected(h, col, base, last) == Filter(Newest(h, col, base), k => k in col && InPage(col[k], last))
  {
  }

  lemma AnswerFiltered(h: Host, ram: Ram, r: Request)
    requires r.collection in ram.docs && r.kind.Filtered? && r.kind.need.Some?
    ensures var col := ram.docs[r.collection];
            Answer(h, ram, r) == DocsOf(col, Take(Listing(Passing(col, r.keep), r.kind.asc), r.kind.need.value))
  {
  }

  // ----- Along the listing -----

  lemma {:induction false} FilterKeepsAll(s: seq<Text>, kp: Text -> bool)
    requires forall i | 0 <= i < |s| :: kp(s[i])
    ensures Filter(s, kp) == s
  {
    if s != [] { FilterKeepsAll(s[1..], kp); }
  }

  lemma {:induction false} FilterKeepsNone(s: seq<Text>, kp: Text -> bool)
    requires forall i | 0 <= i < |s| :: !kp(s[i])
    ensures Filter(s, kp) == []
  {
    if s != [] { FilterKeepsNone(s[1..], kp); }
  }

  /** Newest first: `_seq` falls along the listing. */
  lemma NewestFalls(h: Host, col: Collection, base: Value)
    requires Injective(RankOf(col))
    ensures forall i | 0 <= i < |Newest(h, col, base)| :: Newest(h, col, base)[i] in col
    ensures forall i, j | 0 <= i < j < |Newest(h, col, base)| ::
              SeqOf(col[Newest(h, col, base)[i]]) > SeqOf(col[Newest(h, col, base)[j]])
  {
    hide SeqOf, RawWhere;
    var rank := Passing(col, Accepts(h, base));
    RestrictInjective(RankOf(col), k => k in col && Accepts(h, base)(k, col[k]));
    assert IsRanking(Ranking(rank), rank);
  }

  lemma NewestIn(h: Host, col: Collection, base: Value)
    requires Injective(RankOf(col))
    ensures forall i | 0 <= i < |Newest(h, col, base)| :: Newest(h, col, base)[i] in col
  {
    hide SeqOf, RawWhere, Newest;
    NewestFalls(h, col, base);
  }

  lemma NewestFallsAt(h: Host, col: Collection, base: Value, i: nat, j: nat)
    requires Injective(RankOf(col)) && i < j < |Newest(h, col, base)|
    ensures var keys := Newest(h, col, base); keys[i] in col && keys[j] in col && SeqOf(col[keys[i]]) > SeqOf(col[keys[j]])
  {
    hide SeqOf, RawWhere, Newest;
    NewestFalls(h, col, base);
  }

  /** Behind the first `i` documents, or not: what the cursor tells of each one. */
  lemma CursorSplits(h: Host, col: Collection, base: Value, i: nat, last: Option<u64>, j: nat)
    requires Injective(RankOf(col)) && i <= |Newest(h, col, base)| && j < |Newest(h, col, base)|
    requires if i == 0 then last == None
             else Newest(h, col, base)[i - 1] in col && last == Some(SeqOf(col[Newest(h, col, base)[i - 1]]))
    ensures Newest(h, col, base)[j] in col && (InPage(col[Newest(h, col, base)[j]], last) <==> i <= j)
  {
    hide SeqOf, Newest, Injective;
    NewestIn(h, col, base);
    if j + 1 < i { NewestFallsAt(h, col, base, j, i - 1); }
    else if 0 < i <= j { NewestFallsAt(h, col, base, i - 1, j); }
  }

  /** After the first `i` documents the cursor selects exactly the rest. */
  lemma CursorSelectsRest(h: Host, col: Collection, base: Value, i: nat, last: Option<u64>)
    requires Injective(RankOf(col)) && i <= |Newest(h, col, base)|
    requires if i == 0 then last == None
             else Newest(h, col, base)[i - 1] in col && last == Some(SeqOf(col[Newest(h, col, base)[i - 1]]))
    ensures Selected(h, col, base, last) == Newest(h, col, base)[i..]
  {
    hide SeqOf, Newest, Injective, InPage, RankOf;
    var all := Newest(h, col, base);
    var kp := k => k in col && InPage(col[k], last);
    forall j | 0 <= j < |all| ensures kp(all[j]) <==> i <= j { CursorSplits(h, col, base, i, last, j); }
    assert all == all[..i] + all[i..];
    FilterConcat(all[..i], all[i..], kp);
    FilterKeepsNone(all[..i], kp);
    FilterKeepsAll(all[i..], kp);
  }

  /** `_seq` as the client reads it off the last document of a page. */
  function CursorOf(doc: Value): u64 {
    Documents.Or(U64At(doc, SEQ), 0)
  }

  lemma CursorRead(b: Bytes)
    requires Sound(b)
    ensures Decode(b).Some? && CursorOf(Expand(Decode(b).value)) == SeqOf(b)
  {
    hide Sound, Decode, SeqOf, Expand;
    PublicSeqField(b);
    assert [SEQ][1..] == [];
  }

  lemma ShownConcat(col: Collection, a: seq<Text>, b: seq<Text>)
    requires AllDecode(col) && (forall i | 0 <= i < |a| :: a[i] in col) && (forall i | 0 <= i < |b| :: b[i] in col)
    ensures Shown(col, a + b) == Shown(col, a) + Shown(col, b)
  {
    hide DocsOf, Decode, Expand;
    DocsAt(col, a);
    DocsAt(col, b);
    DocsAt(col, a + b);
  }

  lemma ShownLast(col: Collection, keys: seq<Text>)
    requires Exactly(col) && keys != [] && forall i | 0 <= i < |keys| :: keys[i] in col
    ensures |Shown(col, keys)| == |keys|
    ensures CursorOf(Shown(col, keys)[|keys| - 1].1) == SeqOf(col[keys[|keys| - 1]]) < TWO_53
  {
    hide DocsOf, Decode, Expand, Sound, SeqOf, CursorOf;
    ExactlyDecodes(col);
    DocsAt(col, keys);
    CursorRead(col[keys[|keys| - 1]]);
  }

  lemma ShownNothing(col: Collection)
    ensures Shown(col, []) == []
  {
  }
}
