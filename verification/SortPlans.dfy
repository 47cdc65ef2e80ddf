/** One sort field, two plans: the raw plan extracts a number from the bytes of each match, the
    general plan decodes the matches and compares them with the comparator. */
module SortPlans {
  import opened Bytes
  import opened Json
  import opened Codec
  import opened Canonical
  import opened Replay
  import opened Order
  import opened Limits
  import opened Encodings
  import opened Walker
  import opened Where
  import Agreement
  import opened Floats
  import opened TopN
  import opened Comparator
  import opened Coalesce

  // ----- What the raw plan sees -----

  /** The raw plan offers exactly the number that the decoded document has at a plain path. */
  lemma RawSortValue(h: Host, b: Bytes, path: Path, desc: bool)
    requires Encoded(b) && PlainPath(path) && path != []
    ensures Decode(b).Some?
    ensures SortValue(h, b, path, desc)
         == match Nested(Decode(b).value, path)
            case Some(Num(n)) => Some(if desc then Negate(AsFloat(h, n)) else AsFloat(h, n))
            case _ => None
  {
    hide Encode, Decode, Find, Nested, NumberAt, Storable, WellOrdered, PlainPath, Canon, Negate;
    var v :| b == Encode(v) && Storable(v) && WellOrdered(v);
    DecodeEncode(v);
    var tail := WalkerAgrees(v, path);
    NestedCanon(v, path);
    if Nested(v, path).Some? {
      var x := Nested(v, path).value;
      Agreement.NestedStorable(v, path);
      NumberAtEncoded(h, x, tail);
      CanonNumber(x);
    }
  }

  lemma CanonNumber(x: Value)
    ensures Canon(x).Num? <==> x.Num?
    ensures x.Num? ==> Canon(x) == x
  {
  }

  // ----- The two orders on numbers -----

  const PLUS_ZERO: FiniteDouble := 0
  const MINUS_ZERO: FiniteDouble := TWO_63

  /** Two zeros of different sign. */
  predicate ZeroPair(x: FiniteDouble, y: FiniteDouble) {
    (x == MINUS_ZERO && y == PLUS_ZERO) || (x == PLUS_ZERO && y == MINUS_ZERO)
  }

  /** The total order of bit patterns is the order of values, except that it tells the zeros apart. */
  lemma OrdersAgree(x: FiniteDouble, y: FiniteDouble)
    ensures if ZeroPair(x, y) then PartialCompare(x, y) == Equal && (TotalCompare(x, y) == Lesser <==> x == MINUS_ZERO)
            else TotalCompare(x, y) == PartialCompare(x, y)
    ensures TotalCompare(Negate(x), Negate(y)) == Flip(TotalCompare(x, y))
  {
    NegateReverses(x, y);
  }

  lemma SameOrder(h: Host, desc: bool, m: Number, n: Number)
    ensures var x, y := AsFloat(h, m), AsFloat(h, n);
            var raw := TotalCompare(if desc then Negate(x) else x, if desc then Negate(y) else y);
            var general := Directed(h, desc, Some(Num(m)), Some(Num(n)));
            if ZeroPair(x, y) then general == Equal && raw != Equal && (raw == Lesser <==> (x == MINUS_ZERO <==> !desc))
            else raw == general
  {
    hide PartialCompare, Negate;
    var x, y := AsFloat(h, m), AsFloat(h, n);
    OrdersAgree(x, y);
  }

  // ----- The two lists -----

  /** An entry of a `sort` array that names no field: the comparator passes over it. */
  predicate Ignored(spec: Value) {
    ReadSpec(spec).None? || ReadSpec(spec).value.0 == []
  }

  /** A `sort` array whose first entry names a plain path and whose other entries, if any, name
      nothing. With no other entry the raw plan answers, with others the general one. */
  predicate OneField(specs: seq<Value>, field: Text, desc: bool) {
    && specs != [] && ReadSpec(specs[0]) == Some((field, desc)) && field != [] && PlainPath(Split(field))
    && forall i | 1 <= i < |specs| :: Ignored(specs[i])
  }

  lemma {:induction false} IgnoredCompare(h: Host, specs: seq<Value>, a: Value, b: Value)
    requires forall i | 0 <= i < |specs| :: Ignored(specs[i])
    ensures CompareDocs(h, specs, a, b) == Equal
  {
    hide ReadSpec, Directed, Nested, Split;
    if specs != [] {
      assert Ignored(specs[0]);
      IgnoredCompare(h, specs[1..], a, b);
    }
  }

  lemma OneFieldCompares(h: Host, specs: seq<Value>, field: Text, desc: bool, a: Value, b: Value)
    requires OneField(specs, field, desc)
    ensures CompareDocs(h, specs, a, b) == Directed(h, desc, Nested(a, Split(field)), Nested(b, Split(field)))
  {
    hide ReadSpec, Directed, Nested, Split, PlainPath, Ignored;
    IgnoredCompare(h, specs[1..], a, b);
  }

  /** The number a stored document has at the field. */
  function NumberOf(col: Collection, field: Text, k: Text): Option<Number> {
    if k in col && Decode(col[k]).Some? then
      match Nested(Decode(col[k]).value, Split(field)) case Some(Num(n)) => Some(n) case _ => None
    else None
  }

  /** Every match has a number at the field. */
  ghost predicate AllNumbers(col: Collection, keep: Keep, field: Text) {
    forall k | k in col && keep(k, col[k]) :: NumberOf(col, field, k).Some?
  }

  /** A match at -0.0 and one at +0 whose keys stand the other way round than their signs. */
  predicate Crosses(h: Host, col: Collection, field: Text, desc: bool, a: Text, b: Text) {
    && NumberOf(col, field, a).Some? && AsFloat(h, NumberOf(col, field, a).value) == MINUS_ZERO
    && NumberOf(col, field, b).Some? && AsFloat(h, NumberOf(col, field, b).value) == PLUS_ZERO
    && if desc then Less(a, b) else Less(b, a)
  }

  ghost predicate Crossed(h: Host, col: Collection, keep: Keep, field: Text, desc: bool) {
    exists a, b :: a in col && keep(a, col[a]) && b in col && keep(b, col[b]) && Crosses(h, col, field, desc, a, b)
  }

  ghost predicate EncodedCollection(col: Collection) {
    forall k | k in col :: Encoded(col[k])
  }

  ghost function Raw(h: Host, col: Collection, r: Request): (s: set<Scored<u64>>)
    requires r.kind.SortedTopN?
    ensures DistinctKeys(s)
  {
    Candidates(h, col, r, col.Keys)
  }

  ghost function General(col: Collection, keep: Keep): (s: set<Scored<Value>>)
    ensures DistinctKeys(s)
  {
    OfferedDistinct(col.Keys, k => Offer(col, keep, k));
    Offered(col.Keys, k => Offer(col, keep, k))
  }

  /** An item of the raw plan, and that the match it stands for is offered to the general plan. */
  lemma RawItem(h: Host, col: Collection, r: Request, x: Scored<u64>)
    requires r.kind.SortedTopN? && EncodedCollection(col) && PlainPath(Split(r.kind.field))
    ensures x in Raw(h, col, r) <==>
              && x.key in col && r.keep(x.key, col[x.key]) && NumberOf(col, r.kind.field, x.key).Some?
              && var f := AsFloat(h, NumberOf(col, r.kind.field, x.key).value); x.value == if r.kind.desc then Negate(f) else f
  {
    hide Decode, Nested, Split, SortValue, PlainPath, Negate, Encoded;
    if x.key in col { RawSortValue(h, col[x.key], Split(r.kind.field), r.kind.desc); }
    assert x == Scored(x.key, x.value);
  }

  lemma GeneralItem(col: Collection, keep: Keep, x: Scored<Value>)
    ensures x in General(col, keep) <==>
              x.key in col && keep(x.key, col[x.key]) && Decode(col[x.key]) == Some(x.value)
  {
    hide Decode;
    assert x == Scored(x.key, x.value);
  }

  /** A raw item as the general plan holds it. */
  function Decoded(col: Collection, k: Text): Scored<Value>
    requires k in col && Decode(col[k]).Some?
  {
    Scored(k, Decode(col[k]).value)
  }

  lemma NumberDecodes(col: Collection, field: Text, k: Text)
    requires NumberOf(col, field, k).Some?
    ensures k in col && Decode(col[k]).Some?
    ensures Nested(Decode(col[k]).value, Split(field)) == Some(Num(NumberOf(col, field, k).value))
  {
  }

  /** Both plans order two matches alike unless they are crossed zeros; then they order them in
      opposite ways. */
  lemma BeforeBoth(h: Host, col: Collection, r: Request, specs: seq<Value>, x: Scored<u64>, y: Scored<u64>)
    requires r.kind.SortedTopN? && OneField(specs, r.kind.field, r.kind.desc) && EncodedCollection(col)
    requires x in Raw(h, col, r) && y in Raw(h, col, r)
    ensures x.key in col && y.key in col && Decode(col[x.key]).Some? && Decode(col[y.key]).Some?
    ensures var raw := Before(TotalCompare, x, y);
            var general := Before((a, b) => CompareDocs(h, specs, a, b), Decoded(col, x.key), Decoded(col, y.key));
            && (Crosses(h, col, r.kind.field, r.kind.desc, x.key, y.key) ==> raw == !r.kind.desc && general == r.kind.desc)
            && (Crosses(h, col, r.kind.field, r.kind.desc, y.key, x.key) ==> raw == r.kind.desc && general == !r.kind.desc)
            && (x.key == y.key || raw == general
                || Crosses(h, col, r.kind.field, r.kind.desc, x.key, y.key) || Crosses(h, col, r.kind.field, r.kind.desc, y.key, x.key))
  {
    hide Raw, Decode, Nested, Split, NumberOf, PlainPath, TotalCompare, Negate, ReadSpec, CompareDocs, Directed, Less, Encoded, Ignored;
    RawItem(h, col, r, x);
    RawItem(h, col, r, y);
    var field := r.kind.field;
    NumberDecodes(col, field, x.key);
    NumberDecodes(col, field, y.key);
    SameOrder(h, r.kind.desc, NumberOf(col, field, x.key).value, NumberOf(col, field, y.key).value);
    OneFieldCompares(h, specs, field, r.kind.desc, Decode(col[x.key]).value, Decode(col[y.key]).value);
    LessTrichotomy(x.key, y.key);
  }

  ghost function Converted(col: Collection, s: seq<Scored<u64>>): (t: seq<Scored<Value>>)
    requires forall i | 0 <= i < |s| :: s[i].key in col && Decode(col[s[i].key]).Some?
    ensures |t| == |s| && forall i | 0 <= i < |s| :: t[i] == Decoded(col, s[i].key)
  {
    seq(|s|, i requires 0 <= i < |s| => Decoded(col, s[i].key))
  }

  /** The raw full sort, with documents in place of numbers, is the general full sort. */
  lemma ConvertedSorts(h: Host, col: Collection, r: Request, specs: seq<Value>, s: seq<Scored<u64>>)
    requires r.kind.SortedTopN? && OneField(specs, r.kind.field, r.kind.desc) && EncodedCollection(col)
    requires AllNumbers(col, r.keep, r.kind.field) && !Crossed(h, col, r.keep, r.kind.field, r.kind.desc)
    requires Preorder(TotalCompare) && IsSorting(TotalCompare, s, Raw(h, col, r))
    ensures forall i | 0 <= i < |s| :: s[i].key in col && Decode(col[s[i].key]).Some?
    ensures IsSorting((a, b) => CompareDocs(h, specs, a, b), Converted(col, s), General(col, r.keep))
  {
    hide Raw, General, Decode, NumberOf, PlainPath, TotalCompare, Negate, ReadSpec, CompareDocs, Before, Split, EncodedCollection, OneField, Crosses, Preorder;
    var cmp := (a, b) => CompareDocs(h, specs, a, b);
    OneFieldPlain(specs, r.kind.field, r.kind.desc);
    forall i | 0 <= i < |s| ensures s[i].key in col && Decode(col[s[i].key]).Some? && r.keep(s[i].key, col[s[i].key]) {
      RawItem(h, col, r, s[i]);
      NumberDecodes(col, r.kind.field, s[i].key);
    }
    var t := Converted(col, s);
    forall i | 0 <= i < |t| ensures t[i] in General(col, r.keep) { GeneralItem(col, r.keep, t[i]); }
    forall x | x in General(col, r.keep) ensures x in t {
      GeneralItem(col, r.keep, x);
      var f: u64 := AsFloat(h, NumberOf(col, r.kind.field, x.key).value);
      var y: Scored<u64> := Scored(x.key, if r.kind.desc then Negate(f) else f);
      RawItem(h, col, r, y);
      var i :| 0 <= i < |s| && s[i] == y;
      assert t[i] == x;
    }
    forall i, j | 0 <= i < j < |t| ensures Before(cmp, t[i], t[j]) {
      BeforeBoth(h, col, r, specs, s[i], s[j]);
      KeysApart(TotalCompare, s, Raw(h, col, r), i, j);
    }
  }

  lemma OneFieldPlain(specs: seq<Value>, field: Text, desc: bool)
    requires OneField(specs, field, desc)
    ensures PlainPath(Split(field))
  {
  }

  function KeysIn(items: seq<Scored<Value>>): (ks: seq<Text>)
    ensures |ks| == |items| && forall i | 0 <= i < |ks| :: ks[i] == items[i].key
  {
    seq(|items|, i requires 0 <= i < |items| => items[i].key)
  }

  /** No key is listed twice. */
  lemma KeysApart<V(!new)>(cmp: (V, V) -> Ordering, s: seq<Scored<V>>, all: set<Scored<V>>, i: nat, j: nat)
    requires Preorder(cmp) && DistinctKeys(all) && IsSorting(cmp, s, all) && i < |s| && j < |s| && i != j
    ensures s[i].key != s[j].key
  {
    hide Before, Preorder;
    assert s[i] in all && s[j] in all;
    BeforeTotal(cmp, s[i], s[j]);
  }

  /** What goes before stands before. */
  lemma Position<V(!new)>(cmp: (V, V) -> Ordering, s: seq<Scored<V>>, all: set<Scored<V>>, i: nat, j: nat)
    requires Preorder(cmp) && IsSorting(cmp, s, all) && i < |s| && j < |s| && Before(cmp, s[i], s[j])
    ensures i < j
  {
    hide Before, Preorder;
    BeforeTotal(cmp, s[i], s[j]);
  }

  /** The same keys in the same order, for every cap. */
  ghost predicate SameTops(s: seq<Scored<u64>>, t: seq<Scored<Value>>) {
    forall cap: nat :: ItemKeys(Take(s, cap)) == KeysIn(Take(t, cap))
  }

  lemma SameTopsKeys(s: seq<Scored<u64>>, t: seq<Scored<Value>>)
    ensures SameTops(s, t) <==> ItemKeys(s) == KeysIn(t)
  {
    if SameTops(s, t) {
      var cap := |s| + |t|;
      assert ItemKeys(Take(s, cap)) == KeysIn(Take(t, cap));
    }
    if ItemKeys(s) == KeysIn(t) {
      forall i | 0 <= i < |s| ensures s[i].key == t[i].key { assert ItemKeys(s)[i] == KeysIn(t)[i]; }
    }
  }

  /** If every match has a number and no zeros are crossed, the plans agree. */
  lemma PlansSame(h: Host, col: Collection, r: Request, specs: seq<Value>, s: seq<Scored<u64>>, t: seq<Scored<Value>>)
    requires Decimal(h) && r.kind.SortedTopN? && OneField(specs, r.kind.field, r.kind.desc) && EncodedCollection(col)
    requires IsSorting(TotalCompare, s, Raw(h, col, r)) && IsSorting((a, b) => CompareDocs(h, specs, a, b), t, General(col, r.keep))
    requires AllNumbers(col, r.keep, r.kind.field) && !Crossed(h, col, r.keep, r.kind.field, r.kind.desc)
    ensures ItemKeys(s) == KeysIn(t)
  {
    hide Raw, General, Decimal, OneField, EncodedCollection, AllNumbers, Crossed, TotalCompare, CompareDocs, IsSorting, Preorder, Decode;
    TotalComparePreorder();
    ComparatorPreorder(h, specs);
    ConvertedSorts(h, col, r, specs, s);
    SortingUnique((a, b) => CompareDocs(h, specs, a, b), Converted(col, s), t, General(col, r.keep));
  }

  /** Crossed zeros stand in different orders in the two lists. */
  lemma ZerosDiffer(h: Host, col: Collection, r: Request, specs: seq<Value>, s: seq<Scored<u64>>, t: seq<Scored<Value>>,
                    i: nat, j: nat, i': nat, j': nat)
    requires Decimal(h) && r.kind.SortedTopN? && OneField(specs, r.kind.field, r.kind.desc) && EncodedCollection(col)
    requires IsSorting(TotalCompare, s, Raw(h, col, r)) && IsSorting((a, b) => CompareDocs(h, specs, a, b), t, General(col, r.keep))
    requires i < |s| && j < |s| && i' < |t| && j' < |t| && s[i].key == t[i'].key && s[j].key == t[j'].key
    requires Crosses(h, col, r.kind.field, r.kind.desc, s[i].key, s[j].key)
    ensures if r.kind.desc then j < i && i' < j' else i < j && j' < i'
  {
    hide Raw, General, Decimal, OneField, EncodedCollection, TotalCompare, CompareDocs, Preorder, Decode, Before, Crosses;
    TotalComparePreorder();
    ComparatorPreorder(h, specs);
    var cmp := (a, b) => CompareDocs(h, specs, a, b);
    BeforeBoth(h, col, r, specs, s[i], s[j]);
    BeforeBoth(h, col, r, specs, s[j], s[i]);
    GeneralItem(col, r.keep, t[i']);
    GeneralItem(col, r.keep, t[j']);
    assert t[i'] == Decoded(col, s[i].key) && t[j'] == Decoded(col, s[j].key);
    if r.kind.desc {
      Position(TotalCompare, s, Raw(h, col, r), j, i);
      Position(cmp, t, General(col, r.keep), i', j');
    } else {
      Position(TotalCompare, s, Raw(h, col, r), i, j);
      Position(cmp, t, General(col, r.keep), j', i');
    }
  }

  /** Two keys that change places make two lists different. */
  lemma Swapped(s: seq<Scored<u64>>, all: set<Scored<u64>>, t: seq<Scored<Value>>, i: nat, j: nat, i': nat, j': nat)
    requires Preorder(TotalCompare) && DistinctKeys(all) && IsSorting(TotalCompare, s, all)
    requires i < |s| && j < |s| && i' < |t| && j' < |t| && s[i].key == t[i'].key && s[j].key == t[j'].key
    requires i < j <==> j' < i'
    requires i != j
    ensures ItemKeys(s) != KeysIn(t)
  {
    hide Preorder, IsSorting;
    assert KeysIn(t)[i'] == s[i].key && KeysIn(t)[j'] == s[j].key;
    if i' < |s| && i' != i { KeysApart(TotalCompare, s, all, i, i'); }
    if j' < |s| && j' != j { KeysApart(TotalCompare, s, all, j, j'); }
  }

  /** Where a match with a number stands in the raw list. */
  lemma RawPosition(h: Host, col: Collection, r: Request, s: seq<Scored<u64>>, k: Text) returns (i: nat)
    requires r.kind.SortedTopN? && EncodedCollection(col) && PlainPath(Split(r.kind.field)) && IsSorting(TotalCompare, s, Raw(h, col, r))
    requires k in col && r.keep(k, col[k]) && NumberOf(col, r.kind.field, k).Some?
    ensures i < |s| && s[i].key == k
  {
    hide Raw, EncodedCollection, NumberOf, PlainPath, Split, Before, Negate;
    var f: u64 := AsFloat(h, NumberOf(col, r.kind.field, k).value);
    var x: Scored<u64> := Scored(k, if r.kind.desc then Negate(f) else f);
    RawItem(h, col, r, x);
    i :| 0 <= i < |s| && s[i] == x;
  }

  lemma NumbersDecode(h: Host, col: Collection, field: Text, desc: bool, a: Text, b: Text)
    requires Crosses(h, col, field, desc, a, b)
    ensures a in col && Decode(col[a]).Some? && b in col && Decode(col[b]).Some?
    ensures NumberOf(col, field, a).Some? && NumberOf(col, field, b).Some?
  {
    hide NumberOf, Decode;
    NumberDecodes(col, field, a);
    NumberDecodes(col, field, b);
  }

  lemma GeneralPosition(col: Collection, keep: Keep, t: seq<Scored<Value>>, k: Text, cmp: (Value, Value) -> Ordering) returns (i: nat)
    requires IsSorting(cmp, t, General(col, keep)) && k in col && keep(k, col[k]) && Decode(col[k]).Some?
    ensures i < |t| && t[i].key == k
  {
    hide General, Decode, Before;
    GeneralItem(col, keep, Decoded(col, k));
    i :| 0 <= i < |t| && t[i] == Decoded(col, k);
  }

  /** Both plans return the same keys in the same order for every cap if and only if every match has
      a number at the field and no match at -0.0 is crossed with one at +0. */
  lemma PlansAgreeIff(h: Host, col: Collection, r: Request, specs: seq<Value>)
    requires Decimal(h) && r.kind.SortedTopN? && OneField(specs, r.kind.field, r.kind.desc) && EncodedCollection(col)
    ensures Preorder(TotalCompare) && Preorder((a, b) => CompareDocs(h, specs, a, b))
    ensures SameTops(FullSort(TotalCompare, Raw(h, col, r)), FullSort((a, b) => CompareDocs(h, specs, a, b), General(col, r.keep)))
            <==> AllNumbers(col, r.keep, r.kind.field) && !Crossed(h, col, r.keep, r.kind.field, r.kind.desc)
  {
    hide Raw, General, Decimal, OneField, EncodedCollection, TotalCompare, CompareDocs, IsSorting, Preorder, Decode, Crosses, SameTops, NumberOf;
    TotalComparePreorder();
    ComparatorPreorder(h, specs);
    OneFieldPlain(specs, r.kind.field, r.kind.desc);
    var s, t := FullSort(TotalCompare, Raw(h, col, r)), FullSort((a, b) => CompareDocs(h, specs, a, b), General(col, r.keep));
    SameTopsKeys(s, t);
    if !AllNumbers(col, r.keep, r.kind.field) {
      var k :| k in col && r.keep(k, col[k]) && NumberOf(col, r.kind.field, k).None?;
      PlansDiffer(h, col, r, specs, s, t, |t| + |s|, k);
    } else if Crossed(h, col, r.keep, r.kind.field, r.kind.desc) {
      var a, b :| a in col && r.keep(a, col[a]) && b in col && r.keep(b, col[b]) && Crosses(h, col, r.kind.field, r.kind.desc, a, b);
      NumbersDecode(h, col, r.kind.field, r.kind.desc, a, b);
      var i := RawPosition(h, col, r, s, a);
      var j := RawPosition(h, col, r, s, b);
      var i' := GeneralPosition(col, r.keep, t, a, (x, y) => CompareDocs(h, specs, x, y));
      var j' := GeneralPosition(col, r.keep, t, b, (x, y) => CompareDocs(h, specs, x, y));
      ZerosDiffer(h, col, r, specs, s, t, i, j, i', j');
      Swapped(s, Raw(h, col, r), t, i, j, i', j');
    } else {
      PlansSame(h, col, r, specs, s, t);
    }
  }

  /** A match without a number at the field is missing from the raw list, and is in the general list
      as soon as the cap leaves room for every match. */
  lemma PlansDiffer(h: Host, col: Collection, r: Request, specs: seq<Value>, s: seq<Scored<u64>>, t: seq<Scored<Value>>, cap: nat, k: Text)
    requires r.kind.SortedTopN? && OneField(specs, r.kind.field, r.kind.desc) && EncodedCollection(col)
    requires IsSorting(TotalCompare, s, Raw(h, col, r)) && IsSorting((a, b) => CompareDocs(h, specs, a, b), t, General(col, r.keep))
    requires k in col && r.keep(k, col[k]) && NumberOf(col, r.kind.field, k).None? && |t| <= cap
    ensures k !in ItemKeys(Take(s, cap)) && k in KeysIn(Take(t, cap))
  {
    hide Raw, General, Decode, NumberOf, PlainPath, TotalCompare, CompareDocs, Before, Split, EncodedCollection, Negate, ReadSpec, Encoded;
    assert Encoded(col[k]) by { EncodedAt(col, k); }
    RawSortValue(h, col[k], Split(r.kind.field), r.kind.desc);
    var x := Decoded(col, k);
    GeneralItem(col, r.keep, x);
    var i :| 0 <= i < |t| && t[i] == x;
    assert Take(t, cap) == t && KeysIn(t)[i] == k;
    forall j | 0 <= j < |Take(s, cap)| ensures ItemKeys(Take(s, cap))[j] != k {
      assert Take(s, cap)[j] == s[j];
      RawItem(h, col, r, s[j]);
    }
  }

  lemma EncodedAt(col: Collection, k: Text)
    requires EncodedCollection(col) && k in col
    ensures Encoded(col[k])
  {
  }

  // ----- The raw list by value -----

  /** The exact value of the number a match has at the field. */
  function ValueOf(h: Host, col: Collection, field: Text, k: Text): int
    requires NumberOf(col, field, k).Some?
  {
    Scaled(AsFloat(h, NumberOf(col, field, k).value))
  }

  lemma TotalIsByValue(x: FiniteDouble, y: FiniteDouble)
    ensures TotalCompare(x, y) != Greater ==> Scaled(x) <= Scaled(y)
    ensures TotalCompare(Negate(x), Negate(y)) != Greater ==> Scaled(y) <= Scaled(x)
  {
    hide PartialCompare, TotalCompare, Negate, Scaled;
    OrdersAgree(x, y);
    OrderIsValueOrder(x, y);
  }

  /** The raw list: values never fall, or never rise when descending, and every match with a number
      that is left out goes behind. */
  lemma RawSorted(h: Host, col: Collection, r: Request, s: seq<Scored<u64>>, cap: nat, i: nat, x: Scored<u64>)
    requires r.kind.SortedTopN? && EncodedCollection(col) && PlainPath(Split(r.kind.field)) && IsSorting(TotalCompare, s, Raw(h, col, r))
    requires i < |Take(s, cap)| && x in Raw(h, col, r) && x !in Take(s, cap)[..i + 1]
    ensures NumberOf(col, r.kind.field, s[i].key).Some? && NumberOf(col, r.kind.field, x.key).Some?
    ensures var a, b := ValueOf(h, col, r.kind.field, s[i].key), ValueOf(h, col, r.kind.field, x.key);
            if r.kind.desc then b <= a else a <= b
  {
    hide Raw, EncodedCollection, NumberOf, PlainPath, Split, TotalCompare, Negate, Scaled;
    var j :| 0 <= j < |s| && s[j] == x;
    assert forall m | 0 <= m < i + 1 :: Take(s, cap)[..i + 1][m] == s[m] && s[m] in Take(s, cap)[..i + 1];
    assert i < j;
    RawItem(h, col, r, s[i]);
    RawItem(h, col, r, x);
    TotalIsByValue(AsFloat(h, NumberOf(col, r.kind.field, s[i].key).value), AsFloat(h, NumberOf(col, r.kind.field, x.key).value));
  }

  // ----- Two documents on which the plans part -----

  const FIRST: Text := [0x61]
  const SECOND: Text := [0x62]
  const F: Text := [0x66]

  /** `sort: ["f", ""]`: the same order as `sort: ["f"]`, by the general plan. */
  const BY_F: seq<Value> := [Str(F), Str([])]

  const ALL_BY_F: Request := Request(0, [], (k, b) => true, SortedTopN(F, false, 2))

  function TwoDocs(x: Value, y: Value): Collection {
    map[FIRST := Encode(x), SECOND := Encode(y)]
  }

  /** `{f: n}`. */
  function OnlyF(n: Number): Value {
    Obj([Field(F, Num(n))])
  }

  lemma ByF()
    ensures OneField(BY_F, F, false)
  {
    Agreement.SplitPlain(F);
    assert BY_F[1] == Str([]);
  }

  lemma OnlyFStored(n: Number)
    ensures Storable(OnlyF(n)) && WellOrdered(OnlyF(n)) && Nested(OnlyF(n), Split(F)) == Some(Num(n))
  {
    var fs := OnlyF(n).fields;
    Agreement.SplitPlain(F);
    AsciiIsUtf8(F);
    assert fs[1..] == [];
    assert StorableFields(fs[1..]) && FieldsWellOrdered(fs[1..]);
    assert Split(F)[1..] == [];
  }

  lemma NothingStored()
    ensures Storable(Obj([])) && WellOrdered(Obj([])) && Nested(Obj([]), Split(F)) == None
  {
    Agreement.SplitPlain(F);
  }

  /** The number read back from a stored document is the one stored. */
  lemma ReadsBack(col: Collection, k: Text, v: Value)
    requires k in col && col[k] == Encode(v) && Storable(v) && WellOrdered(v) && PlainPath(Split(F))
    ensures Encoded(col[k])
    ensures NumberOf(col, F, k) == match Nested(v, Split(F)) case Some(Num(n)) => Some(n) case _ => None
    ensures Decode(col[k]) == Some(Canon(v))
  {
    hide Encode, Decode, Nested, Storable, WellOrdered, PlainPath, Canon, Split;
    DecodeEncode(v);
    NestedCanon(v, Split(F));
    if Nested(v, Split(F)).Some? { CanonNumber(Nested(v, Split(F)).value); }
  }

  lemma TwoGeneral(x: Value, y: Value)
    requires Storable(x) && Storable(y) && WellOrdered(x) && WellOrdered(y)
    ensures forall e :: e in General(TwoDocs(x, y), ALL_BY_F.keep) <==> e == Scored(FIRST, Canon(x)) || e == Scored(SECOND, Canon(y))
  {
    hide Encode, Decode, General, Storable, WellOrdered, Canon;
    assert FIRST[0] != SECOND[0];
    DecodeEncode(x);
    DecodeEncode(y);
    forall e ensures e in General(TwoDocs(x, y), ALL_BY_F.keep) <==> e == Scored(FIRST, Canon(x)) || e == Scored(SECOND, Canon(y)) {
      GeneralItem(TwoDocs(x, y), ALL_BY_F.keep, e);
    }
  }

  lemma ByFCompares(h: Host, x: Value, y: Value)
    requires WellOrdered(x) && WellOrdered(y)
    ensures CompareDocs(h, BY_F, Canon(x), Canon(y)) == Directed(h, false, CanonAt(x), CanonAt(y))
  {
    hide CompareDocs, Directed, Nested, Split, Canon, WellOrdered, PlainPath;
    ByF();
    OneFieldPlain(BY_F, F, false);
    OneFieldCompares(h, BY_F, F, false, Canon(x), Canon(y));
    NestedCanon(x, Split(F));
    NestedCanon(y, Split(F));
  }

  /** The value at the field, decoded. */
  function CanonAt(x: Value): Option<Value> {
    match Nested(x, Split(F)) case None => None case Some(v) => Some(Canon(v))
  }

  /** `{f: 0}` under the first key, `{f: -0.0}` under the second: the raw plan puts -0.0 first, the
      comparator calls the two equal and goes by key. */
  lemma SignedZeros(h: Host)
    requires Decimal(h) && h.float(0) == PLUS_ZERO
    ensures var col := TwoDocs(OnlyF(PosInt(0)), OnlyF(Double(MINUS_ZERO)));
            && EncodedCollection(col) && OneField(BY_F, F, false)
            && Preorder(TotalCompare) && Preorder((a, b) => CompareDocs(h, BY_F, a, b))
            && ItemKeys(FullSort(TotalCompare, Raw(h, col, ALL_BY_F))) == [SECOND, FIRST]
            && KeysIn(FullSort((a, b) => CompareDocs(h, BY_F, a, b), General(col, ALL_BY_F.keep))) == [FIRST, SECOND]
  {
    hide Raw, General, Decimal, TotalCompare, CompareDocs, Preorder, Encode, Decode, OneField, OnlyF, IsSorting, TwoDocs, EncodedCollection;
    var x, y := OnlyF(PosInt(0)), OnlyF(Double(MINUS_ZERO));
    var col := TwoDocs(x, y);
    TotalComparePreorder();
    ComparatorPreorder(h, BY_F);
    ByF();
    ZerosRaw(h);
    ZerosGeneral(h);
    var s: seq<Scored<u64>> := [Scored(SECOND, MINUS_ZERO), Scored(FIRST, PLUS_ZERO)];
    SortingUnique(TotalCompare, FullSort(TotalCompare, Raw(h, col, ALL_BY_F)), s, Raw(h, col, ALL_BY_F));
    var cmp := (a, b) => CompareDocs(h, BY_F, a, b);
    var t := [Scored(FIRST, Canon(x)), Scored(SECOND, Canon(y))];
    SortingUnique(cmp, FullSort(cmp, General(col, ALL_BY_F.keep)), t, General(col, ALL_BY_F.keep));
    assert ItemKeys(s) == [SECOND, FIRST] && KeysIn(t) == [FIRST, SECOND];
  }

  lemma ZerosRaw(h: Host)
    requires h.float(0) == PLUS_ZERO
    ensures var col := TwoDocs(OnlyF(PosInt(0)), OnlyF(Double(MINUS_ZERO)));
            && EncodedCollection(col)
            && IsSorting(TotalCompare, [Scored(SECOND, MINUS_ZERO), Scored(FIRST, PLUS_ZERO)], Raw(h, col, ALL_BY_F))
  {
    hide Raw, Encode, Decode, OnlyF, OneField, NumberOf, Storable, WellOrdered, Nested, Split, PlainPath, Encoded, Canon;
    var col := TwoDocs(OnlyF(PosInt(0)), OnlyF(Double(MINUS_ZERO)));
    assert FIRST[0] != SECOND[0];
    OnlyFStored(PosInt(0));
    OnlyFStored(Double(MINUS_ZERO));
    ByF();
    OneFieldPlain(BY_F, F, false);
    ReadsBack(col, FIRST, OnlyF(PosInt(0)));
    ReadsBack(col, SECOND, OnlyF(Double(MINUS_ZERO)));
    forall e: Scored<u64> ensures e in Raw(h, col, ALL_BY_F) <==> e == Scored(FIRST, PLUS_ZERO) || e == Scored(SECOND, MINUS_ZERO) {
      RawItem(h, col, ALL_BY_F, e);
      assert e == Scored(e.key, e.value);
    }
    InOrder(TotalCompare, Scored(SECOND, MINUS_ZERO), Scored(FIRST, PLUS_ZERO), Raw(h, col, ALL_BY_F));
  }

  lemma InOrder<V(!new)>(cmp: (V, V) -> Ordering, x: Scored<V>, y: Scored<V>, all: set<Scored<V>>)
    requires Before(cmp, x, y) && forall e :: e in all <==> e == x || e == y
    ensures IsSorting(cmp, [x, y], all)
  {
    hide Before;
    var s := [x, y];
    assert s[0] == x && s[1] == y;
  }

  lemma ZerosGeneral(h: Host)
    requires h.float(0) == PLUS_ZERO
    ensures var x, y := OnlyF(PosInt(0)), OnlyF(Double(MINUS_ZERO));
            IsSorting((a, b) => CompareDocs(h, BY_F, a, b), [Scored(FIRST, Canon(x)), Scored(SECOND, Canon(y))], General(TwoDocs(x, y), ALL_BY_F.keep))
  {
    hide General, CompareDocs, Encode, OnlyF, Storable, WellOrdered, Nested, Split;
    var x, y := OnlyF(PosInt(0)), OnlyF(Double(MINUS_ZERO));
    OnlyFStored(PosInt(0));
    OnlyFStored(Double(MINUS_ZERO));
    TwoGeneral(x, y);
    ByFCompares(h, x, y);
    assert Less(FIRST, SECOND);
    InOrder((a, b) => CompareDocs(h, BY_F, a, b), Scored(FIRST, Canon(x)), Scored(SECOND, Canon(y)), General(TwoDocs(x, y), ALL_BY_F.keep));
  }

  /** `{}` under the first key, `{f: 1}` under the second: the raw plan leaves the first out, the
      comparator puts it last. */
  lemma NumberMissing(h: Host)
    requires Decimal(h)
    ensures var col := TwoDocs(Obj([]), OnlyF(PosInt(1)));
            && EncodedCollection(col) && OneField(BY_F, F, false)
            && Preorder(TotalCompare) && Preorder((a, b) => CompareDocs(h, BY_F, a, b))
            && ItemKeys(FullSort(TotalCompare, Raw(h, col, ALL_BY_F))) == [SECOND]
            && KeysIn(FullSort((a, b) => CompareDocs(h, BY_F, a, b), General(col, ALL_BY_F.keep))) == [SECOND, FIRST]
  {
    hide Raw, General, Decimal, TotalCompare, CompareDocs, Preorder, Encode, Decode, OneField, OnlyF, IsSorting, TwoDocs, EncodedCollection;
    var x, y := Obj([]), OnlyF(PosInt(1));
    var col := TwoDocs(x, y);
    TotalComparePreorder();
    ComparatorPreorder(h, BY_F);
    ByF();
    MissingRaw(h);
    MissingGeneral(h);
    var s: seq<Scored<u64>> := [Scored(SECOND, h.float(1))];
    SortingUnique(TotalCompare, FullSort(TotalCompare, Raw(h, col, ALL_BY_F)), s, Raw(h, col, ALL_BY_F));
    var cmp := (a, b) => CompareDocs(h, BY_F, a, b);
    var t := [Scored(SECOND, Canon(y)), Scored(FIRST, Canon(x))];
    SortingUnique(cmp, FullSort(cmp, General(col, ALL_BY_F.keep)), t, General(col, ALL_BY_F.keep));
    assert ItemKeys(s) == [SECOND] && KeysIn(t) == [SECOND, FIRST];
  }

  lemma MissingRaw(h: Host)
    ensures var col := TwoDocs(Obj([]), OnlyF(PosInt(1)));
            && EncodedCollection(col)
            && IsSorting(TotalCompare, [Scored(SECOND, h.float(1))], Raw(h, col, ALL_BY_F))
  {
    hide Raw, Encode, Decode, OnlyF, OneField, NumberOf, Storable, WellOrdered, Nested, Split, PlainPath, Encoded, Canon, TotalCompare;
    var col := TwoDocs(Obj([]), OnlyF(PosInt(1)));
    assert FIRST[0] != SECOND[0];
    NothingStored();
    OnlyFStored(PosInt(1));
    ByF();
    OneFieldPlain(BY_F, F, false);
    ReadsBack(col, FIRST, Obj([]));
    ReadsBack(col, SECOND, OnlyF(PosInt(1)));
    forall e: Scored<u64> ensures e in Raw(h, col, ALL_BY_F) <==> e == Scored(SECOND, h.float(1)) {
      RawItem(h, col, ALL_BY_F, e);
      assert e == Scored(e.key, e.value);
    }
    var s: seq<Scored<u64>> := [Scored(SECOND, h.float(1))];
    assert s[0] in Raw(h, col, ALL_BY_F);
  }

  lemma MissingGeneral(h: Host)
    ensures var x, y := Obj([]), OnlyF(PosInt(1));
            IsSorting((a, b) => CompareDocs(h, BY_F, a, b), [Scored(SECOND, Canon(y)), Scored(FIRST, Canon(x))], General(TwoDocs(x, y), ALL_BY_F.keep))
  {
    hide General, CompareDocs, Encode, OnlyF, Storable, WellOrdered, Nested, Split;
    var x, y := Obj([]), OnlyF(PosInt(1));
    NothingStored();
    OnlyFStored(PosInt(1));
    TwoGeneral(x, y);
    ByFCompares(h, y, x);
    InOrder((a, b) => CompareDocs(h, BY_F, a, b), Scored(SECOND, Canon(y)), Scored(FIRST, Canon(x)), General(TwoDocs(x, y), ALL_BY_F.keep));
  }
}
