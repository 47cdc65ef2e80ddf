/** Top-N by bounded heaps: whatever the partition, the visiting order and the merge tree, the
    winners are the first `cap` items of the full sort. */
module TopN {
  import opened Bytes
  import opened Order

  // ----- Comparators and items -----

  datatype Ordering = Lesser | Equal | Greater

  function Flip(o: Ordering): Ordering {
    match o case Lesser => Greater case Equal => Equal case Greater => Lesser
  }

  /** A comparator that is a total preorder. */
  ghost predicate Preorder<V(!new)>(cmp: (V, V) -> Ordering) {
    && (forall a, b :: cmp(b, a) == Flip(cmp(a, b)))
    && (forall a, b, c :: cmp(a, b) != Greater && cmp(b, c) != Greater ==> cmp(a, c) != Greater)
  }

  datatype Scored<V> = Scored(key: Text, value: V)

  /** `Ord` of a heap item: the comparator, then the key. */
  predicate Before<V>(cmp: (V, V) -> Ordering, a: Scored<V>, b: Scored<V>) {
    cmp(a.value, b.value) == Lesser || (cmp(a.value, b.value) == Equal && Less(a.key, b.key))
  }

  lemma BeforeTransitive<V(!new)>(cmp: (V, V) -> Ordering, a: Scored<V>, b: Scored<V>, c: Scored<V>)
    requires Preorder(cmp) && Before(cmp, a, b) && Before(cmp, b, c)
    ensures Before(cmp, a, c)
  {
    hide Less;
    assert cmp(a.value, c.value) != Greater;
    if cmp(a.value, c.value) == Equal {
      assert cmp(c.value, a.value) != Greater;
      assert cmp(c.value, b.value) != Greater && cmp(b.value, a.value) != Greater;
      LessTransitive(a.key, b.key, c.key);
    }
  }

  lemma BeforeTotal<V(!new)>(cmp: (V, V) -> Ordering, a: Scored<V>, b: Scored<V>)
    requires Preorder(cmp)
    ensures !(Before(cmp, a, b) && Before(cmp, b, a)) && !Before(cmp, a, a)
    ensures a.key != b.key ==> Before(cmp, a, b) || Before(cmp, b, a)
  {
    hide Less;
    assert cmp(a.value, a.value) == Flip(cmp(a.value, a.value));
    assert cmp(b.value, a.value) == Flip(cmp(a.value, b.value));
    LessTrichotomy(a.key, b.key);
    LessTrichotomy(a.key, a.key);
  }

  ghost predicate DistinctKeys<V(!new)>(s: set<Scored<V>>) {
    forall x, y | x in s && y in s && x.key == y.key :: x == y
  }

  // ----- The best `cap` of a set -----

  function Min(a: nat, b: nat): nat {
    if a <= b then a else b
  }

  ghost predicate IsBest<V(!new)>(cmp: (V, V) -> Ordering, best: set<Scored<V>>, all: set<Scored<V>>, cap: nat) {
    && best <= all && |best| == Min(cap, |all|)
    && forall x, y | x in best && y in all - best :: Before(cmp, x, y)
  }

  /** The element a max-heap has on top. */
  lemma {:induction false} WorstExists<V(!new)>(cmp: (V, V) -> Ordering, s: set<Scored<V>>) returns (w: Scored<V>)
    requires Preorder(cmp) && DistinctKeys(s) && s != {}
    ensures w in s && forall x | x in s :: x == w || Before(cmp, x, w)
    decreases s
  {
    w :| w in s;
    if s != {w} {
      hide Before, Preorder;
      var t := s - {w};
      var v := WorstExists(cmp, t);
      BeforeTotal(cmp, v, w);
      if Before(cmp, w, v) {
        forall x | x in s ensures x == v || Before(cmp, x, v) { assert x == w || x in t; }
        w := v;
      } else {
        forall x | x in s ensures x == w || Before(cmp, x, w) {
          if x != w && x != v {
            assert x in t;
            BeforeTransitive(cmp, x, v, w);
          }
        }
      }
    }
  }

  lemma Grow<V(!new)>(cmp: (V, V) -> Ordering, best: set<Scored<V>>, all: set<Scored<V>>, cap: nat, x: Scored<V>)
    requires IsBest(cmp, best, all, cap) && x !in all && |best| < cap
    ensures IsBest(cmp, best + {x}, all + {x}, cap)
  {
    hide Before;
    Included(best, all);
    assert best == all;
  }

  lemma Included<T>(a: set<T>, b: set<T>)
    requires a <= b
    ensures |a| <= |b| && (|a| == |b| ==> a == b)
  {
    assert b == a + (b - a);
    assert |b| == |a| + |b - a|;
    if |a| == |b| { assert b - a == {}; }
  }

  /** A full heap and a candidate no better than the worst: nothing changes. */
  lemma Refuse<V(!new)>(cmp: (V, V) -> Ordering, best: set<Scored<V>>, all: set<Scored<V>>, cap: nat, x: Scored<V>, w: Scored<V>)
    requires Preorder(cmp) && DistinctKeys(all + {x}) && x !in all && IsBest(cmp, best, all, cap) && |best| == cap
    requires w in best && (forall y | y in best :: y == w || Before(cmp, y, w)) && !Before(cmp, x, w)
    ensures IsBest(cmp, best, all + {x}, cap)
  {
    hide Before, Preorder;
    BeforeTotal(cmp, x, w);
    assert x in all + {x} && w in all + {x};
    forall y | y in best ensures Before(cmp, y, x) {
      if y != w { BeforeTransitive(cmp, y, w, x); }
    }
  }

  /** A full heap and a better candidate: the worst makes room. */
  lemma Replace<V(!new)>(cmp: (V, V) -> Ordering, best: set<Scored<V>>, all: set<Scored<V>>, cap: nat, x: Scored<V>, w: Scored<V>)
    requires Preorder(cmp) && x !in all && IsBest(cmp, best, all, cap) && |best| == cap
    requires w in best && (forall y | y in best :: y == w || Before(cmp, y, w)) && Before(cmp, x, w)
    ensures IsBest(cmp, best - {w} + {x}, all + {x}, cap)
  {
    hide Before, Preorder;
    var best' := best - {w} + {x};
    forall y, z | y in best' && z in all + {x} - best' ensures Before(cmp, y, z) {
      if z != w {
        if y == x { BeforeTransitive(cmp, x, w, z); }
      }
    }
  }

  /** Merging the survivors of a part is as good as merging the whole part. */
  lemma MergeSurvivors<V(!new)>(cmp: (V, V) -> Ordering, best: set<Scored<V>>, a: set<Scored<V>>, b: set<Scored<V>>, part: set<Scored<V>>, cap: nat)
    requires Preorder(cmp) && DistinctKeys(a + part) && a !! part
    requires IsBest(cmp, b, part, cap) && IsBest(cmp, best, a + b, cap)
    ensures IsBest(cmp, best, a + part, cap)
  {
    hide Before, Preorder;
    Included(b, part);
    if b != part {
      assert |b| == cap;
      Included(b, a + b);
      Included(a + b, a + part);
      forall x, y | x in best && y in part - b ensures Before(cmp, x, y) {
        if x !in b {
          Crowded(cmp, best, a, b, cap, x);
          var z :| z in b && z !in best;
          assert Before(cmp, x, z) && Before(cmp, z, y);
          BeforeTransitive(cmp, x, z, y);
        }
      }
    }
  }

  /** `best` has no room for all of `b` beside an element of `a`. */
  lemma Crowded<V(!new)>(cmp: (V, V) -> Ordering, best: set<Scored<V>>, a: set<Scored<V>>, b: set<Scored<V>>, cap: nat, x: Scored<V>)
    requires |best| <= cap && |b| == cap && x in best && x !in b
    ensures exists z :: z in b && z !in best
  {
    if b <= best {
      Included(b + {x}, best);
    }
  }

  // ----- The full sort -----

  ghost predicate IsSorting<V(!new)>(cmp: (V, V) -> Ordering, s: seq<Scored<V>>, all: set<Scored<V>>) {
    && (forall i | 0 <= i < |s| :: s[i] in all)
    && (forall x | x in all :: x in s)
    && (forall i, j | 0 <= i < j < |s| :: Before(cmp, s[i], s[j]))
  }

  lemma SortingHead<V(!new)>(cmp: (V, V) -> Ordering, s: seq<Scored<V>>, all: set<Scored<V>>)
    requires Preorder(cmp) && IsSorting(cmp, s, all) && s != []
    ensures forall x | x in all && x != s[0] :: Before(cmp, s[0], x)
    ensures IsSorting(cmp, s[1..], all - {s[0]})
  {
    hide Before, Preorder;
    forall x | x in all && x != s[0] ensures Before(cmp, s[0], x) && x in s[1..] {
      var i :| 0 <= i < |s| && s[i] == x;
      assert s[1..][i - 1] == x;
    }
    forall i | 0 <= i < |s| - 1 ensures s[1..][i] in all - {s[0]} {
      assert Before(cmp, s[0], s[i + 1]);
      BeforeTotal(cmp, s[0], s[i + 1]);
    }
  }

  lemma {:induction false} SortingUnique<V(!new)>(cmp: (V, V) -> Ordering, s: seq<Scored<V>>, t: seq<Scored<V>>, all: set<Scored<V>>)
    requires Preorder(cmp) && IsSorting(cmp, s, all) && IsSorting(cmp, t, all)
    ensures s == t
    decreases |s|
  {
    hide Before, Preorder;
    assert s != [] ==> s[0] in all && s[0] in t;
    assert t != [] ==> t[0] in all && t[0] in s;
    if s != [] {
      SortingHead(cmp, s, all);
      SortingHead(cmp, t, all);
      BeforeTotal(cmp, s[0], t[0]);
      SortingUnique(cmp, s[1..], t[1..], all - {s[0]});
    }
  }

  /** The best `cap`, sorted, are the first `cap` of the full sort. */
  lemma {:induction false} BestIsPrefix<V(!new)>(cmp: (V, V) -> Ordering, best: set<Scored<V>>, r: seq<Scored<V>>, all: set<Scored<V>>, full: seq<Scored<V>>, cap: nat)
    requires Preorder(cmp) && IsBest(cmp, best, all, cap) && IsSorting(cmp, r, best) && IsSorting(cmp, full, all)
    ensures r == Take(full, cap)
    decreases cap
  {
    hide Before, Preorder, IsBest, IsSorting;
    if best == {} {
      NoBest(cmp, best, r, all, full, cap);
    } else {
      var x :| x in best;
      BestTail(cmp, best, all, cap, x);
      SortingOf(cmp, r, best, x);
      SortingOf(cmp, full, all, x);
      SortingHead(cmp, full, all);
      SortingHead(cmp, r, best);
      HeadIsBest(cmp, best, all, cap, full[0], r[0]);
      BestTail(cmp, best, all, cap, r[0]);
      BestIsPrefix(cmp, best - {r[0]}, r[1..], all - {r[0]}, full[1..], cap - 1);
      assert r == [r[0]] + r[1..] && full == [full[0]] + full[1..];
    }
  }

  lemma NoBest<V(!new)>(cmp: (V, V) -> Ordering, best: set<Scored<V>>, r: seq<Scored<V>>, all: set<Scored<V>>, full: seq<Scored<V>>, cap: nat)
    requires best == {} && IsBest(cmp, best, all, cap) && IsSorting(cmp, r, best) && IsSorting(cmp, full, all)
    ensures r == [] && Take(full, cap) == []
  {
    hide Before;
    assert cap == 0 || |all| == 0;
    SortingSize(cmp, r, best);
    SortingSize(cmp, full, all);
  }

  lemma SortingSize<V(!new)>(cmp: (V, V) -> Ordering, s: seq<Scored<V>>, all: set<Scored<V>>)
    requires IsSorting(cmp, s, all)
    ensures |all| == 0 ==> |s| == 0
  {
    hide Before;
    if |s| > 0 { assert s[0] in all; }
  }

  lemma SortingOf<V(!new)>(cmp: (V, V) -> Ordering, s: seq<Scored<V>>, all: set<Scored<V>>, x: Scored<V>)
    requires IsSorting(cmp, s, all) && x in all
    ensures s != [] && s[0] in all
  {
    hide Before;
    assert x in s;
  }

  lemma HeadIsBest<V(!new)>(cmp: (V, V) -> Ordering, best: set<Scored<V>>, all: set<Scored<V>>, cap: nat, x: Scored<V>, y: Scored<V>)
    requires Preorder(cmp) && IsBest(cmp, best, all, cap)
    requires x in all && (forall z | z in all && z != x :: Before(cmp, x, z))
    requires y in best && (forall z | z in best && z != y :: Before(cmp, y, z))
    ensures x == y
  {
    hide Before, Preorder;
    BeforeTotal(cmp, x, y);
    assert x in best || x in all - best;
  }

  lemma BestTail<V(!new)>(cmp: (V, V) -> Ordering, best: set<Scored<V>>, all: set<Scored<V>>, cap: nat, x: Scored<V>)
    requires IsBest(cmp, best, all, cap) && x in best
    ensures cap > 0 && x in all && IsBest(cmp, best - {x}, all - {x}, cap - 1)
  {
    hide Before;
    assert |best - {x}| == |best| - 1 && |all - {x}| == |all| - 1;
    assert (all - {x}) - (best - {x}) == all - best;
  }

  lemma BestIncluded<V(!new)>(cmp: (V, V) -> Ordering, best: set<Scored<V>>, all: set<Scored<V>>, cap: nat)
    requires IsBest(cmp, best, all, cap)
    ensures best <= all
  {
  }

  lemma EmptySorting<V(!new)>(cmp: (V, V) -> Ordering, s: set<Scored<V>>)
    ensures IsSorting(cmp, [], s - s)
  {
  }

  lemma SortingSnoc<V(!new)>(cmp: (V, V) -> Ordering, r: seq<Scored<V>>, s: set<Scored<V>>, m: Scored<V>)
    requires IsSorting(cmp, r, s) && forall x | x in s :: Before(cmp, x, m)
    ensures IsSorting(cmp, r + [m], s + {m})
  {
    hide Before;
    var t := r + [m];
    forall x | x in s + {m} ensures x in t {
      if x in s { assert x in r; } else { assert t[|r|] == m; }
    }
  }

  lemma {:induction false} BestExists<V(!new)>(cmp: (V, V) -> Ordering, s: set<Scored<V>>) returns (w: Scored<V>)
    requires Preorder(cmp) && DistinctKeys(s) && s != {}
    ensures w in s && forall x | x in s :: x == w || Before(cmp, w, x)
    decreases s
  {
    w :| w in s;
    if s != {w} {
      hide Before, Preorder;
      var t := s - {w};
      var v := BestExists(cmp, t);
      BeforeTotal(cmp, v, w);
      if Before(cmp, v, w) {
        forall x | x in s ensures x == v || Before(cmp, v, x) { assert x == w || x in t; }
        w := v;
      } else {
        forall x | x in s ensures x == w || Before(cmp, w, x) {
          if x != w && x != v {
            assert x in t;
            BeforeTransitive(cmp, w, v, x);
          }
        }
      }
    }
  }

  // ----- Bounded heaps -----

  /** `peek` on a max-heap. */
  method Peek<V(==,!new)>(cmp: (V, V) -> Ordering, items: set<Scored<V>>) returns (w: Scored<V>)
    requires Preorder(cmp) && DistinctKeys(items) && items != {}
    ensures w in items && forall x | x in items :: x == w || Before(cmp, x, w)
  {
    ghost var v := WorstExists(cmp, items);
    w :| w in items && forall x | x in items :: x == w || Before(cmp, x, w);
  }

  /** `push_bounded`: what is kept stays the best `cap` of everything offered so far. */
  method PushBounded<V(==,!new)>(cmp: (V, V) -> Ordering, items: set<Scored<V>>, x: Scored<V>, cap: nat, ghost seen: set<Scored<V>>)
    returns (kept: set<Scored<V>>)
    requires Preorder(cmp) && IsBest(cmp, items, seen, cap) && x !in seen && DistinctKeys(seen + {x})
    ensures IsBest(cmp, kept, seen + {x}, cap)
  {
    hide Before, Preorder;
    kept := items;
    if cap == 0 { return; }
    if |items| >= cap {
      var w := Peek(cmp, items);
      if Before(cmp, x, w) {
        Replace(cmp, items, seen, cap, x, w);
        kept := items - {w} + {x};
      } else {
        Refuse(cmp, items, seen, cap, x, w);
      }
    } else {
      Grow(cmp, items, seen, cap, x);
      kept := items + {x};
    }
  }

  /** The reduce step: every survivor of the other part is offered, in whatever order. */
  method MergeBounded<V(==,!new)>(cmp: (V, V) -> Ordering, a: set<Scored<V>>, b: set<Scored<V>>, cap: nat,
                                  ghost seenA: set<Scored<V>>, ghost seenB: set<Scored<V>>)
    returns (kept: set<Scored<V>>)
    requires Preorder(cmp) && IsBest(cmp, a, seenA, cap) && IsBest(cmp, b, seenB, cap)
    requires seenA !! seenB && DistinctKeys(seenA + seenB)
    ensures IsBest(cmp, kept, seenA + seenB, cap)
  {
    hide IsBest, Preorder;
    kept := a;
    var todo := b;
    BestIncluded(cmp, b, seenB, cap);
    assert seenA + (b - todo) == seenA;
    while todo != {}
      invariant todo <= b && IsBest(cmp, kept, seenA + (b - todo), cap)
      decreases todo
    {
      var x :| x in todo;
      ghost var seen := seenA + (b - todo);
      assert seen + {x} <= seenA + seenB;
      kept := PushBounded(cmp, kept, x, cap, seen);
      todo := todo - {x};
      assert seen + {x} == seenA + (b - todo);
    }
    assert b - todo == b;
    MergeSurvivors(cmp, kept, seenA, b, seenB, cap);
  }

  /** `into_sorted_vec`: the survivors in order are the first `cap` of any full sort. */
  method SortedWinners<V(==,!new)>(cmp: (V, V) -> Ordering, items: set<Scored<V>>, cap: nat, ghost seen: set<Scored<V>>, ghost full: seq<Scored<V>>)
    returns (r: seq<Scored<V>>)
    requires Preorder(cmp) && DistinctKeys(seen) && IsBest(cmp, items, seen, cap) && IsSorting(cmp, full, seen)
    ensures r == Take(full, cap)
  {
    hide IsBest, Preorder, Before, IsSorting;
    r := [];
    var rest := items;
    EmptySorting(cmp, items);
    BestIncluded(cmp, items, seen, cap);
    while rest != {}
      invariant rest <= items && DistinctKeys(items) && IsSorting(cmp, r, items - rest)
      invariant forall x, y | x in items - rest && y in rest :: Before(cmp, x, y)
      decreases rest
    {
      assert DistinctKeys(rest);
      ghost var v := BestExists(cmp, rest);
      var m :| m in rest && forall x | x in rest :: x == m || Before(cmp, m, x);
      SortingSnoc(cmp, r, items - rest, m);
      assert items - (rest - {m}) == items - rest + {m};
      r := r + [m];
      rest := rest - {m};
    }
    assert items - rest == items;
    BestIsPrefix(cmp, items, r, seen, full, cap);
  }

  /** The heap of `scan_top_n`: a max-heap of at most `cap` items; `seen` is everything ever offered to it. */
  class BoundedHeap<V(==,!new)> {
    const cmp: (V, V) -> Ordering
    const cap: nat
    var items: set<Scored<V>>
    ghost var seen: set<Scored<V>>

    ghost predicate Valid()
      reads this
    {
      cap > 0 && Preorder(cmp) && DistinctKeys(seen) && IsBest(cmp, items, seen, cap)
    }

    constructor (cmp: (V, V) -> Ordering, cap: nat)
      requires Preorder(cmp) && cap > 0
      ensures Valid() && seen == {} && this.cmp == cmp && this.cap == cap
    {
      this.cmp, this.cap, items, seen := cmp, cap, {}, {};
    }

    /** `push_into`: a candidate that beats the worst goes in first, then the worst is dropped. */
    method Push(x: Scored<V>)
      requires Valid() && x !in seen && DistinctKeys(seen + {x})
      modifies this
      ensures Valid() && seen == old(seen) + {x}
    {
      hide Before, Preorder;
      if |items| >= cap {
        var w := Peek(cmp, items);
        if !Before(cmp, x, w) {
          Refuse(cmp, items, seen, cap, x, w);
          seen := seen + {x};
          return;
        }
        Replace(cmp, items, seen, cap, x, w);
        items := items + {x};
        var worst := Peek(cmp, items);
        BeforeTotal(cmp, w, worst);
        BeforeTotal(cmp, x, w);
        items := items - {worst};
        assert worst == w && items == old(items) - {w} + {x};
      } else {
        Grow(cmp, items, seen, cap, x);
        items := items + {x};
      }
      seen := seen + {x};
    }

    /** The reduce step: every item of the other heap is offered, in whatever order it yields them. */
    method Absorb(other: BoundedHeap<V>)
      requires Valid() && other.Valid() && other != this && other.cmp == cmp && other.cap == cap
      requires seen !! other.seen && DistinctKeys(seen + other.seen)
      modifies this
      ensures Valid() && seen == old(seen) + other.seen
    {
      hide IsBest, Preorder;
      var todo := other.items;
      BestIncluded(cmp, other.items, other.seen, cap);
      while todo != {}
        invariant Valid() && todo <= other.items && seen == old(seen) + (other.items - todo)
        decreases todo
      {
        var x :| x in todo;
        todo := todo - {x};
        assert seen + {x} <= old(seen) + other.seen;
        Push(x);
      }
      assert other.items - todo == other.items;
      MergeSurvivors(cmp, items, old(seen), other.items, other.seen, cap);
      seen := old(seen) + other.seen;
    }

    method IntoSorted(ghost full: seq<Scored<V>>) returns (r: seq<Scored<V>>)
      requires Valid() && IsSorting(cmp, full, seen)
      ensures r == Take(full, cap)
    {
      r := SortedWinners(cmp, items, cap, seen, full);
    }
  }

  lemma {:induction false} SortingExists<V(!new)>(cmp: (V, V) -> Ordering, s: set<Scored<V>>)
    requires Preorder(cmp) && DistinctKeys(s)
    ensures exists r :: IsSorting(cmp, r, s)
    decreases s
  {
    hide IsSorting, Preorder, Before;
    if s == {} {
      EmptySorting(cmp, s);
      assert s - s == s;
    } else {
      var w := WorstExists(cmp, s);
      SortingExists(cmp, s - {w});
      var r :| IsSorting(cmp, r, s - {w});
      SortingSnoc(cmp, r, s - {w}, w);
      assert s - {w} + {w} == s;
    }
  }

  /** The items in comparator-then-key order. */
  ghost function FullSort<V(!new)>(cmp: (V, V) -> Ordering, s: set<Scored<V>>): (r: seq<Scored<V>>)
    requires Preorder(cmp) && DistinctKeys(s)
    ensures IsSorting(cmp, r, s)
  {
    SortingExists(cmp, s);
    var r :| IsSorting(cmp, r, s); r
  }

  // ----- Parallel fold and reduce -----

  /** How a parallel pass divides the keys: each chunk is folded in its visiting order, then the
      partial results are merged pairwise. */
  datatype Plan = Chunk(keys: seq<Text>) | Merge(left: Plan, right: Plan)

  function PlanKeys(p: Plan): set<Text> {
    match p
    case Chunk(keys) => set k | k in keys
    case Merge(l, r) => PlanKeys(l) + PlanKeys(r)
  }

  /** Every key is visited once. */
  predicate Partition(p: Plan) {
    match p
    case Chunk(keys) => forall i, j | 0 <= i < j < |keys| :: keys[i] != keys[j]
    case Merge(l, r) => Partition(l) && Partition(r) && PlanKeys(l) !! PlanKeys(r)
  }

  /** What the visited documents contribute: those that match and have a sort value. */
  ghost function Offered<V(!new)>(keys: set<Text>, pick: Text -> Option<V>): set<Scored<V>> {
    set k | k in keys && pick(k).Some? :: Scored(k, pick(k).value)
  }

  lemma OfferedDistinct<V(!new)>(keys: set<Text>, pick: Text -> Option<V>)
    ensures DistinctKeys(Offered(keys, pick))
  {
  }

  lemma OfferedUnion<V(!new)>(a: set<Text>, b: set<Text>, pick: Text -> Option<V>)
    ensures Offered(a + b, pick) == Offered(a, pick) + Offered(b, pick)
    ensures a !! b ==> Offered(a, pick) !! Offered(b, pick)
  {
  }

  method FoldChunk<V(==,!new)>(keys: seq<Text>, pick: Text -> Option<V>, cmp: (V, V) -> Ordering, cap: nat) returns (h: BoundedHeap<V>)
    requires Preorder(cmp) && cap > 0 && Partition(Chunk(keys))
    ensures fresh(h) && h.Valid() && h.cmp == cmp && h.cap == cap && h.seen == Offered(PlanKeys(Chunk(keys)), pick)
  {
    hide IsBest, Preorder;
    h := new BoundedHeap<V>(cmp, cap);
    for i := 0 to |keys|
      invariant fresh(h) && h.Valid() && h.cmp == cmp && h.cap == cap
      invariant h.seen == Offered(PlanKeys(Chunk(keys[..i])), pick)
    {
      ghost var done := PlanKeys(Chunk(keys[..i]));
      assert PlanKeys(Chunk(keys[..i + 1])) == done + {keys[i]};
      OfferedUnion(done, {keys[i]}, pick);
      OfferedDistinct(done + {keys[i]}, pick);
      var v := pick(keys[i]);
      if v.Some? {
        assert Offered({keys[i]}, pick) == {Scored(keys[i], v.value)};
        h.Push(Scored(keys[i], v.value));
      }
    }
    assert keys[..|keys|] == keys;
  }

  method FoldAndReduce<V(==,!new)>(p: Plan, pick: Text -> Option<V>, cmp: (V, V) -> Ordering, cap: nat) returns (h: BoundedHeap<V>)
    requires Preorder(cmp) && cap > 0 && Partition(p)
    ensures fresh(h) && h.Valid() && h.cmp == cmp && h.cap == cap && h.seen == Offered(PlanKeys(p), pick)
    decreases p
  {
    hide IsBest, Preorder;
    match p
    case Chunk(keys) => h := FoldChunk(keys, pick, cmp, cap);
    case Merge(l, r) =>
      h := FoldAndReduce(l, pick, cmp, cap);
      var other := FoldAndReduce(r, pick, cmp, cap);
      OfferedUnion(PlanKeys(l), PlanKeys(r), pick);
      OfferedDistinct(PlanKeys(l) + PlanKeys(r), pick);
      h.Absorb(other);
  }

  /** `scan_top_n`: the winners depend on the keys and the comparator alone, not on the plan. */
  method Winners<V(==,!new)>(p: Plan, pick: Text -> Option<V>, cmp: (V, V) -> Ordering, cap: nat) returns (r: seq<Scored<V>>)
    requires Preorder(cmp) && Partition(p)
    ensures DistinctKeys(Offered(PlanKeys(p), pick))
    ensures r == Take(FullSort(cmp, Offered(PlanKeys(p), pick)), cap)
  {
    OfferedDistinct(PlanKeys(p), pick);
    if cap == 0 { return []; }
    var h := FoldAndReduce(p, pick, cmp, cap);
    r := h.IntoSorted(FullSort(cmp, Offered(PlanKeys(p), pick)));
  }
}
