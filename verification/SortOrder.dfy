/** What sorting by a `sort` array means, told without the comparator: texts by their bytes, numbers by
    their exact values, missing values last, ties by key. */
module SortOrder {
  import opened Bytes
  import opened Json
  import opened Codec
  import opened Replay
  import opened Order
  import opened Walker
  import opened Where
  import opened Floats
  import opened TopN
  import opened Comparator
  import SortPlans
  import Meaning

  // ----- Texts -----

  /** The texts agree up to `i`, where the first ends or has the smaller byte. */
  predicate PartsAt(a: Text, b: Text, i: nat) {
    i <= |a| && i < |b| && a[..i] == b[..i] && (i == |a| || a[i] < b[i])
  }

  /** The first is a proper prefix of the second, or smaller at the first byte where they differ. */
  ghost predicate TextBefore(a: Text, b: Text) {
    exists i: nat :: PartsAt(a, b, i)
  }

  lemma {:induction false} LessMeaning(a: Text, b: Text)
    ensures Less(a, b) <==> TextBefore(a, b)
  {
    assert b != [] && (a == [] || a[0] < b[0]) ==> PartsAt(a, b, 0);
    if a != [] && b != [] && a[0] == b[0] {
      var c, d := a[1..], b[1..];
      LessMeaning(c, d);
      forall i: nat ensures PartsAt(c, d, i) <==> PartsAt(a, b, i + 1) {
        if i <= |c| && i < |d| {
          assert a[..i + 1] == [a[0]] + c[..i] && b[..i + 1] == [b[0]] + d[..i];
          assert c[..i] == a[..i + 1][1..] && d[..i] == b[..i + 1][1..];
        }
      }
      if i: nat :| PartsAt(a, b, i) { assert i > 0 && PartsAt(c, d, i - 1); }
      if i: nat :| PartsAt(c, d, i) { assert PartsAt(a, b, i + 1); }
    }
  }

  // ----- Two values -----

  /** One field value goes before another: a value before none, a smaller text or number before a
      larger one, and of any other two values the one with the smaller JSON text. */
  ghost predicate ValueBefore(h: Host, x: Option<Value>, y: Option<Value>) {
    x.Some? &&
    (y.None?
     || if x.value.Num? && y.value.Num? then Scaled(AsFloat(h, x.value.n)) < Scaled(AsFloat(h, y.value.n))
        else if x.value.Str? && y.value.Str? then TextBefore(x.value.s, y.value.s)
        else TextBefore(Render(h, x.value), Render(h, y.value)))
  }

  /** Neither goes before the other. */
  predicate ValueTies(h: Host, x: Option<Value>, y: Option<Value>) {
    if x.None? || y.None? then x == y
    else if x.value.Num? && y.value.Num? then Scaled(AsFloat(h, x.value.n)) == Scaled(AsFloat(h, y.value.n))
    else if x.value.Str? && y.value.Str? then x == y
    else Render(h, x.value) == Render(h, y.value)
  }

  lemma TextCompare(x: Text, y: Text)
    ensures CompareText(x, y) == Lesser <==> TextBefore(x, y)
    ensures CompareText(x, y) == Equal <==> x == y
    ensures CompareText(x, y) == Greater <==> TextBefore(y, x)
  {
    hide Less, TextBefore;
    LessMeaning(x, y);
    LessMeaning(y, x);
    LessTrichotomy(x, y);
  }

  lemma CompareMeaning(h: Host, x: Option<Value>, y: Option<Value>)
    ensures CompareValues(h, x, y) == Lesser <==> ValueBefore(h, x, y)
    ensures CompareValues(h, x, y) == Equal <==> ValueTies(h, x, y)
    ensures CompareValues(h, x, y) == Greater <==> ValueBefore(h, y, x)
  {
    hide CompareText, TextBefore, Scaled, PartialCompare, Render;
    if x.Some? && y.Some? {
      if x.value.Num? && y.value.Num? {
        OrderIsValueOrder(AsFloat(h, x.value.n), AsFloat(h, y.value.n));
      } else if x.value.Str? && y.value.Str? {
        TextCompare(x.value.s, y.value.s);
      } else {
        TextCompare(Render(h, x.value), Render(h, y.value));
      }
    }
  }

  // ----- Sort arrays -----

  /** `{"field": f, "order": o}`. */
  function SortEntry(f: Text, o: string): Value {
    Obj([Field(Meaning.Ascii("field"), Str(f)), Field(Meaning.Ascii("order"), Str(Meaning.Ascii(o)))])
  }

  lemma EntryMeaning(f: Text)
    ensures ReadSpec(Str(f)) == Some((f, false))
    ensures ReadSpec(SortEntry(f, "asc")) == Some((f, false))
    ensures ReadSpec(SortEntry(f, "desc")) == Some((f, true)) && ReadSpec(SortEntry(f, "DESC")) == Some((f, true))
  {
    hide Meaning.Ascii, Lookup;
    EntryNames();
    EntryFields(f, Meaning.Ascii("asc"));
    EntryFields(f, Meaning.Ascii("desc"));
    EntryFields(f, Meaning.Ascii("DESC"));
  }

  lemma EntryNames()
    ensures Meaning.Ascii("field") == FIELD && Meaning.Ascii("order") == ORDER
    ensures !IsDesc(Meaning.Ascii("asc")) && IsDesc(Meaning.Ascii("desc")) && IsDesc(Meaning.Ascii("DESC"))
  {
    assert |Meaning.Ascii("asc")| == 3;
    assert Meaning.Ascii("desc") == [0x64, 0x65, 0x73, 0x63] && Meaning.Ascii("DESC") == [0x44, 0x45, 0x53, 0x43];
  }

  lemma EntryFields(f: Text, o: Text)
    ensures var fs := [Field(FIELD, Str(f)), Field(ORDER, Str(o))];
            Lookup(fs, FIELD) == Some(Str(f)) && Lookup(fs, ORDER) == Some(Str(o))
  {
    var fs := [Field(FIELD, Str(f)), Field(ORDER, Str(o))];
    assert FIELD[0] != ORDER[0];
    assert fs[1..] == [Field(ORDER, Str(o))];
    assert Lookup(fs[1..], ORDER) == Some(Str(o));
  }

  /** The first entry that tells two documents apart decides, and only that. */
  lemma {:induction false} FirstDecides(h: Host, specs: seq<Value>, a: Value, b: Value)
    ensures CompareDocs(h, specs, a, b) == Equal <==> forall i | 0 <= i < |specs| :: CompareBySpec(h, specs[i], a, b) == Equal
    ensures forall i | 0 <= i < |specs| && CompareBySpec(h, specs[i], a, b) != Equal
                       && (forall j | 0 <= j < i :: CompareBySpec(h, specs[j], a, b) == Equal) ::
              CompareDocs(h, specs, a, b) == CompareBySpec(h, specs[i], a, b)
  {
    hide CompareBySpec;
    if specs != [] {
      var rest := specs[1..];
      FirstDecides(h, rest, a, b);
      assert forall i | 0 <= i < |rest| :: rest[i] == specs[i + 1];
      forall i | 0 <= i < |specs| && CompareBySpec(h, specs[i], a, b) != Equal
                 && (forall j | 0 <= j < i :: CompareBySpec(h, specs[j], a, b) == Equal)
        ensures CompareDocs(h, specs, a, b) == CompareBySpec(h, specs[i], a, b)
      {
        if i > 0 { assert rest[i - 1] == specs[i]; }
      }
      if CompareBySpec(h, specs[0], a, b) == Equal && forall i | 0 <= i < |rest| :: CompareBySpec(h, rest[i], a, b) == Equal {
        forall i | 0 <= i < |specs| ensures CompareBySpec(h, specs[i], a, b) == Equal { if i > 0 { assert rest[i - 1] == specs[i]; } }
      }
    }
  }

  // ----- Two documents -----

  function FieldOf(d: Value, field: Text): Option<Value> {
    Nested(d, Split(field))
  }

  /** The field an entry names. */
  function NameIn(spec: Value): Text
    requires !SortPlans.Ignored(spec)
  {
    ReadSpec(spec).value.0
  }

  predicate Descends(spec: Value)
    requires !SortPlans.Ignored(spec)
  {
    ReadSpec(spec).value.1
  }

  /** By this entry the first document goes before the second. */
  ghost predicate EntryBefore(h: Host, spec: Value, a: Value, b: Value) {
    !SortPlans.Ignored(spec) &&
    var x, y := FieldOf(a, NameIn(spec)), FieldOf(b, NameIn(spec)); if Descends(spec) then ValueBefore(h, y, x) else ValueBefore(h, x, y)
  }

  /** This entry does not tell them apart. */
  predicate EntryTies(h: Host, spec: Value, a: Value, b: Value) {
    SortPlans.Ignored(spec) || ValueTies(h, FieldOf(a, NameIn(spec)), FieldOf(b, NameIn(spec)))
  }

  lemma EntryCompares(h: Host, spec: Value, a: Value, b: Value)
    ensures CompareBySpec(h, spec, a, b) == Lesser <==> EntryBefore(h, spec, a, b)
    ensures CompareBySpec(h, spec, a, b) == Equal <==> EntryTies(h, spec, a, b)
  {
    hide ReadSpec, CompareValues, ValueBefore, ValueTies, Nested, Split;
    if !SortPlans.Ignored(spec) {
      CompareMeaning(h, FieldOf(a, NameIn(spec)), FieldOf(b, NameIn(spec)));
    }
  }

  /** Entry `i` is the first to tell the documents apart, and puts the first before the second. */
  ghost predicate DecidedAt(h: Host, specs: seq<Value>, a: Value, b: Value, i: nat) {
    i < |specs| && EntryBefore(h, specs[i], a, b) && forall j | 0 <= j < i :: EntryTies(h, specs[j], a, b)
  }

  /** The order of the answer: by the first entry that tells, and by key when none does. */
  ghost predicate GoesBefore(h: Host, specs: seq<Value>, a: Scored<Value>, b: Scored<Value>) {
    (exists i: nat :: DecidedAt(h, specs, a.value, b.value, i))
    || ((forall i | 0 <= i < |specs| :: EntryTies(h, specs[i], a.value, b.value)) && TextBefore(a.key, b.key))
  }

  lemma {:induction false} DecidingEntry(h: Host, specs: seq<Value>, a: Value, b: Value) returns (i: nat)
    requires CompareDocs(h, specs, a, b) != Equal
    ensures i < |specs| && CompareBySpec(h, specs[i], a, b) == CompareDocs(h, specs, a, b)
    ensures forall j | 0 <= j < i :: CompareBySpec(h, specs[j], a, b) == Equal
  {
    hide CompareBySpec;
    if CompareBySpec(h, specs[0], a, b) != Equal {
      i := 0;
    } else {
      i := DecidingEntry(h, specs[1..], a, b);
      assert forall j | 0 < j < |specs| :: specs[j] == specs[1..][j - 1];
      i := i + 1;
    }
  }

  lemma BeforeMeaning(h: Host, specs: seq<Value>, a: Scored<Value>, b: Scored<Value>)
    ensures Before((x, y) => CompareDocs(h, specs, x, y), a, b) <==> GoesBefore(h, specs, a, b)
  {
    hide CompareBySpec, CompareDocs, EntryBefore, EntryTies, TextBefore, Less;
    forall i | 0 <= i < |specs|
      ensures CompareBySpec(h, specs[i], a.value, b.value) == Lesser <==> EntryBefore(h, specs[i], a.value, b.value)
      ensures CompareBySpec(h, specs[i], a.value, b.value) == Equal <==> EntryTies(h, specs[i], a.value, b.value)
    {
      EntryCompares(h, specs[i], a.value, b.value);
    }
    FirstDecides(h, specs, a.value, b.value);
    LessMeaning(a.key, b.key);
    if CompareDocs(h, specs, a.value, b.value) == Lesser {
      var i := DecidingEntry(h, specs, a.value, b.value);
      assert DecidedAt(h, specs, a.value, b.value, i);
    }
  }

  // ----- The winners -----

  /** The first `cap` of a full sort: members, in order, with everything left out behind them. */
  lemma TopMeaning<V(!new)>(cmp: (V, V) -> Ordering, all: set<Scored<V>>, full: seq<Scored<V>>, cap: nat)
    requires Preorder(cmp) && IsSorting(cmp, full, all)
    ensures var r := Take(full, cap);
            && |r| == Min(cap, |all|)
            && (forall i | 0 <= i < |r| :: r[i] in all)
            && (forall i, j | 0 <= i < j < |r| :: Before(cmp, r[i], r[j]))
            && (forall i, x | 0 <= i < |r| && x in all && x !in r :: Before(cmp, r[i], x))
  {
    hide Before, Preorder;
    SortingSize(cmp, full, all);
    var r := Take(full, cap);
    assert forall m | 0 <= m < |r| :: full[m] == r[m] && full[m] in r;
    forall i, x | 0 <= i < |r| && x in all && x !in r ensures Before(cmp, r[i], x) {
      var j :| 0 <= j < |full| && full[j] == x;
      assert i < j;
    }
  }

  lemma {:induction false} SortingSize<V(!new)>(cmp: (V, V) -> Ordering, s: seq<Scored<V>>, all: set<Scored<V>>)
    requires Preorder(cmp) && IsSorting(cmp, s, all)
    ensures |s| == |all|
    decreases |s|
  {
    hide Before, Preorder;
    if s == [] {
      assert forall x | x in all :: x in s;
      assert all == {};
    } else {
      SortingHead(cmp, s, all);
      assert s[0] in all;
      SortingSize(cmp, s[1..], all - {s[0]});
    }
  }

  /** The stored matches. */
  ghost function Matching(col: Collection, keep: (Text, Bytes) -> bool): set<Scored<Value>> {
    set k | k in col && keep(k, col[k]) && Decode(col[k]).Some? :: Scored(k, Decode(col[k]).value)
  }

  /** Sorting by any number of fields: the answer is made of stored matches in the order asked for, as
      many as the cap allows, and every match left out goes behind all of them. */
  method TopBySort(h: Host, col: Collection, keep: (Text, Bytes) -> bool, specs: seq<Value>, cap: nat, p: Plan)
    returns (r: seq<Scored<Value>>)
    requires Decimal(h) && Partition(p) && PlanKeys(p) == col.Keys
    ensures |r| == Min(cap, |Matching(col, keep)|) && forall i | 0 <= i < |r| :: r[i] in Matching(col, keep)
    ensures forall i, j | 0 <= i < j < |r| :: GoesBefore(h, specs, r[i], r[j])
    ensures forall i, x | 0 <= i < |r| && x in Matching(col, keep) && x !in r :: GoesBefore(h, specs, r[i], x)
  {
    hide Decimal, Partition, PlanKeys, CompareDocs, Preorder, GoesBefore, Before, Decode;
    r := ScanTopN(h, col, keep, specs, cap, p);
    ghost var cmp := (a, b) => CompareDocs(h, specs, a, b);
    ghost var all := Matching(col, keep);
    assert Offered(col.Keys, k => Offer(col, keep, k)) == all;
    TopMeaning(cmp, all, FullSort(cmp, all), cap);
    forall a, b | a in all && b in all ensures Before(cmp, a, b) <==> GoesBefore(h, specs, a, b) {
      BeforeMeaning(h, specs, a, b);
    }
  }

  /** The only entry that names a field is the first. */
  predicate OneName(specs: seq<Value>, field: Text, desc: bool) {
    && specs != [] && field != [] && ReadSpec(specs[0]) == Some((field, desc))
    && forall i | 1 <= i < |specs| :: SortPlans.Ignored(specs[i])
  }

  ghost predicate AllTexts(all: set<Scored<Value>>, field: Text) {
    forall x | x in all :: FieldOf(x.value, field).Some? && FieldOf(x.value, field).value.Str?
  }

  function TextOf(d: Value, field: Text): Text {
    match FieldOf(d, field) case Some(Str(s)) => s case _ => []
  }

  /** By one field of texts: never falling in byte order, never rising for `desc`, ties by key. */
  method TopByText(h: Host, col: Collection, keep: (Text, Bytes) -> bool, specs: seq<Value>, field: Text, desc: bool, cap: nat, p: Plan)
    returns (r: seq<Scored<Value>>)
    requires Decimal(h) && Partition(p) && PlanKeys(p) == col.Keys
    requires OneName(specs, field, desc) && AllTexts(Matching(col, keep), field)
    ensures |r| == Min(cap, |Matching(col, keep)|) && forall i | 0 <= i < |r| :: r[i] in Matching(col, keep)
    ensures forall i, j | 0 <= i < j < |r| ::
              var x, y := TextOf(r[i].value, field), TextOf(r[j].value, field);
              if x == y then TextBefore(r[i].key, r[j].key) else if desc then TextBefore(y, x) else TextBefore(x, y)
    ensures forall i, m | 0 <= i < |r| && m in Matching(col, keep) && m !in r ::
              var x, y := TextOf(r[i].value, field), TextOf(m.value, field);
              if x == y then TextBefore(r[i].key, m.key) else if desc then TextBefore(y, x) else TextBefore(x, y)
  {
    hide Decimal, Partition, PlanKeys, GoesBefore, OneName, Matching, TextOf, TextBefore, FieldOf, Min;
    ghost var all := Matching(col, keep);
    r := TopBySort(h, col, keep, specs, cap, p);
    forall a, b | a in all && b in all && GoesBefore(h, specs, a, b)
      ensures var x, y := TextOf(a.value, field), TextOf(b.value, field);
              if x == y then TextBefore(a.key, b.key) else if desc then TextBefore(y, x) else TextBefore(x, y)
    {
      ByOneText(h, specs, field, desc, a, b);
    }
  }

  lemma ByOneText(h: Host, specs: seq<Value>, field: Text, desc: bool, a: Scored<Value>, b: Scored<Value>)
    requires OneName(specs, field, desc) && GoesBefore(h, specs, a, b)
    requires FieldOf(a.value, field).Some? && FieldOf(a.value, field).value.Str?
    requires FieldOf(b.value, field).Some? && FieldOf(b.value, field).value.Str?
    ensures var x, y := TextOf(a.value, field), TextOf(b.value, field);
            if x == y then TextBefore(a.key, b.key) else if desc then TextBefore(y, x) else TextBefore(x, y)
  {
    hide ReadSpec, TextBefore, FieldOf;
    assert !SortPlans.Ignored(specs[0]);
    var x, y := TextOf(a.value, field), TextOf(b.value, field);
    NotBeforeItself(x);
    if i: nat :| DecidedAt(h, specs, a.value, b.value, i) {
      assert i == 0;
      assert EntryBefore(h, specs[0], a.value, b.value);
    } else {
      assert EntryTies(h, specs[0], a.value, b.value);
    }
  }

  lemma NotBeforeItself(x: Text)
    ensures !TextBefore(x, x)
  {
    hide Less;
    LessMeaning(x, x);
    LessTrichotomy(x, x);
  }
}
