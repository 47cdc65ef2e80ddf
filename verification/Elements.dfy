/** `$contains` over an array: the walk over its bytes, and exactly when it agrees with the decoded
    array. */
module Elements {
  import opened Bytes
  import opened Json
  import opened Codec
  import opened Canonical
  import opened Tokens
  import opened LogCodec
  import opened Walker
  import opened Where
  import opened Agreement

  // ----- The walk over strings -----

  /** Some string of the list holds the lowered needle. */
  predicate SomeHolds(h: Host, items: seq<Value>, needle: Text) {
    items != [] && ((items[0].Str? && Infix(needle, h.lower(items[0].s))) || SomeHolds(h, items[1..], needle))
  }

  /** Where the cursor stands after `n` elements none of which was a hit. */
  function WalkEnd(s: Bytes, n: nat): Bytes
    decreases n
  {
    if n == 0 then s
    else var (x, rest) := TakeString(s); WalkEnd(if x.Some? then rest else SkipOrEnd(rest), n - 1)
  }

  lemma StringTaken(x: Text, more: Bytes)
    requires StorableText(x)
    ensures TakeString(EncodeText(x) + more) == (Some(x), more)
  {
    hide TextAfter, EncodeText;
    TextHeaderRoundTrip(x, more);
    TextFirstByte(x, more);
  }

  lemma ItemsUnfold(items: seq<Value>, tail: Bytes)
    requires items != []
    ensures EncodeItems(items) + tail == Encode(items[0]) + (EncodeItems(items[1..]) + tail)
  {
    hide Encode;
  }

  /** A string, or a value whose bytes behind the marker byte are exactly one value again: the walk
      skips one value from there. */
  predicate KeepsPlace(e: Value) {
    e.Str? || (Encode(e) != [] && Skip(Encode(e)[1..]) == Some([]))
  }

  predicate InPlace(items: seq<Value>) {
    forall i | 0 <= i < |items| :: KeepsPlace(items[i])
  }

  // What is skipped does not depend on what follows it.

  lemma DropExtend(s: Bytes, n: nat, more: Bytes)
    requires n <= |s|
    ensures Drop(s + more, n) == Some(s[n..] + more)
  {
    assert (s + more)[n..] == s[n..] + more;
  }

  lemma UintExtend(s: Bytes, n: nat, more: Bytes)
    requires n <= |s|
    ensures Uint(s + more, n) == Got(Uint(s, n).val, s[n..] + more)
  {
    assert (s + more)[n..] == s[n..] + more && (s + more)[..n] == s[..n];
  }

  lemma SizedExtend(s: Bytes, n: nat, extra: nat, more: Bytes)
    requires DropSized(s, n, extra).Some?
    ensures DropSized(s + more, n, extra) == Some(DropSized(s, n, extra).value + more)
  {
    hide Uint;
    UintExtend(s, n, more);
    DropExtend(s[n..], Uint(s, n).val + extra, more);
  }

  lemma PlainExtend(b: byte, t: Bytes, more: Bytes)
    requires SkipPlain(b, t).Some?
    ensures SkipPlain(b, t + more) == Some(SkipPlain(b, t).value + more)
  {
    hide DropSized, Drop;
    if FixedSize(b).Some? {
      FixedExtend(t, FixedSize(b).value, more);
    } else if 0xa0 <= b <= 0xbf {
      FixedExtend(t, b - 0xa0, more);
    } else {
      var n := if b == 0xd9 || b == 0xc4 || b == 0xc7 then 1 else if b == 0xda || b == 0xc5 || b == 0xc8 then 2 else 4;
      SizedExtend(t, n, if b == 0xc7 || b == 0xc8 || b == 0xc9 then 1 else 0, more);
    }
  }

  lemma FixedExtend(t: Bytes, n: nat, more: Bytes)
    requires Drop(t, n).Some?
    ensures Drop(t + more, n) == Some(Drop(t, n).value + more)
  {
    DropExtend(t, n, more);
  }

  lemma ArrCountExtend(b: byte, t: Bytes, more: Bytes)
    requires ArrCount(b, t).Got?
    ensures ArrCount(b, t + more) == Got(ArrCount(b, t).val, ArrCount(b, t).rest + more)
  {
    hide Uint;
    if b == 0xdc { UintExtend(t, 2, more); } else if b == 0xdd { UintExtend(t, 4, more); }
  }

  lemma MapCountExtend(b: byte, t: Bytes, more: Bytes)
    requires MapCount(b, t).Got?
    ensures MapCount(b, t + more) == Got(MapCount(b, t).val, MapCount(b, t).rest + more)
  {
    hide Uint;
    if b == 0xde { UintExtend(t, 2, more); } else if b == 0xdf { UintExtend(t, 4, more); }
  }

  lemma {:induction false} SkipExtend(s: Bytes, more: Bytes)
    requires Skip(s).Some?
    ensures Skip(s + more) == Some(Skip(s).value + more)
    decreases |s|, 0
  {
    hide ArrCount, MapCount, SkipPlain, SkipMany, SkipEntries;
    var b, t := s[0], s[1..];
    assert (s + more)[0] == b && (s + more)[1..] == t + more;
    if IsArrMarker(b) {
      ArrCountExtend(b, t, more);
      SkipManyExtend(ArrCount(b, t).rest, ArrCount(b, t).val, more);
    } else if IsMapMarker(b) {
      MapCountExtend(b, t, more);
      SkipEntriesExtend(MapCount(b, t).rest, MapCount(b, t).val, more);
    } else {
      PlainExtend(b, t, more);
    }
  }

  lemma {:induction false} SkipManyExtend(s: Bytes, n: nat, more: Bytes)
    requires SkipMany(s, n).Some?
    ensures SkipMany(s + more, n) == Some(SkipMany(s, n).value + more)
    decreases |s|, 1
  {
    hide Skip;
    if n > 0 {
      SkipExtend(s, more);
      SkipManyExtend(Skip(s).value, n - 1, more);
    }
  }

  lemma {:induction false} SkipEntriesExtend(s: Bytes, n: nat, more: Bytes)
    requires SkipEntries(s, n).Some?
    ensures SkipEntries(s + more, n) == Some(SkipEntries(s, n).value + more)
    decreases |s|, 1
  {
    hide Skip;
    if n > 0 {
      var t := Skip(s).value;
      SkipExtend(s, more);
      SkipExtend(t, more);
      SkipEntriesExtend(Skip(t).value, n - 1, more);
    }
  }

  /** No element but a string starts with a string marker. */
  lemma OtherMarker(e: Value)
    requires Storable(e) && !e.Str?
    ensures Encode(e) != [] && !IsTextMarker(Encode(e)[0])
  {
    hide BigEndian, EncodeItems, EncodeFields, StorableItems, StorableFields;
  }

  /** The walk goes over such an element exactly. */
  lemma KeepsPlaceStep(e: Value, more: Bytes)
    requires Storable(e) && KeepsPlace(e)
    ensures var (x, rest) := TakeString(Encode(e) + more);
            x == (if e.Str? then Some(e.s) else None) && (if x.Some? then rest else SkipOrEnd(rest)) == more
  {
    hide Encode, Skip, TextAfter;
    if e.Str? {
      StringBytes(e);
      StringTaken(e.s, more);
    } else {
      OtherMarker(e);
      var t := Encode(e)[1..];
      assert (Encode(e) + more)[1..] == t + more && (Encode(e) + more)[0] == Encode(e)[0];
      SkipExtend(t, more);
      assert [] + more == more;
    }
  }

  lemma StringBytes(e: Value)
    requires e.Str? && Storable(e)
    ensures Encode(e) == EncodeText(e.s) && StorableText(e.s)
  {
  }

  /** Over elements that keep their place the walk ends exactly behind the array. */
  lemma {:induction false} WalkInside(items: seq<Value>, tail: Bytes)
    requires InPlace(items) && StorableItems(items)
    ensures WalkEnd(EncodeItems(items) + tail, |items|) == tail
  {
    hide TakeString, Encode, SkipOrEnd, KeepsPlace, Storable;
    if items == [] {
      assert EncodeItems(items) + tail == tail;
    } else {
      ItemsUnfold(items, tail);
      KeepsPlaceStep(items[0], EncodeItems(items[1..]) + tail);
      WalkInside(items[1..], tail);
      assert |items[1..]| == |items| - 1;
    }
  }

  /** ... and reads exactly the strings among the elements. */
  lemma {:induction false} WalkReads(h: Host, items: seq<Value>, tail: Bytes, needle: Text)
    requires InPlace(items) && StorableItems(items)
    ensures ElementHit(h, EncodeItems(items) + tail, |items|, needle) <==> SomeHolds(h, items, needle)
  {
    hide TakeString, Encode, Infix, SkipOrEnd, KeepsPlace, Storable;
    if items != [] {
      ItemsUnfold(items, tail);
      KeepsPlaceStep(items[0], EncodeItems(items[1..]) + tail);
      WalkReads(h, items[1..], tail, needle);
      assert |items[1..]| == |items| - 1;
    }
  }

  lemma StringsInPlace(items: seq<Value>)
    requires AllStrings(items)
    ensures InPlace(items)
  {
    hide Encode, Skip;
    StringsAt(items);
  }

  lemma {:induction false} StringsAt(items: seq<Value>)
    requires AllStrings(items)
    ensures forall i | 0 <= i < |items| :: items[i].Str?
  {
    if items != [] {
      StringsAt(items[1..]);
      assert forall i | 1 <= i < |items| :: items[i] == items[1..][i - 1];
    }
  }

  /** A list of one element keeps its place, whatever the element: the walk skips that element. */
  lemma SingletonInPlace(x: Value)
    requires Storable(x)
    ensures KeepsPlace(Arr([x]))
  {
    hide Skip, Encode, Storable;
    SingletonBytes(x);
    SkipEncoded(x, []);
    assert Encode(x) + [] == Encode(x);
    assert ([0x91] + Encode(x))[1..] == Encode(x);
  }

  lemma SingletonBytes(x: Value)
    ensures Encode(Arr([x])) == [0x91] + Encode(x)
  {
    var items := [x];
    assert items[1..] == [];
    assert EncodeItems(items) == Encode(x) + EncodeItems([]);
  }

  /** An integer of two bytes keeps its place exactly when its second byte is a value of one byte. */
  lemma ByteInPlace(n: nat)
    requires 128 <= n < 256
    ensures KeepsPlace(Num(PosInt(n))) <==> n in {128, 144, 160, 192, 194, 195} || 224 <= n
  {
    assert Encode(Num(PosInt(n))) == [0xcc, n];
    var t: Bytes := [0xcc, n];
    assert t[1..] == [n];
    SkipOneByte(n);
  }

  lemma SkipOneByte(b: byte)
    requires 128 <= b
    ensures Skip([b]) == Some([]) <==> b in {128, 144, 160, 192, 194, 195} || 224 <= b
  {
    var s: Bytes := [b];
    assert s[1..] == [];
    assert Skip([]) == None;
    if IsArrMarker(b) {
      assert ArrCount(b, []).Got? ==> SkipMany([], ArrCount(b, []).val).Some? == (b == 144);
    } else if IsMapMarker(b) {
      assert MapCount(b, []).Got? ==> SkipEntries([], MapCount(b, []).val).Some? == (b == 128);
    } else {
      SkipStep(s);
    }
  }

  lemma ArrUnfold(items: seq<Value>, tail: Bytes)
    ensures Encode(Arr(items)) + tail == ArrHeader(|items|) + (EncodeItems(items) + tail)
  {
    hide ArrHeader, EncodeItems;
  }

  /** The raw test on an array is the walk over its elements. */
  lemma RawContains(h: Host, items: seq<Value>, tail: Bytes, needle: Text)
    requires Storable(Arr(items))
    ensures RawTest(h, Encode(Arr(items)) + tail, Contains, Str(needle))
         == Some(ElementHit(h, EncodeItems(items) + tail, |items|, h.lower(needle)))
  {
    hide Encode, EncodeItems, TakeString, ElementHit, ArrHeader, ArrCount, Infix, StorableItems;
    TakeStringEncoded(Arr(items), tail);
    ArrUnfold(items, tail);
    ArrCountRoundTrip(|items|, EncodeItems(items) + tail);
    ArrHeaderNonEmpty(|items|);
  }

  lemma ArrHeaderNonEmpty(n: nat)
    ensures ArrHeader(n) != []
  {
  }

  // ----- The decoded array -----

  /** A string of the array is the same string for the client, and nothing else becomes a string. */
  lemma {:induction false} PublicStrings(items: seq<Value>, n: Text)
    ensures Str(n) in ExpandItems(CanonItems(items)) <==> Str(n) in items
  {
    if items != [] {
      PublicStrings(items[1..], n);
      assert items == [items[0]] + items[1..];
      assert CanonItems(items)[0] == Canon(items[0]) && CanonItems(items)[1..] == CanonItems(items[1..]);
    }
  }

  lemma {:induction false} HasString(h: Host, items: seq<Value>, n: Text)
    ensures HasItem(h, items, Str(n)) <==> Str(n) in items
  {
    if items != [] {
      HasString(h, items[1..], n);
      assert items == [items[0]] + items[1..];
    }
  }

  lemma {:induction false} EqualHolds(h: Host, items: seq<Value>, n: Text)
    requires Str(n) in items
    ensures SomeHolds(h, items, h.lower(n))
  {
    hide Infix;
    assert items == [items[0]] + items[1..];
    if items[0] == Str(n) {
      InfixSelf(h.lower(n));
    } else {
      EqualHolds(h, items[1..], n);
    }
  }

  lemma InfixSelf(s: Text)
    ensures Infix(s, s)
  {
    assert s[..|s|] == s;
  }

  /** For every array whose elements keep their place: on bytes some string must contain the needle,
      decoded some element must equal it; so the two agree if and only if no string merely contains it
      or one equals it. */
  lemma ArrayContains(h: Host, items: seq<Value>, tail: Bytes, n: Text)
    requires InPlace(items) && Storable(Arr(items))
    ensures var raw := RawTest(h, Encode(Arr(items)) + tail, Contains, Str(n));
            var doc := DocTest(h, Public(Arr(items)), Some(Contains), Str(n));
            && raw == Some(SomeHolds(h, items, h.lower(n)))
            && doc == Ok(Str(n) in items)
            && (raw == Some(doc.b) <==> !SomeHolds(h, items, h.lower(n)) || Str(n) in items)
  {
    hide Encode, EncodeItems, ElementHit, SomeHolds, RawTest, HasItem, CanonItems, ExpandItems, InPlace, StorableItems;
    RawContains(h, items, tail, n);
    WalkReads(h, items, tail, h.lower(n));
    PublicStrings(items, n);
    HasString(h, ExpandItems(CanonItems(items)), n);
    if Str(n) in items { EqualHolds(h, items, n); }
  }

  // ----- Other elements -----

  /** A value of one byte: null, a boolean or a small integer. */
  predicate OneByteValue(v: Value) {
    Storable(v) && |Encode(v)| == 1 && !v.Str?
  }

  lemma OneByteTaken(e: Value, body: Bytes)
    requires OneByteValue(e)
    ensures TakeString(Encode(e) + body) == (None, body)
  {
    hide Encode, Storable, TextAfter;
    OneByteMarker(e, body);
    assert (Encode(e) + body)[1..] == body;
  }

  /** After such an element the next value is swallowed without being looked at; behind the last
      element that is the next key of the document, and the walk runs on past the array. */
  lemma OneByteSwallows(h: Host, e: Value, x: Value, more: Bytes, n: nat, needle: Text)
    requires OneByteValue(e) && Storable(x)
    ensures ElementHit(h, Encode(e) + (Encode(x) + more), n + 1, needle) <==> ElementHit(h, more, n, needle)
    ensures WalkEnd(Encode(e) + (Encode(x) + more), n + 1) == WalkEnd(more, n)
  {
    hide Encode, Storable, Infix, Skip, TakeString;
    OneByteTaken(e, Encode(x) + more);
    SkipEncoded(x, more);
    assert n + 1 - 1 == n;
  }

  lemma OneByteMarker(e: Value, more: Bytes)
    requires OneByteValue(e)
    ensures !IsTextMarker((Encode(e) + more)[0])
  {
    hide BigEndian, EncodeItems, EncodeFields, StorableItems, StorableFields;
  }

  predicate Simple(v: Value) {
    (v.Str? && Storable(v)) || OneByteValue(v)
  }

  predicate AllSimple(items: seq<Value>) {
    forall i | 0 <= i < |items| :: Simple(items[i])
  }

  /** `n` steps of the walk over a list of simple values: a string is one value further, anything
      else two. */
  lemma {:induction false} WalkList(items: seq<Value>, n: nat) returns (m: nat)
    requires AllSimple(items) && 2 * n <= |items|
    ensures n <= m <= 2 * n && WalkEnd(EncodeItems(items), n) == EncodeItems(items[m..])
    ensures m == n <==> AllStrings(items[..n])
    decreases n
  {
    hide Encode, TakeString, EncodeItems, Storable, SkipOrEnd;
    if n == 0 {
      m := 0;
      assert items[0..] == items;
    } else {
      var more := EncodeItems(items[1..]);
      ItemsSplit(items);
      assert Simple(items[0]) && Simple(items[1]);
      assert items[..n][0] == items[0] && items[..n][1..] == items[1..][..n - 1];
      if items[0].Str? {
        StringStep(items[0], more, n - 1);
        m := WalkList(items[1..], n - 1);
        assert items[1..][m..] == items[m + 1..];
        m := m + 1;
      } else {
        ItemsSplit(items[1..]);
        assert items[1..][1..] == items[2..];
        SimpleStorable(items[1]);
        OneByteStep(items[0], items[1], EncodeItems(items[2..]), n - 1);
        m := WalkList(items[2..], n - 1);
        assert items[2..][m..] == items[m + 2..];
        m := m + 2;
      }
    }
  }

  lemma ItemsSplit(items: seq<Value>)
    requires items != []
    ensures EncodeItems(items) == Encode(items[0]) + EncodeItems(items[1..])
  {
    hide Encode;
  }

  lemma SimpleStorable(v: Value)
    requires Simple(v)
    ensures Storable(v)
  {
    hide Encode, Storable;
  }

  lemma StringStep(v: Value, more: Bytes, n: nat)
    requires v.Str? && Storable(v)
    ensures WalkEnd(Encode(v) + more, n + 1) == WalkEnd(more, n)
  {
    hide TakeString, EncodeText;
    StringTaken(v.s, more);
    assert n + 1 - 1 == n;
  }

  lemma OneByteStep(e: Value, x: Value, more: Bytes, n: nat)
    requires OneByteValue(e) && Storable(x)
    ensures WalkEnd(Encode(e) + (Encode(x) + more), n + 1) == WalkEnd(more, n)
  {
    hide Encode, Storable, Skip, TakeString;
    OneByteTaken(e, Encode(x) + more);
    SkipEncoded(x, more);
    assert n + 1 - 1 == n;
  }

  /** Over strings and one-byte values the walk stays inside the array, whatever follows it, if and
      only if every element is a string. */
  lemma WalkStaysIff(items: seq<Value>)
    requires AllSimple(items)
    ensures (forall tail :: WalkEnd(EncodeItems(items) + tail, |items|) == tail) <==> AllStrings(items)
  {
    hide Encode, EncodeItems, WalkEnd, Simple;
    if AllStrings(items) {
      SimpleItems(items);
      StringsInPlace(items);
      forall tail ensures WalkEnd(EncodeItems(items) + tail, |items|) == tail {
        WalkInside(items, tail);
      }
    } else {
      var n := |items|;
      var nulls := seq(n, i => Null);
      var all := items + nulls;
      NullSimple();
      assert AllSimple(all);
      var m := WalkList(all, n);
      assert all[..n] == items && all[n..] == nulls;
      ItemsConcat(items, nulls);
      assert all[m..] == nulls[m - n..];
      ItemsConcat(nulls[..m - n], nulls[m - n..]);
      assert nulls == nulls[..m - n] + nulls[m - n..];
      NullBytes(nulls[..m - n]);
      assert WalkEnd(EncodeItems(items) + EncodeItems(nulls), n) != EncodeItems(nulls);
    }
  }

  lemma NullSimple()
    ensures Simple(Null)
  {
  }

  lemma {:induction false} NullBytes(vs: seq<Value>)
    requires forall i | 0 <= i < |vs| :: vs[i] == Null
    ensures |EncodeItems(vs)| == |vs|
  {
    if vs != [] { NullBytes(vs[1..]); }
  }

  lemma NoItemBytes()
    ensures EncodeItems([]) == []
  {
  }

  lemma {:induction false} ItemsConcat(a: seq<Value>, b: seq<Value>)
    ensures EncodeItems(a + b) == EncodeItems(a) + EncodeItems(b)
  {
    hide Encode, EncodeItems;
    if a == [] {
      assert a + b == b;
      assert EncodeItems(a) == [] by { NoItemBytes(); }
    } else {
      ItemsConcat(a[1..], b);
      ItemsSplit(a);
      ItemsSplit(a + b);
      assert (a + b)[1..] == a[1..] + b;
    }
  }

  lemma {:induction false} SimpleItems(items: seq<Value>)
    requires AllSimple(items)
    ensures StorableItems(items)
  {
    hide Encode;
    if items != [] {
      assert Simple(items[0]);
      SimpleItems(items[1..]);
    }
  }

  const FIELD_B: Text := [0x62]

  /** `{a: [1, 2], b: "x"}`. */
  function Stray(): Value {
    Obj([Field(FIELD_A, Arr([Num(PosInt(1)), Num(PosInt(2))])), Field(FIELD_B, Str([0x78]))])
  }

  /** It passes `{a: {$contains: "b"}}` on bytes, because the walk reads the key of the next field,
      and fails it once decoded. */
  lemma StrayWalk(h: Host)
    requires h.lower(FIELD_B) == FIELD_B
    ensures var q := Obj([Field(CONTAINS, Str(FIELD_B))]);
            RawCondition(h, Encode(Stray()), FIELD_A, q) && DocCondition(h, Public(Stray()), FIELD_A, q) == Ok(false)
  {
    hide Encode, Predicate, Public, ParseOperator, Split, Storable, WellOrdered, PlainPath, RawTest, DocTest, Nested;
    var q := Obj([Field(CONTAINS, Str(FIELD_B))]);
    var x := Arr([Num(PosInt(1)), Num(PosInt(2))]);
    StrayPath();
    StrayBytes();
    ContainsParses();
    StrayHit(h);
    StrayPublic(h);
    var tail := PredicateAt(h, Stray(), FIELD_A, CONTAINS, Str(FIELD_B));
    StrayPredicate(h);
    assert q.fields[1..] == [];
    assert RawOps(h, Encode(Stray()), FIELD_A, q.fields);
    assert DocOps(h, Public(x), q.fields) == Ok(false);
  }

  lemma StrayPath()
    ensures Storable(Stray()) && WellOrdered(Stray()) && PlainPath(Split(FIELD_A)) && Split(FIELD_A) == [FIELD_A]
    ensures Nested(Stray(), Split(FIELD_A)) == Some(Arr([Num(PosInt(1)), Num(PosInt(2))]))
  {
    var items := [Num(PosInt(1)), Num(PosInt(2))];
    var fs := Stray().fields;
    SplitPlain(FIELD_A);
    AsciiIsUtf8(FIELD_A);
    AsciiIsUtf8(FIELD_B);
    AsciiIsUtf8([0x78]);
    assert items[1..] == [Num(PosInt(2))] && items[1..][1..] == [];
    assert StorableItems(items[1..][1..]) && ItemsWellOrdered(items[1..][1..]);
    assert StorableItems(items[1..]) && ItemsWellOrdered(items[1..]);
    assert fs[1..] == [Field(FIELD_B, Str([0x78]))] && fs[1..][1..] == [];
    assert StorableFields(fs[1..][1..]) && FieldsWellOrdered(fs[1..][1..]);
    assert StorableFields(fs[1..]) && FieldsWellOrdered(fs[1..]);
    assert Less(FIELD_A, FIELD_B);
    assert Split(FIELD_A)[1..] == [];
  }

  /** What follows the array in the document: the key `b` and its value. */
  lemma StrayBytes()
    ensures EncodeFields(Stray().fields[1..]) == [0xa1, 0x62, 0xa1, 0x78]
  {
    var fs := Stray().fields[1..];
    assert fs == [Field(FIELD_B, Str([0x78]))] && fs[1..] == [];
    assert EncodeFields(fs) == EncodeKey(FIELD_B) + Encode(Str([0x78])) + EncodeFields([]);
  }

  lemma StrayPredicate(h: Host)
    requires RawTest(h, Encode(Arr([Num(PosInt(1)), Num(PosInt(2))])) + [0xa1, 0x62, 0xa1, 0x78], Contains, Str(FIELD_B)) == Some(true)
    ensures Predicate(h, Encode(Stray()), FIELD_A, CONTAINS, Str(FIELD_B)) == Some(true)
  {
    hide Encode, ParseOperator, RawTest, Find, Split, Storable, WellOrdered, PlainPath, ReadToken, EncodeFields;
    StrayPath();
    StrayBytes();
    ContainsParses();
    SystemPath(FIELD_A);
    FindEncoded(Stray(), [FIELD_A], []);
    assert Encode(Stray()) + [] == Encode(Stray());
    assert [0xa1, 0x62, 0xa1, 0x78] + [] == [0xa1, 0x62, 0xa1, 0x78];
    assert SystemToken(FIELD_A) == None;
  }

  lemma StrayHit(h: Host)
    requires h.lower(FIELD_B) == FIELD_B
    ensures RawTest(h, Encode(Arr([Num(PosInt(1)), Num(PosInt(2))])) + [0xa1, 0x62, 0xa1, 0x78], Contains, Str(FIELD_B)) == Some(true)
  {
    hide RawTest, ElementHit, Storable, Encode, EncodeItems, Infix, TakeString;
    var one, two := Num(PosInt(1)), Num(PosInt(2));
    var items, tail := [one, two], [0xa1, 0x62, 0xa1, 0x78];
    StrayItems(tail);
    RawContains(h, items, tail, FIELD_B);
    OneByteSwallows(h, one, two, tail, 1, FIELD_B);
    KeyHit(h);
  }

  lemma StrayItems(tail: Bytes)
    ensures var one, two := Num(PosInt(1)), Num(PosInt(2));
            && Storable(Arr([one, two])) && OneByteValue(one) && Storable(two)
            && EncodeItems([one, two]) + tail == Encode(one) + (Encode(two) + tail)
  {
    var one, two := Num(PosInt(1)), Num(PosInt(2));
    var items := [one, two];
    assert items[1..] == [two] && items[1..][1..] == [];
    assert StorableItems(items[1..][1..]) && StorableItems(items[1..]);
    assert EncodeItems(items[1..]) == Encode(two) + EncodeItems([]);
  }

  lemma KeyHit(h: Host)
    requires h.lower(FIELD_B) == FIELD_B
    ensures ElementHit(h, [0xa1, 0x62, 0xa1, 0x78], 1, FIELD_B)
  {
    hide TakeString, EncodeText;
    AsciiIsUtf8(FIELD_B);
    StringTaken(FIELD_B, [0xa1, 0x78]);
    assert EncodeText(FIELD_B) + [0xa1, 0x78] == [0xa1, 0x62, 0xa1, 0x78] by { EncodeB(); }
    InfixSelf(FIELD_B);
  }

  lemma EncodeB()
    ensures EncodeText(FIELD_B) == [0xa1, 0x62]
  {
  }

  lemma StrayPublic(h: Host)
    ensures DocTest(h, Public(Arr([Num(PosInt(1)), Num(PosInt(2))])), Some(Contains), Str(FIELD_B)) == Ok(false)
  {
    var items := [Num(PosInt(1)), Num(PosInt(2))];
    assert items[1..] == [Num(PosInt(2))] && items[1..][1..] == [];
    assert CanonItems(items[1..]) == [Num(PosInt(2))] + CanonItems([]);
    assert CanonItems(items) == items;
    assert ExpandItems(items[1..]) == [Num(PosInt(2))] + ExpandItems([]);
    assert ExpandItems(items) == items;
    assert !HasItem(h, items[1..][1..], Str(FIELD_B));
    assert !HasItem(h, items[1..], Str(FIELD_B));
  }
}
