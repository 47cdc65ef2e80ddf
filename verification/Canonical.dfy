/** Laws of the canonical form: storing and reading back is idempotent, keeps values storable,
    and resolves two spellings of a system key in favour of the later one. */
module Canonical {
  import opened Bytes
  import opened Json
  import opened Codec

  predicate IsCanon(v: Value)
    decreases v, 1
  {
    match v
    case Arr(items) => AreCanon(items)
    case Obj(fs) => Ordered(fs) && CanonAll(fs)
    case _ => true
  }

  predicate AreCanon(items: seq<Value>)
    decreases items, 0
  {
    items == [] || (IsCanon(items[0]) && AreCanon(items[1..]))
  }

  predicate CanonAll(fs: seq<Field>)
    decreases fs, 0
  {
    fs == [] || (CanonKey(fs[0].key) == fs[0].key && IsCanon(fs[0].val) && CanonAll(fs[1..]))
  }

  lemma {:induction false} CanonAllInsert(fs: seq<Field>, k: Text, v: Value)
    requires CanonAll(fs) && CanonKey(k) == k && IsCanon(v)
    ensures CanonAll(Insert(fs, k, v))
  {
    if fs == [] {
    } else if fs[0].key == k {
      assert Insert(fs, k, v)[1..] == fs[1..];
    } else if Less(k, fs[0].key) {
      assert Insert(fs, k, v)[1..] == fs;
    } else {
      CanonAllInsert(fs[1..], k, v);
      assert Insert(fs, k, v)[1..] == Insert(fs[1..], k, v);
    }
  }

  lemma {:induction false} CanonIsCanon(v: Value)
    ensures IsCanon(Canon(v))
    decreases v, 1
  {
    match v
    case Arr(items) => CanonItemsAreCanon(items);
    case Obj(fs) => CanonFieldsAreCanon([], fs);
    case _ =>
  }

  lemma {:induction false} CanonItemsAreCanon(items: seq<Value>)
    ensures AreCanon(CanonItems(items))
    decreases items, 0
  {
    if items != [] {
      CanonIsCanon(items[0]);
      CanonItemsAreCanon(items[1..]);
      assert CanonItems(items)[1..] == CanonItems(items[1..]);
    }
  }

  lemma {:induction false} CanonFieldsAreCanon(acc: seq<Field>, fs: seq<Field>)
    requires Ordered(acc) && CanonAll(acc)
    ensures Ordered(CanonFields(acc, fs)) && CanonAll(CanonFields(acc, fs))
    ensures |CanonFields(acc, fs)| <= |acc| + |fs|
    decreases fs, 0
  {
    if fs != [] {
      var k, v := CanonKey(fs[0].key), Canon(fs[0].val);
      CanonIsCanon(fs[0].val);
      CanonKeyIdempotent(fs[0].key);
      CanonAllInsert(acc, k, v);
      InsertLaws(acc, k, v);
      CanonFieldsAreCanon(Insert(acc, k, v), fs[1..]);
    }
  }

  /** A canonical value reads back unchanged. */
  lemma {:induction false} CanonFixed(v: Value)
    requires IsCanon(v)
    ensures Canon(v) == v
    decreases v, 1
  {
    match v
    case Arr(items) => CanonItemsFixed(items);
    case Obj(fs) =>
      CanonFieldsFixed([], fs);
      assert [] + fs == fs;
    case _ =>
  }

  lemma {:induction false} CanonItemsFixed(items: seq<Value>)
    requires AreCanon(items)
    ensures CanonItems(items) == items
    decreases items, 0
  {
    if items != [] {
      CanonFixed(items[0]);
      CanonItemsFixed(items[1..]);
    }
  }

  lemma {:induction false} CanonFieldsFixed(acc: seq<Field>, fs: seq<Field>)
    requires Ordered(acc + fs) && CanonAll(fs)
    ensures CanonFields(acc, fs) == acc + fs
    decreases fs, 0
  {
    if fs == [] {
      assert acc + fs == acc;
    } else {
      CanonFixed(fs[0].val);
      forall i | 0 <= i < |acc| ensures Less(acc[i].key, fs[0].key) {
        assert (acc + fs)[i] == acc[i] && (acc + fs)[|acc|] == fs[0];
      }
      InsertAtEnd(acc, fs[0].key, fs[0].val);
      var acc' := acc + [fs[0]];
      assert acc' + fs[1..] == acc + fs;
      CanonFieldsFixed(acc', fs[1..]);
    }
  }

  lemma CanonIdempotent(v: Value)
    ensures Canon(Canon(v)) == Canon(v)
  {
    CanonIsCanon(v);
    CanonFixed(Canon(v));
  }

  // ----- Canonicalising keeps a value storable -----

  lemma TokenTextStorable(t: nat)
    requires 1 <= t <= 6
    ensures StorableText(TokenText(t))
  {
    AsciiIsUtf8(TokenText(t));
  }

  lemma {:induction false} StorableInsert(fs: seq<Field>, k: Text, v: Value)
    requires StorableFields(fs) && StorableText(k) && Storable(v)
    ensures StorableFields(Insert(fs, k, v))
  {
    if fs == [] {
    } else if fs[0].key == k {
      assert Insert(fs, k, v)[1..] == fs[1..];
    } else if Less(k, fs[0].key) {
      assert Insert(fs, k, v)[1..] == fs;
    } else {
      StorableInsert(fs[1..], k, v);
      assert Insert(fs, k, v)[1..] == Insert(fs[1..], k, v);
    }
  }

  lemma {:induction false} CanonStorable(v: Value)
    requires Storable(v)
    ensures Storable(Canon(v))
    decreases v, 1
  {
    match v
    case Arr(items) => CanonItemsStorable(items);
    case Obj(fs) =>
      CanonFieldsStorable([], fs);
      CanonFieldsAreCanon([], fs);
    case _ =>
  }

  lemma {:induction false} CanonItemsStorable(items: seq<Value>)
    requires StorableItems(items)
    ensures StorableItems(CanonItems(items))
    decreases items, 0
  {
    if items != [] {
      CanonStorable(items[0]);
      CanonItemsStorable(items[1..]);
      assert CanonItems(items)[1..] == CanonItems(items[1..]);
    }
  }

  lemma {:induction false} CanonFieldsStorable(acc: seq<Field>, fs: seq<Field>)
    requires StorableFields(acc) && StorableFields(fs)
    ensures StorableFields(CanonFields(acc, fs))
    decreases fs, 0
  {
    if fs != [] {
      var k := fs[0].key;
      CanonStorable(fs[0].val);
      if TokenOf(k) != 0 { TokenTextStorable(TokenOf(k)); }
      StorableInsert(acc, CanonKey(k), Canon(fs[0].val));
      CanonFieldsStorable(Insert(acc, CanonKey(k), Canon(fs[0].val)), fs[1..]);
    }
  }

  // ----- Lookup in a value that was stored and read back -----

  /** The value of the last field whose stored key is `k`. */
  function LastStored(fs: seq<Field>, k: Text): Option<Value> {
    if fs == [] then None
    else if LastStored(fs[1..], k).Some? then LastStored(fs[1..], k)
    else if CanonKey(fs[0].key) == k then Some(fs[0].val)
    else None
  }

  /** Reading back is last-wins. */
  lemma {:induction false} LookupCanonFields(acc: seq<Field>, fs: seq<Field>, k: Text)
    ensures Lookup(CanonFields(acc, fs), k)
         == match LastStored(fs, k) case Some(v) => Some(Canon(v)) case None => Lookup(acc, k)
    decreases fs
  {
    if fs != [] {
      var acc' := Insert(acc, CanonKey(fs[0].key), Canon(fs[0].val));
      LookupCanonFields(acc', fs[1..], k);
      LookupInsert(acc, CanonKey(fs[0].key), Canon(fs[0].val), k);
    }
  }

  lemma {:induction false} LastStoredOfKey(fs: seq<Field>, i: nat)
    requires i < |fs|
    requires forall j | i < j < |fs| :: CanonKey(fs[j].key) != CanonKey(fs[i].key)
    ensures LastStored(fs, CanonKey(fs[i].key)) == Some(fs[i].val)
  {
    if i == 0 {
      LastStoredNone(fs[1..], CanonKey(fs[0].key));
    } else {
      LastStoredOfKey(fs[1..], i - 1);
    }
  }

  lemma {:induction false} LastStoredNone(fs: seq<Field>, k: Text)
    requires forall j | 0 <= j < |fs| :: CanonKey(fs[j].key) != k
    ensures LastStored(fs, k) == None
  {
    if fs != [] {
      LastStoredNone(fs[1..], k);
    }
  }

  /** With no second spelling of `k` among the keys, reading back finds what was put in. */
  lemma {:induction false} LastStoredUnique(fs: seq<Field>, k: Text)
    requires Ordered(fs) && CanonKey(k) == k
    requires forall j | 0 <= j < |fs| && CanonKey(fs[j].key) == k :: fs[j].key == k
    ensures LastStored(fs, k) == Lookup(fs, k)
  {
    if fs != [] {
      LastStoredUnique(fs[1..], k);
      if fs[0].key == k {
        forall j | 0 <= j < |fs| - 1 ensures CanonKey(fs[1..][j].key) != k {
          LessTrichotomy(fs[0].key, fs[j + 1].key);
        }
        LastStoredNone(fs[1..], k);
      }
    }
  }

  // ----- Key order -----

  lemma {:induction false} CanonicalOrder(v: Value)
    requires IsCanon(v)
    ensures WellOrdered(v)
    decreases v, 1
  {
    match v
    case Arr(items) => CanonicalItemsOrder(items);
    case Obj(fs) => CanonicalFieldsOrder(fs);
    case _ =>
  }

  lemma {:induction false} CanonicalItemsOrder(items: seq<Value>)
    requires AreCanon(items)
    ensures ItemsWellOrdered(items)
    decreases items, 0
  {
    if items != [] {
      CanonicalOrder(items[0]);
      CanonicalItemsOrder(items[1..]);
    }
  }

  lemma {:induction false} CanonicalFieldsOrder(fs: seq<Field>)
    requires CanonAll(fs)
    ensures FieldsWellOrdered(fs)
    decreases fs, 0
  {
    if fs != [] {
      CanonicalOrder(fs[0].val);
      CanonicalFieldsOrder(fs[1..]);
    }
  }

  lemma {:induction false} InsertWellOrdered(fs: seq<Field>, k: Text, v: Value)
    requires FieldsWellOrdered(fs) && WellOrdered(v)
    ensures FieldsWellOrdered(Insert(fs, k, v))
  {
    if fs == [] {
    } else if fs[0].key == k {
      assert Insert(fs, k, v)[1..] == fs[1..];
    } else if Less(k, fs[0].key) {
      assert Insert(fs, k, v)[1..] == fs;
    } else {
      InsertWellOrdered(fs[1..], k, v);
      assert Insert(fs, k, v)[1..] == Insert(fs[1..], k, v);
    }
  }
}
