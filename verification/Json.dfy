/** JSON values as the engine holds them: objects are key-ordered maps (serde_json without
    insertion order), system fields appear under their public names or under integer keys. */
module Json {
  import opened Bytes

  // ----- Values -----

  /** A finite IEEE-754 double, as its 64-bit pattern. */
  type FiniteDouble = b: u64 | (b / 0x10_0000_0000_0000) % 2048 != 2047

  type NegativeInt = i: int | -0x8000_0000_0000_0000 <= i < 0 witness -1

  datatype Number = PosInt(u: u64) | NegInt(i: NegativeInt) | Double(bits: FiniteDouble)

  datatype Field = Field(key: Text, val: Value)

  datatype Value =
    | Null
    | Bool(b: bool)
    | Num(n: Number)
    | Str(s: Text)
    | Arr(items: seq<Value>)
    | Obj(fields: seq<Field>)

  function AsU64(v: Value): Option<u64> {
    if v.Num? && v.n.PosInt? then Some(v.n.u) else None
  }

  // ----- Objects: key-ordered association sequences -----

  predicate Ordered(fs: seq<Field>) {
    forall i, j | 0 <= i < j < |fs| :: Less(fs[i].key, fs[j].key)
  }

  function Lookup(fs: seq<Field>, k: Text): Option<Value> {
    if fs == [] then None
    else if fs[0].key == k then Some(fs[0].val)
    else Lookup(fs[1..], k)
  }

  /** `Map::insert`: replaces the value of an existing key, keeps key order. */
  function Insert(fs: seq<Field>, k: Text, v: Value): seq<Field> {
    if fs == [] then [Field(k, v)]
    else if fs[0].key == k then [Field(k, v)] + fs[1..]
    else if Less(k, fs[0].key) then [Field(k, v)] + fs
    else [fs[0]] + Insert(fs[1..], k, v)
  }

  /** `Map::remove`. */
  function Remove(fs: seq<Field>, k: Text): seq<Field> {
    if fs == [] then []
    else if fs[0].key == k then fs[1..]
    else [fs[0]] + Remove(fs[1..], k)
  }

  function Get(v: Value, k: Text): Option<Value> {
    if v.Obj? then Lookup(v.fields, k) else None
  }

  function Keys(fs: seq<Field>): set<Text> {
    set i | 0 <= i < |fs| :: fs[i].key
  }

  lemma {:induction false} LookupKeys(fs: seq<Field>, k: Text)
    ensures Lookup(fs, k).Some? <==> k in Keys(fs)
  {
    if fs != [] {
      LookupKeys(fs[1..], k);
      assert Keys(fs) == {fs[0].key} + Keys(fs[1..]) by { KeysCons(fs); }
    }
  }

  lemma KeysCons(fs: seq<Field>)
    requires fs != []
    ensures Keys(fs) == {fs[0].key} + Keys(fs[1..])
  {
    forall k | k in Keys(fs)
      ensures k in {fs[0].key} + Keys(fs[1..])
    {
      var i :| 0 <= i < |fs| && fs[i].key == k;
      if i > 0 { assert fs[1..][i - 1].key == k; }
    }
    forall k | k in Keys(fs[1..])
      ensures k in Keys(fs)
    {
      var i :| 0 <= i < |fs| - 1 && fs[1..][i].key == k;
      assert fs[i + 1].key == k;
    }
  }

  lemma OneKey(k: Text, v: Value)
    ensures Keys([]) == {} && Keys([Field(k, v)]) == {k}
  {
    assert [Field(k, v)][0].key == k;
  }

  lemma KeyIn(fs: seq<Field>, i: nat)
    requires i < |fs|
    ensures fs[i].key in Keys(fs)
  {
  }

  lemma KeyAt(fs: seq<Field>, k: Text) returns (i: nat)
    requires k in Keys(fs)
    ensures i < |fs| && fs[i].key == k
  {
    i :| 0 <= i < |fs| && fs[i].key == k;
  }

  lemma {:induction false} InsertLaws(fs: seq<Field>, k: Text, v: Value)
    requires Ordered(fs)
    ensures Ordered(Insert(fs, k, v))
    ensures Keys(Insert(fs, k, v)) == Keys(fs) + {k}
    ensures |fs| <= |Insert(fs, k, v)| <= |fs| + 1
  {
    hide Less, Keys;
    var r := Insert(fs, k, v);
    if fs == [] {
      OneKey(k, v);
    } else if fs[0].key == k {
      KeysCons(fs); KeysCons(r);
      assert r[1..] == fs[1..];
    } else if Less(k, fs[0].key) {
      forall j | 0 <= j < |fs| ensures Less(k, fs[j].key) {
        if j > 0 { LessTransitive(k, fs[0].key, fs[j].key); }
      }
      KeysCons(r);
      assert r[1..] == fs;
    } else {
      InsertLaws(fs[1..], k, v);
      var t := Insert(fs[1..], k, v);
      LessTrichotomy(k, fs[0].key);
      KeysCons(fs); KeysCons(r);
      assert r[1..] == t;
      forall j | 0 <= j < |t| ensures Less(fs[0].key, t[j].key) {
        KeyIn(t, j);
        if t[j].key != k {
          var i := KeyAt(fs[1..], t[j].key);
          assert Less(fs[0].key, fs[i + 1].key);
        }
      }
    }
  }

  lemma {:induction false} LookupInsert(fs: seq<Field>, k: Text, v: Value, k': Text)
    ensures Lookup(Insert(fs, k, v), k') == if k' == k then Some(v) else Lookup(fs, k')
  {
    if fs != [] && fs[0].key != k && !Less(k, fs[0].key) {
      LookupInsert(fs[1..], k, v, k');
      assert Insert(fs, k, v)[1..] == Insert(fs[1..], k, v);
    } else if fs != [] && fs[0].key != k {
      assert Insert(fs, k, v)[1..] == fs;
    } else if fs != [] {
      assert Insert(fs, k, v)[1..] == fs[1..];
    }
  }

  lemma {:induction false} RemoveLaws(fs: seq<Field>, k: Text, k': Text)
    requires Ordered(fs)
    ensures Ordered(Remove(fs, k)) && Keys(Remove(fs, k)) <= Keys(fs)
    ensures Lookup(Remove(fs, k), k') == if k' == k then None else Lookup(fs, k')
  {
    if fs != [] {
      KeysCons(fs);
      if fs[0].key == k {
        LookupKeys(fs[1..], k);
        forall i | 0 <= i < |fs| - 1 ensures fs[1..][i].key != k {
          LessTrichotomy(fs[0].key, fs[i + 1].key);
        }
      } else {
        RemoveLaws(fs[1..], k, k');
        var t := Remove(fs[1..], k);
        var r := Remove(fs, k);
        assert r[1..] == t;
        KeysCons(r);
        forall j | 0 <= j < |t| ensures Less(fs[0].key, t[j].key) {
          assert t[j].key in Keys(t) && t[j].key in Keys(fs[1..]);
          var i :| 0 <= i < |fs[1..]| && fs[1..][i].key == t[j].key;
          assert Less(fs[0].key, fs[i + 1].key);
        }
      }
    }
  }

  /** A key above every key of `fs` is appended. */
  lemma {:induction false} InsertAtEnd(fs: seq<Field>, k: Text, v: Value)
    requires forall i | 0 <= i < |fs| :: Less(fs[i].key, k)
    ensures Insert(fs, k, v) == fs + [Field(k, v)]
  {
    if fs != [] {
      LessTrichotomy(fs[0].key, k);
      InsertAtEnd(fs[1..], k, v);
    }
  }

  // ----- System fields -----

  const VERSION: Text := [0x5f, 0x76]                                                      // _v
  const KEY: Text := [0x5f, 0x6b, 0x65, 0x79]                                              // _key
  const SEQ: Text := [0x5f, 0x73, 0x65, 0x71]                                              // _seq
  const CREATED_AT: Text := [0x5f, 0x63, 0x72, 0x65, 0x61, 0x74, 0x65, 0x64, 0x41, 0x74]   // _createdAt
  const MODIFIED_AT: Text := [0x5f, 0x6d, 0x6f, 0x64, 0x69, 0x66, 0x69, 0x65, 0x64, 0x41, 0x74] // _modifiedAt
  const EXPIRES_AT: Text := [0x5f, 0x65, 0x78, 0x70, 0x69, 0x72, 0x65, 0x73, 0x41, 0x74]   // _expiresAt

  const IKEY_VERSION: Text := [0x2d, 0x31]      // -1
  const IKEY_KEY: Text := [0x2d, 0x32]          // -2
  const IKEY_SEQ: Text := [0x2d, 0x33]          // -3
  const IKEY_CREATED_AT: Text := [0x2d, 0x34]   // -4
  const IKEY_MODIFIED_AT: Text := [0x2d, 0x35]  // -5
  const IKEY_EXPIRES_AT: Text := [0x2d, 0x36]   // -6

  /** The token number 1..6 of a system key under either spelling, 0 for any other key. */
  function TokenOf(k: Text): (t: nat)
    ensures t <= 6
  {
    if k == VERSION || k == IKEY_VERSION then 1
    else if k == KEY || k == IKEY_KEY then 2
    else if k == SEQ || k == IKEY_SEQ then 3
    else if k == CREATED_AT || k == IKEY_CREATED_AT then 4
    else if k == MODIFIED_AT || k == IKEY_MODIFIED_AT then 5
    else if k == EXPIRES_AT || k == IKEY_EXPIRES_AT then 6
    else 0
  }

  /** Decimal text of -t for 1 <= t <= 32 (`format!("{}", byte as i8)`). */
  function TokenText(t: nat): Text
    requires 1 <= t <= 32
  {
    if t <= 9 then [0x2d, 0x30 + t] else [0x2d, 0x30 + t / 10, 0x30 + t % 10]
  }

  /** What a key becomes after being stored and read back. */
  function CanonKey(k: Text): Text {
    if TokenOf(k) == 0 then k else TokenText(TokenOf(k))
  }

  lemma CanonKeyIdempotent(k: Text)
    ensures CanonKey(CanonKey(k)) == CanonKey(k)
    ensures TokenOf(CanonKey(k)) == TokenOf(k)
  {
  }

  /** The value that a stored value reads back as: system keys become integer keys at every
      depth, and of two spellings of one key the later in key order wins. */
  function Canon(v: Value): Value
    decreases v, 1
  {
    match v
    case Arr(items) => Arr(CanonItems(items))
    case Obj(fs) => Obj(CanonFields([], fs))
    case _ => v
  }

  function CanonItems(items: seq<Value>): (r: seq<Value>)
    ensures |r| == |items|
    decreases items, 0
  {
    if items == [] then [] else [Canon(items[0])] + CanonItems(items[1..])
  }

  function CanonFields(acc: seq<Field>, fs: seq<Field>): seq<Field>
    decreases fs, 0
  {
    if fs == [] then acc
    else CanonFields(Insert(acc, CanonKey(fs[0].key), Canon(fs[0].val)), fs[1..])
  }

  /** Keys in order at every depth: what a serde_json value always satisfies. */
  predicate WellOrdered(v: Value)
    decreases v, 1
  {
    match v
    case Arr(items) => ItemsWellOrdered(items)
    case Obj(fs) => Ordered(fs) && FieldsWellOrdered(fs)
    case _ => true
  }

  predicate ItemsWellOrdered(items: seq<Value>)
    decreases items, 0
  {
    items == [] || (WellOrdered(items[0]) && ItemsWellOrdered(items[1..]))
  }

  predicate FieldsWellOrdered(fs: seq<Field>)
    decreases fs, 0
  {
    fs == [] || (WellOrdered(fs[0].val) && FieldsWellOrdered(fs[1..]))
  }
}
