/** System fields seen twice: by the raw token reader, which takes the first entry, and in the
    decoded document, where the last one wins. */
module SystemFields {
  import opened Bytes
  import opened Json
  import opened Codec
  import opened Canonical
  import opened Tokens
  import opened Documents
  import opened Engine
  import opened Walker
  import opened Where
  import opened Agreement
  import Floats

  // ----- Exactly when the two readers agree -----

  /** Both spellings of token `t` are stored, and not as the same integer. */
  predicate Doubled(fs: seq<Field>, t: nat)
    requires 1 <= t <= 6
  {
    var first, last := Lookup(fs, TokenText(t)), Lookup(fs, PublicName(t));
    first.Some? && last.Some? && AsU64(first.value) != AsU64(last.value)
  }

  function Reading(v: Option<Value>): Option<u64> {
    match v case None => None case Some(x) => AsU64(x)
  }

  function Either(a: Option<Value>, b: Option<Value>): Option<Value> {
    if a.Some? then a else b
  }

  /** The integer key sorts before the public name, so it is the one met first. */
  lemma {:induction false} FirstStoredIs(fs: seq<Field>, t: nat)
    requires 1 <= t <= 6 && Ordered(fs)
    ensures FirstStored(fs, t) == Either(Lookup(fs, TokenText(t)), Lookup(fs, PublicName(t)))
  {
    hide TokenOf, TokenText, PublicName, Less, CanonKey;
    if fs != [] {
      SpellingsOf(t, fs[0].key);
      LessTrichotomy(TokenText(t), PublicName(t));
      FirstStoredIs(fs[1..], t);
      if fs[0].key == PublicName(t) { KeysAfter(fs, TokenText(t)); }
    }
  }

  /** A key below the first one is not there. */
  lemma KeysAfter(fs: seq<Field>, k: Text)
    requires fs != [] && Ordered(fs) && Less(k, fs[0].key)
    ensures Lookup(fs, k) == None
  {
    hide Less;
    LessTrichotomy(k, fs[0].key);
    forall i | 0 <= i < |fs| ensures fs[i].key != k {
      LessTrichotomy(fs[0].key, fs[i].key);
      if i > 0 {
        assert Less(fs[0].key, fs[i].key);
        LessTrichotomy(k, fs[i].key);
        LessTransitive(k, fs[0].key, fs[i].key);
      }
    }
    LookupKeys(fs, k);
  }

  lemma CanonInteger(v: Value)
    ensures AsU64(Canon(v)) == AsU64(v)
  {
  }

  /** What each reader returns, and that they agree if and only if the token is not stored twice
      with different integers. */
  lemma TokenReadersAgree(fs: seq<Field>, t: nat)
    requires 1 <= t <= 6 && Ordered(fs) && Storable(Obj(fs))
    ensures ReadToken(Encode(Obj(fs)), 256 - t) == Reading(Either(Lookup(fs, TokenText(t)), Lookup(fs, PublicName(t))))
    ensures U64At(Canon(Obj(fs)), TokenText(t)) == Reading(Either(Lookup(fs, PublicName(t)), Lookup(fs, TokenText(t))))
    ensures ReadToken(Encode(Obj(fs)), 256 - t) == U64At(Canon(Obj(fs)), TokenText(t)) <==> !Doubled(fs, t)
  {
    hide Encode, ReadToken, CanonFields, Lookup, FirstStored, Storable, Ordered, PublicName, TokenText, AsU64;
    ReadTokenEncoded(fs, t);
    FirstStoredIs(fs, t);
    LookupKeys(fs, PublicName(t));
    if Lookup(fs, PublicName(t)).Some? {
      PublicNameWins(fs, t);
      CanonInteger(Lookup(fs, PublicName(t)).value);
    } else {
      IntegerKeyReadsBack(fs, t);
      if Lookup(fs, TokenText(t)).Some? { CanonInteger(Lookup(fs, TokenText(t)).value); }
    }
  }

  // ----- After an insert, after an update -----

  /** A freshly inserted or overwritten document holds each managed field once. */
  lemma PreparedReaders(existing: Option<Value>, item: Item, s: u64, t: nat)
    requires GoodItem(item) && Storable(Prepared(existing, item, s)) && (t == 1 || t == 3 || t == 4 || t == 5)
    ensures ReadToken(Encode(Prepared(existing, item, s)), 256 - t) == U64At(Canon(Prepared(existing, item, s)), TokenText(t))
  {
    hide Encode, ReadToken, Canon, Stamp, Storable, Lookup, Wrap;
    var v := Prepared(existing, item, s);
    StampUnreserved(item.value.fields, 1, item.now, item.now, s);
    if existing.Some? {
      var d := existing.value;
      StampUnreserved(item.value.fields, Wrap(Documents.Or(U64At(d, IKEY_VERSION), 0) + 1), Documents.Or(U64At(d, IKEY_CREATED_AT), item.now), item.now,
                      Documents.Or(U64At(d, IKEY_SEQ), s));
    }
    LookupKeys(v.fields, PublicName(t));
    TokenReadersAgree(v.fields, t);
  }

  /** After an object update the raw `_v` and `_modifiedAt` are the old ones and the decoded ones the
      new ones, unless the update itself rewrites the integer keys. */
  lemma PatchedReaders(old_: Bytes, updates: Value, now: u64)
    requires Sound(old_) && updates.Obj? && KeepsIdentity(updates.fields)
    requires Storable(Patched(Decode(old_).value, updates, now))
    requires U64At(Decode(old_).value, IKEY_VERSION).Some? && U64At(Decode(old_).value, IKEY_MODIFIED_AT).Some?
    requires IKEY_VERSION !in Keys(updates.fields) && IKEY_MODIFIED_AT !in Keys(updates.fields)
    ensures var d := Decode(old_).value; var v := Patched(d, updates, now);
            && ReadToken(Encode(v), 0xff) == U64At(d, IKEY_VERSION)
            && U64At(Canon(v), IKEY_VERSION) == Some(Next(U64At(d, IKEY_VERSION).value))
            && ReadToken(Encode(v), 0xff) != U64At(Canon(v), IKEY_VERSION)
            && ReadToken(Encode(v), 0xfb) == U64At(d, IKEY_MODIFIED_AT)
            && U64At(Canon(v), IKEY_MODIFIED_AT) == Some(now)
  {
    hide Encode, Decode, Storable, SeqOf, Keys, Lookup, Merged, MergeFields, ReadToken, CanonFields, Ordered;
    var d := Decode(old_).value;
    var us, x := updates.fields, U64At(d, IKEY_VERSION).value;
    var version := Next(x);
    SoundSeq(old_);
    var fs := Merged(d.fields, us, version, now);
    MergeFieldsLaws(d.fields, us, IKEY_VERSION);
    MergeFieldsLaws(d.fields, us, IKEY_MODIFIED_AT);
    SpelledApart();
    MergedLookup(d.fields, us, version, now, IKEY_VERSION);
    MergedLookup(d.fields, us, version, now, IKEY_MODIFIED_AT);
    MergedLookup(d.fields, us, version, now, VERSION);
    MergedLookup(d.fields, us, version, now, MODIFIED_AT);
    TokenReadersAgree(fs, 1);
    TokenReadersAgree(fs, 5);
    WrapMovesOn(x);
  }

  lemma SpelledApart()
    ensures IKEY_VERSION == TokenText(1) && IKEY_MODIFIED_AT == TokenText(5)
    ensures VERSION == PublicName(1) && MODIFIED_AT == PublicName(5) && VERSION != MODIFIED_AT
    ensures IKEY_VERSION != VERSION && IKEY_VERSION != MODIFIED_AT && IKEY_MODIFIED_AT != VERSION && IKEY_MODIFIED_AT != MODIFIED_AT
  {
    assert VERSION[0] == 0x5f && MODIFIED_AT[0] == 0x5f && VERSION[1] != MODIFIED_AT[1];
  }

  lemma WrapMovesOn(x: u64)
    ensures Next(x) != x
  {
  }

  // ----- WHERE on a system field -----

  /** Integers below 2^53 are exact as f64: they truncate back to themselves and keep their order. */
  ghost predicate Exact(h: Host) {
    && (forall n: nat | n < TWO_53 :: h.trunc(h.float(n)) == n)
    && (forall m: nat, n: nat | m < n < TWO_53 :: Floats.FloatLess(h.float(m), h.float(n)))
  }

  /** `{"<name>": {"$lt": s}}`. */
  function FieldBelow(t: nat, s: u64): Value
    requires 1 <= t <= 6
  {
    Obj([Field(PublicName(t), Obj([Field(LT, Num(PosInt(s)))]))])
  }

  lemma LtParses()
    ensures ParseOperator(LT) == Some(Lt)
  {
    var s := LT;
    assert |s| == 3 && s[1] == 0x6c;
    assert s != EQ && s != EQUALS && s != NE && s != NOT_EQUALS && s != GT && s != GREATER_THAN && s != GTE && s != GREATER_THAN_OR_EQUAL;
  }

  lemma NameIsNoLogic(t: nat)
    requires 1 <= t <= 6 && t != 2
    ensures var k := PublicName(t); k != OR && k != AND && SystemToken(k) == Some(256 - t) && Split(k) == [k]
  {
    hide Split, TokenOf;
    var k := PublicName(t);
    assert k[0] == 0x5f && OR[0] == 0x24 && AND[0] == 0x24;
    SpellingsOf(t, k);
    SystemName(k);
    SplitPlain(k);
  }

  /** On bytes the raw reading is compared. */
  lemma RawBelow(h: Host, b: Bytes, t: nat, s: u64, x: u64)
    requires Exact(h) && 1 <= t <= 6 && t != 2 && ReadToken(b, 256 - t) == Some(x) && s < TWO_53
    ensures RawWhere(h, b, FieldBelow(t, s)) == Some(x < s)
  {
    hide ReadToken, ParseOperator, Split, TokenOf, SystemToken, PublicName, RawTest, RawAny, RawAll, Find, NumberAt;
    LtParses();
    NameIsNoLogic(t);
    var k := PublicName(t);
    var ops := [Field(LT, Num(PosInt(s)))];
    var fs := [Field(k, Obj(ops))];
    assert ops[1..] == [] && fs[1..] == [];
    assert RawOps(h, b, k, ops[1..]);
    assert RawFields(h, b, fs[1..]) == Some(true);
    assert Predicate(h, b, k, LT, Num(PosInt(s))) == Some(x < s);
  }

  lemma {:induction false} LookupExpandToken(acc: seq<Field>, fs: seq<Field>, t: nat)
    requires Ordered(fs) && CanonAll(fs) && 1 <= t <= 6
    ensures Lookup(ExpandFields(acc, fs), PublicName(t))
         == match Lookup(fs, TokenText(t)) case Some(x) => Some(Expand(x)) case None => Lookup(acc, PublicName(t))
    decreases fs
  {
    if fs != [] {
      hide Expand, Less, Keys, IsCanon, PublicName, TokenText, PublicKey;
      var k := fs[0].key;
      var acc' := Insert(acc, PublicKey(k), Expand(fs[0].val));
      LookupExpandToken(acc', fs[1..], t);
      LookupInsert(acc, PublicKey(k), Expand(fs[0].val), PublicName(t));
      PublicToken(k, t);
      if k == TokenText(t) {
        HeadKeyOnce(fs);
        LookupKeys(fs[1..], k);
      }
    }
  }

  lemma PublicToken(k: Text, t: nat)
    requires CanonKey(k) == k && 1 <= t <= 6
    ensures PublicKey(k) == PublicName(t) <==> k == TokenText(t)
  {
    SpellingsOf(t, k);
  }

  /** A client reads a system field under its public name. */
  lemma PublicField(d: Value, t: nat, y: u64)
    requires d.Obj? && IsCanon(d) && 1 <= t <= 6 && U64At(d, TokenText(t)) == Some(y)
    ensures Nested(Expand(d), [PublicName(t)]) == Some(Num(PosInt(y)))
  {
    hide CanonAll, Lookup, ExpandFields, PublicName, TokenText;
    LookupExpandToken([], d.fields, t);
    NoLookup(PublicName(t));
    var x := Expand(d);
    assert Get(x, PublicName(t)) == Some(Num(PosInt(y)));
    assert [PublicName(t)][1..] == [];
    assert Nested(Num(PosInt(y)), []) == Some(Num(PosInt(y)));
  }

  lemma NoLookup(k: Text)
    ensures Lookup([], k) == None
  {
  }

  lemma ExactLess(h: Host, m: nat, n: nat)
    requires Exact(h) && m < TWO_53 && n < TWO_53
    ensures Floats.FloatLess(h.float(m), h.float(n)) <==> m < n
  {
    if n < m { assert Floats.FloatLess(h.float(n), h.float(m)); }
  }

  /** On the decoded document the decoded reading is compared. */
  lemma DecodedBelow(h: Host, d: Value, t: nat, s: u64, y: u64)
    requires Exact(h) && d.Obj? && IsCanon(d) && 1 <= t <= 6 && t != 2
    requires U64At(d, TokenText(t)) == Some(y) && y < TWO_53 && s < TWO_53
    ensures DocWhere(h, Expand(d), FieldBelow(t, s)) == Ok(y < s)
  {
    hide ParseOperator, Split, Expand, Nested, DocAny, DocAll, Floats.FloatLess, MatchesAny, Matches, Exact, IsCanon, TokenText, PublicName, SystemToken;
    LtParses();
    NameIsNoLogic(t);
    PublicField(d, t, y);
    ExactLess(h, y, s);
    var k, x := PublicName(t), Expand(d);
    var ops := [Field(LT, Num(PosInt(s)))];
    var fs := [Field(k, Obj(ops))];
    assert ops[1..] == [] && fs[1..] == [];
    assert DocOps(h, Num(PosInt(y)), ops[1..]) == Ok(true);
    assert DocOps(h, Num(PosInt(y)), ops) == Ok(y < s);
    assert DocCondition(h, x, k, Obj(ops)) == Ok(y < s);
    assert DocFields(h, x, fs[1..]) == Ok(true);
  }

  /** `{"-1": 1, "_v": 2}`, what an update leaves of version 1, passes `{"_v": {"$lt": 2}}` on bytes
      and fails it once decoded. */
  lemma StaleVersion(h: Host)
    requires Exact(h)
    ensures var v := Obj([Field(IKEY_VERSION, Int(1)), Field(VERSION, Int(2))]);
            && Doubled(v.fields, 1) && ReadToken(Encode(v), 0xff) == Some(1) && U64At(Canon(v), IKEY_VERSION) == Some(2)
            && RawWhere(h, Encode(v), FieldBelow(1, 2)) == Some(true) && DocWhere(h, Public(v), FieldBelow(1, 2)) == Ok(false)
  {
    hide Encode, RawWhere, DocWhere, FieldBelow, Canon, Exact, ReadToken, Expand, Storable;
    var v := Obj([Field(IKEY_VERSION, Int(1)), Field(VERSION, Int(2))]);
    VersionPair();
    TokenReadersAgree(v.fields, 1);
    RawBelow(h, Encode(v), 1, 2, 1);
    CanonIsCanon(v);
    CanonObject(v);
    DecodedBelow(h, Canon(v), 1, 2, 2);
  }

  lemma CanonObject(v: Value)
    requires v.Obj?
    ensures Canon(v).Obj?
  {
  }

  lemma VersionPair()
    ensures var fs := [Field(IKEY_VERSION, Int(1)), Field(VERSION, Int(2))];
            Ordered(fs) && Storable(Obj(fs)) && Lookup(fs, IKEY_VERSION) == Some(Int(1)) && Lookup(fs, VERSION) == Some(Int(2))
  {
    var fs := [Field(IKEY_VERSION, Int(1)), Field(VERSION, Int(2))];
    AsciiIsUtf8(IKEY_VERSION);
    AsciiIsUtf8(VERSION);
    assert IKEY_VERSION[0] < VERSION[0] && Less(IKEY_VERSION, VERSION);
    assert fs[1..] == [Field(VERSION, Int(2))] && fs[1..][1..] == [];
    assert StorableFields(fs[1..][1..]) && StorableFields(fs[1..]);
    assert Lookup(fs[1..], VERSION) == Some(Int(2));
  }
}
