/** Documents as the write operations build them: engine-managed system fields stamped on
    insert, merged and doubled on update, and what reads back from the stored bytes. */
module Documents {
  import opened Bytes
  import opened Json
  import opened Codec
  import opened Canonical
  import opened Tokens

  /** Release-mode `u64` addition. */
  function Wrap(x: nat): u64 {
    x % TWO_64
  }

  /** The counter or version after `x`. */
  function Next(x: nat): u64 {
    Wrap(x + 1)
  }

  function Int(u: u64): Value {
    Num(PosInt(u))
  }

  /** `value.get(k).and_then(as_u64)`. */
  function U64At(v: Value, k: Text): Option<u64> {
    match Get(v, k) case Some(x) => AsU64(x) case None => None
  }

  function Or(o: Option<u64>, d: u64): u64 {
    match o case Some(x) => x case None => d
  }

  // ----- System fields of stored objects -----

  /** The public spelling of token `t`. */
  function PublicName(t: nat): Text
    requires 1 <= t <= 6
  {
    if t == 1 then VERSION
    else if t == 2 then KEY
    else if t == 3 then SEQ
    else if t == 4 then CREATED_AT
    else if t == 5 then MODIFIED_AT
    else EXPIRES_AT
  }

  lemma SpellingsOf(t: nat, k: Text)
    requires 1 <= t <= 6
    ensures TokenOf(k) == t <==> k == PublicName(t) || k == TokenText(t)
    ensures CanonKey(k) == TokenText(t) <==> TokenOf(k) == t
    ensures Less(TokenText(t), PublicName(t))
  {
  }

  lemma {:induction false} LookupAt(fs: seq<Field>, k: Text) returns (i: nat)
    requires Lookup(fs, k).Some?
    ensures i < |fs| && fs[i].key == k && Lookup(fs, k) == Some(fs[i].val)
  {
    if fs[0].key == k {
      i := 0;
    } else {
      i := LookupAt(fs[1..], k);
      i := i + 1;
    }
  }

  /** A field stored only under its integer key reads back as written. */
  lemma IntegerKeyReadsBack(fs: seq<Field>, t: nat)
    requires 1 <= t <= 6 && Ordered(fs) && PublicName(t) !in Keys(fs)
    ensures Lookup(CanonFields([], fs), TokenText(t))
         == match Lookup(fs, TokenText(t)) case Some(v) => Some(Canon(v)) case None => None
  {
    CanonKeyIdempotent(PublicName(t));
    SpellingsOf(t, PublicName(t));
    forall j | 0 <= j < |fs| && CanonKey(fs[j].key) == TokenText(t) ensures fs[j].key == TokenText(t) {
      SpellingsOf(t, fs[j].key);
      assert fs[j].key in Keys(fs);
    }
    LastStoredUnique(fs, TokenText(t));
    LookupCanonFields([], fs, TokenText(t));
  }

  /** When both spellings are stored, the public one sorts later and wins. */
  lemma PublicNameWins(fs: seq<Field>, t: nat)
    requires 1 <= t <= 6 && Ordered(fs) && Lookup(fs, PublicName(t)).Some?
    ensures Lookup(CanonFields([], fs), TokenText(t)) == Some(Canon(Lookup(fs, PublicName(t)).value))
  {
    var i := LookupAt(fs, PublicName(t));
    SpellingsOf(t, PublicName(t));
    forall j | i < j < |fs| ensures CanonKey(fs[j].key) != TokenText(t) {
      SpellingsOf(t, fs[j].key);
      LessTrichotomy(PublicName(t), fs[j].key);
      LessTrichotomy(TokenText(t), PublicName(t));
    }
    LastStoredOfKey(fs, i);
    LookupCanonFields([], fs, TokenText(t));
  }

  lemma {:induction false} FirstStoredIntegerKey(fs: seq<Field>, t: nat)
    requires 1 <= t <= 6 && PublicName(t) !in Keys(fs)
    ensures FirstStored(fs, t) == Lookup(fs, TokenText(t))
  {
    if fs != [] {
      SpellingsOf(t, fs[0].key);
      assert fs[0].key in Keys(fs);
      KeysCons(fs);
      FirstStoredIntegerKey(fs[1..], t);
    }
  }

  // ----- Sound stored documents -----

  /** Stored bytes that decode to an object whose `_seq` reads the same from the raw bytes. */
  ghost predicate Sound(b: Bytes) {
    match Decode(b)
    case None => false
    case Some(d) =>
      d.Obj? && IsCanon(d) && Storable(d)
      && U64At(d, IKEY_SEQ).Some? && ReadToken(b, TOK_SEQ) == U64At(d, IKEY_SEQ)
  }

  lemma StoredIsSound(fs: seq<Field>, s: u64)
    requires Storable(Obj(fs)) && Ordered(fs) && SEQ !in Keys(fs)
    requires Lookup(fs, IKEY_SEQ) == Some(Int(s))
    ensures Sound(Encode(Obj(fs))) && SeqOf(Encode(Obj(fs))) == s
    ensures Decode(Encode(Obj(fs))) == Some(Canon(Obj(fs))) && U64At(Canon(Obj(fs)), IKEY_SEQ) == Some(s)
  {
    hide Encode, Decode, ReadToken, Storable, Ordered, CanonFields, FirstStored, Lookup;
    DecodeEncode(Obj(fs));
    CanonIsCanon(Obj(fs));
    CanonStorable(Obj(fs));
    IntegerKeyReadsBack(fs, 3);
    FirstStoredIntegerKey(fs, 3);
    ReadTokenEncoded(fs, 3);
  }

  // ----- Insert -----

  /** The four engine-managed fields of an inserted document. */
  function Stamp(fs: seq<Field>, version: u64, created: u64, now: u64, seq_: u64): seq<Field> {
    Insert(Insert(Insert(Insert(fs, IKEY_VERSION, Int(version)), IKEY_CREATED_AT, Int(created)),
                  IKEY_MODIFIED_AT, Int(now)), IKEY_SEQ, Int(seq_))
  }

  /** No key of a managed field under its public name. The set handler refuses every key that
      starts with an underscore. */
  predicate Unreserved(fs: seq<Field>) {
    VERSION !in Keys(fs) && SEQ !in Keys(fs) && CREATED_AT !in Keys(fs) && MODIFIED_AT !in Keys(fs)
  }

  lemma IkeysDistinct()
    ensures IKEY_VERSION != IKEY_CREATED_AT && IKEY_VERSION != IKEY_MODIFIED_AT && IKEY_VERSION != IKEY_SEQ
    ensures IKEY_CREATED_AT != IKEY_MODIFIED_AT && IKEY_CREATED_AT != IKEY_SEQ && IKEY_MODIFIED_AT != IKEY_SEQ
    ensures forall t | 1 <= t <= 6 :: PublicName(t)[0] == 0x5f
  {
    assert IKEY_VERSION[1] == 0x31 && IKEY_CREATED_AT[1] == 0x34 && IKEY_MODIFIED_AT[1] == 0x35 && IKEY_SEQ[1] == 0x33;
  }

  lemma StampLookup(fs: seq<Field>, version: u64, created: u64, now: u64, s: u64, k: Text)
    ensures Lookup(Stamp(fs, version, created, now, s), k)
         == if k == IKEY_SEQ then Some(Int(s))
            else if k == IKEY_MODIFIED_AT then Some(Int(now))
            else if k == IKEY_CREATED_AT then Some(Int(created))
            else if k == IKEY_VERSION then Some(Int(version))
            else Lookup(fs, k)
  {
    var f1 := Insert(fs, IKEY_VERSION, Int(version));
    var f2 := Insert(f1, IKEY_CREATED_AT, Int(created));
    LookupInsert(fs, IKEY_VERSION, Int(version), k);
    LookupInsert(f1, IKEY_CREATED_AT, Int(created), k);
    LookupInsert(f2, IKEY_MODIFIED_AT, Int(now), k);
    LookupInsert(Insert(f2, IKEY_MODIFIED_AT, Int(now)), IKEY_SEQ, Int(s), k);
  }

  lemma StampKeys(fs: seq<Field>, version: u64, created: u64, now: u64, s: u64)
    requires Ordered(fs)
    ensures Ordered(Stamp(fs, version, created, now, s))
    ensures Keys(Stamp(fs, version, created, now, s))
         == Keys(fs) + {IKEY_VERSION} + {IKEY_CREATED_AT} + {IKEY_MODIFIED_AT} + {IKEY_SEQ}
  {
    var f1 := Insert(fs, IKEY_VERSION, Int(version));
    var f2 := Insert(f1, IKEY_CREATED_AT, Int(created));
    InsertLaws(fs, IKEY_VERSION, Int(version));
    InsertLaws(f1, IKEY_CREATED_AT, Int(created));
    InsertLaws(f2, IKEY_MODIFIED_AT, Int(now));
    InsertLaws(Insert(f2, IKEY_MODIFIED_AT, Int(now)), IKEY_SEQ, Int(s));
  }

  lemma StampUnreserved(fs: seq<Field>, version: u64, created: u64, now: u64, s: u64)
    requires Ordered(fs) && Unreserved(fs)
    ensures Ordered(Stamp(fs, version, created, now, s)) && Unreserved(Stamp(fs, version, created, now, s))
  {
    hide Stamp, Keys, Ordered;
    StampKeys(fs, version, created, now, s);
    forall k | k in {IKEY_VERSION} + {IKEY_CREATED_AT} + {IKEY_MODIFIED_AT} + {IKEY_SEQ} ensures k[0] == 0x2d { }
    assert VERSION[0] == 0x5f && SEQ[0] == 0x5f && CREATED_AT[0] == 0x5f && MODIFIED_AT[0] == 0x5f;
  }

  lemma StampFields(fs: seq<Field>, version: u64, created: u64, now: u64, s: u64)
    requires Ordered(fs) && Unreserved(fs)
    ensures var r := Stamp(fs, version, created, now, s);
            Ordered(r) && Unreserved(r)
            && Lookup(r, IKEY_VERSION) == Some(Int(version)) && Lookup(r, IKEY_CREATED_AT) == Some(Int(created))
            && Lookup(r, IKEY_MODIFIED_AT) == Some(Int(now)) && Lookup(r, IKEY_SEQ) == Some(Int(s))
  {
    hide Stamp, Lookup, Ordered, Unreserved;
    IkeysDistinct();
    StampUnreserved(fs, version, created, now, s);
    StampLookup(fs, version, created, now, s, IKEY_VERSION);
    StampLookup(fs, version, created, now, s, IKEY_CREATED_AT);
    StampLookup(fs, version, created, now, s, IKEY_MODIFIED_AT);
    StampLookup(fs, version, created, now, s, IKEY_SEQ);
  }

  /** A stamped document reads back with exactly the version, times and `_seq` it was given. */
  lemma StampReadsBack(fs: seq<Field>, version: u64, created: u64, now: u64, s: u64)
    requires Ordered(fs) && Unreserved(fs) && Storable(Obj(Stamp(fs, version, created, now, s)))
    ensures var b := Encode(Obj(Stamp(fs, version, created, now, s)));
            Sound(b) && SeqOf(b) == s
            && Decode(b) == Some(Canon(Obj(Stamp(fs, version, created, now, s))))
            && U64At(Decode(b).value, IKEY_VERSION) == Some(version)
            && U64At(Decode(b).value, IKEY_CREATED_AT) == Some(created)
            && U64At(Decode(b).value, IKEY_MODIFIED_AT) == Some(now)
            && U64At(Decode(b).value, IKEY_SEQ) == Some(s)
  {
    hide Encode, Decode, Sound, SeqOf, Storable, Ordered, CanonFields, Lookup, Keys, Stamp;
    var r := Stamp(fs, version, created, now, s);
    StampFields(fs, version, created, now, s);
    StoredIsSound(r, s);
    IntegerKeyReadsBack(r, 1);
    IntegerKeyReadsBack(r, 4);
    IntegerKeyReadsBack(r, 5);
  }

  // ----- Update -----

  /** Merging update fields: `_v` and `_createdAt` are skipped, everything else overwrites. */
  function MergeFields(fs: seq<Field>, us: seq<Field>): seq<Field>
    decreases us
  {
    if us == [] then fs
    else if us[0].key == VERSION || us[0].key == CREATED_AT then MergeFields(fs, us[1..])
    else MergeFields(Insert(fs, us[0].key, us[0].val), us[1..])
  }

  /** The merged document: the new version and time are added under their public names, next to
      the integer keys already there. */
  function Merged(fs: seq<Field>, us: seq<Field>, version: u64, now: u64): seq<Field> {
    Insert(Insert(MergeFields(fs, us), VERSION, Int(version)), MODIFIED_AT, Int(now))
  }

  lemma {:induction false} MergeFieldsLaws(fs: seq<Field>, us: seq<Field>, k: Text)
    requires Ordered(fs)
    ensures Ordered(MergeFields(fs, us))
    ensures Keys(MergeFields(fs, us)) <= Keys(fs) + (Keys(us) - {VERSION, CREATED_AT})
    ensures k !in Keys(us) ==> Lookup(MergeFields(fs, us), k) == Lookup(fs, k)
    decreases us
  {
    if us != [] {
      KeysCons(us);
      if us[0].key == VERSION || us[0].key == CREATED_AT {
        MergeFieldsLaws(fs, us[1..], k);
      } else {
        InsertLaws(fs, us[0].key, us[0].val);
        LookupInsert(fs, us[0].key, us[0].val, k);
        MergeFieldsLaws(Insert(fs, us[0].key, us[0].val), us[1..], k);
      }
    }
  }

  /** Update keys that would move a document or rewrite its creation time. */
  predicate KeepsIdentity(us: seq<Field>) {
    SEQ !in Keys(us) && IKEY_SEQ !in Keys(us) && IKEY_CREATED_AT !in Keys(us)
  }

  lemma CanonHasNoPublicKeys(fs: seq<Field>, t: nat)
    requires CanonAll(fs) && 1 <= t <= 6
    ensures PublicName(t) !in Keys(fs)
  {
    if PublicName(t) in Keys(fs) {
      var i :| 0 <= i < |fs| && fs[i].key == PublicName(t);
      CanonAllAt(fs, i);
      SpellingsOf(t, PublicName(t));
      LessTrichotomy(TokenText(t), PublicName(t));
    }
  }

  lemma {:induction false} CanonAllAt(fs: seq<Field>, i: nat)
    requires CanonAll(fs) && i < |fs|
    ensures CanonKey(fs[i].key) == fs[i].key && IsCanon(fs[i].val)
  {
    if i > 0 { CanonAllAt(fs[1..], i - 1); }
  }

  lemma MergedLookup(fs: seq<Field>, us: seq<Field>, version: u64, now: u64, k: Text)
    requires Ordered(fs)
    ensures Lookup(Merged(fs, us, version, now), k)
         == if k == MODIFIED_AT then Some(Int(now))
            else if k == VERSION then Some(Int(version))
            else Lookup(MergeFields(fs, us), k)
    ensures Ordered(Merged(fs, us, version, now))
    ensures Keys(Merged(fs, us, version, now)) == Keys(MergeFields(fs, us)) + {VERSION} + {MODIFIED_AT}
  {
    var m := MergeFields(fs, us);
    var m1 := Insert(m, VERSION, Int(version));
    MergeFieldsLaws(fs, us, k);
    InsertLaws(m, VERSION, Int(version));
    InsertLaws(m1, MODIFIED_AT, Int(now));
    LookupInsert(m, VERSION, Int(version), k);
    LookupInsert(m1, MODIFIED_AT, Int(now), k);
  }

  lemma PublicNamesDistinct()
    ensures VERSION != MODIFIED_AT && VERSION != SEQ && VERSION != CREATED_AT
    ensures MODIFIED_AT != SEQ && MODIFIED_AT != CREATED_AT && SEQ != CREATED_AT
  {
    assert VERSION[1] == 0x76 && MODIFIED_AT[1] == 0x6d && SEQ[1] == 0x73 && CREATED_AT[1] == 0x63;
  }

  lemma MergedFields(fs: seq<Field>, us: seq<Field>, version: u64, now: u64)
    requires IsCanon(Obj(fs)) && KeepsIdentity(us)
    ensures var r := Merged(fs, us, version, now);
            Ordered(r) && SEQ !in Keys(r) && CREATED_AT !in Keys(r)
            && Lookup(r, VERSION) == Some(Int(version)) && Lookup(r, MODIFIED_AT) == Some(Int(now))
            && Lookup(r, IKEY_SEQ) == Lookup(fs, IKEY_SEQ)
            && Lookup(r, IKEY_CREATED_AT) == Lookup(fs, IKEY_CREATED_AT)
  {
    hide Lookup, Ordered, Keys, MergeFields, Merged;
    IkeysDistinct();
    PublicNamesDistinct();
    MergeFieldsLaws(fs, us, IKEY_SEQ);
    MergeFieldsLaws(fs, us, IKEY_CREATED_AT);
    MergedLookup(fs, us, version, now, VERSION);
    MergedLookup(fs, us, version, now, MODIFIED_AT);
    MergedLookup(fs, us, version, now, IKEY_SEQ);
    MergedLookup(fs, us, version, now, IKEY_CREATED_AT);
    assert PublicName(3) == SEQ && PublicName(4) == CREATED_AT;
    CanonHasNoPublicKeys(fs, 3);
    CanonHasNoPublicKeys(fs, 4);
  }

  /** The merged document reads back with the new version and time, and with the `_seq` and
      creation time it had. */
  lemma MergedReadsBack(fs: seq<Field>, us: seq<Field>, version: u64, now: u64, s: u64)
    requires IsCanon(Obj(fs)) && Lookup(fs, IKEY_SEQ) == Some(Int(s)) && KeepsIdentity(us)
    requires Storable(Obj(Merged(fs, us, version, now)))
    ensures var b := Encode(Obj(Merged(fs, us, version, now)));
            Sound(b) && SeqOf(b) == s
            && Decode(b) == Some(Canon(Obj(Merged(fs, us, version, now))))
            && U64At(Decode(b).value, IKEY_VERSION) == Some(version)
            && U64At(Decode(b).value, IKEY_MODIFIED_AT) == Some(now)
            && U64At(Decode(b).value, IKEY_SEQ) == Some(s)
            && U64At(Decode(b).value, IKEY_CREATED_AT) == U64At(Obj(fs), IKEY_CREATED_AT)
  {
    hide Encode, Decode, Sound, SeqOf, Storable, Ordered, CanonFields, Lookup, Keys, Merged, KeepsIdentity;
    var r := Merged(fs, us, version, now);
    MergedFields(fs, us, version, now);
    StoredIsSound(r, s);
    PublicNameWins(r, 1);
    PublicNameWins(r, 5);
    IntegerKeyReadsBack(r, 4);
    CreatedIsCanon(fs);
  }

  lemma CreatedIsCanon(fs: seq<Field>)
    requires CanonAll(fs)
    ensures forall k | Lookup(fs, k).Some? :: Canon(Lookup(fs, k).value) == Lookup(fs, k).value
  {
    forall k | Lookup(fs, k).Some? ensures Canon(Lookup(fs, k).value) == Lookup(fs, k).value {
      var i := LookupAt(fs, k);
      CanonAllAt(fs, i);
      CanonFixed(fs[i].val);
    }
  }

  // ----- Key order -----

  lemma StampOrder(fs: seq<Field>, version: u64, created: u64, now: u64, s: u64)
    requires WellOrdered(Obj(fs))
    ensures WellOrdered(Obj(Stamp(fs, version, created, now, s)))
  {
    hide Insert, Ordered, FieldsWellOrdered, Less;
    StampKeys(fs, version, created, now, s);
    var f1 := Insert(fs, IKEY_VERSION, Int(version));
    var f2 := Insert(f1, IKEY_CREATED_AT, Int(created));
    var f3 := Insert(f2, IKEY_MODIFIED_AT, Int(now));
    InsertWellOrdered(fs, IKEY_VERSION, Int(version));
    InsertWellOrdered(f1, IKEY_CREATED_AT, Int(created));
    InsertWellOrdered(f2, IKEY_MODIFIED_AT, Int(now));
    InsertWellOrdered(f3, IKEY_SEQ, Int(s));
  }

  lemma {:induction false} MergeOrder(fs: seq<Field>, us: seq<Field>)
    requires FieldsWellOrdered(fs) && FieldsWellOrdered(us)
    ensures FieldsWellOrdered(MergeFields(fs, us))
    decreases us
  {
    if us != [] {
      if us[0].key == VERSION || us[0].key == CREATED_AT {
        MergeOrder(fs, us[1..]);
      } else {
        InsertWellOrdered(fs, us[0].key, us[0].val);
        MergeOrder(Insert(fs, us[0].key, us[0].val), us[1..]);
      }
    }
  }

  lemma MergedOrder(fs: seq<Field>, us: seq<Field>, version: u64, now: u64)
    requires WellOrdered(Obj(fs)) && FieldsWellOrdered(us)
    ensures WellOrdered(Obj(Merged(fs, us, version, now)))
  {
    hide Insert, Ordered, FieldsWellOrdered, MergeFields, Lookup;
    MergedLookup(fs, us, version, now, VERSION);
    MergeOrder(fs, us);
    var m := MergeFields(fs, us);
    InsertWellOrdered(m, VERSION, Int(version));
    InsertWellOrdered(Insert(m, VERSION, Int(version)), MODIFIED_AT, Int(now));
  }
}
