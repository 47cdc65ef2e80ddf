/** Filtering on raw bytes refines filtering on the decoded document. */
module Agreement {
  import opened Bytes
  import opened Json
  import opened Codec
  import opened Canonical
  import opened Tokens
  import opened Walker
  import opened Where
  import Floats

  // ----- The document a client sees -----

  function PublicKey(k: Text): Text {
    if k == IKEY_VERSION then VERSION
    else if k == IKEY_KEY then KEY
    else if k == IKEY_SEQ then SEQ
    else if k == IKEY_CREATED_AT then CREATED_AT
    else if k == IKEY_MODIFIED_AT then MODIFIED_AT
    else if k == IKEY_EXPIRES_AT then EXPIRES_AT
    else k
  }

  /** `expand_system_fields`. */
  function Expand(v: Value): Value
    decreases v, 1
  {
    match v
    case Arr(items) => Arr(ExpandItems(items))
    case Obj(fs) => Obj(ExpandFields([], fs))
    case _ => v
  }

  function ExpandItems(items: seq<Value>): seq<Value>
    decreases items, 0
  {
    if items == [] then [] else [Expand(items[0])] + ExpandItems(items[1..])
  }

  function ExpandFields(acc: seq<Field>, fs: seq<Field>): seq<Field>
    decreases fs, 0
  {
    if fs == [] then acc
    else ExpandFields(Insert(acc, PublicKey(fs[0].key), Expand(fs[0].val)), fs[1..])
  }

  lemma {:induction false} LookupExpand(acc: seq<Field>, fs: seq<Field>, k: Text)
    requires Ordered(fs) && TokenOf(k) == 0
    ensures Lookup(ExpandFields(acc, fs), k)
         == match Lookup(fs, k) case Some(x) => Some(Expand(x)) case None => Lookup(acc, k)
    decreases fs
  {
    if fs != [] {
      hide Expand, Less, Keys;
      var acc' := Insert(acc, PublicKey(fs[0].key), Expand(fs[0].val));
      LookupExpand(acc', fs[1..], k);
      LookupInsert(acc, PublicKey(fs[0].key), Expand(fs[0].val), k);
      if fs[0].key == k {
        HeadKeyOnce(fs);
        LookupKeys(fs[1..], k);
      }
    }
  }

  /** Public names do not move what lies under a plain path. */
  lemma {:induction false} NestedExpand(v: Value, path: Path)
    requires WellOrdered(v) && PlainPath(path)
    ensures Nested(Expand(v), path) == match Nested(v, path) case None => None case Some(x) => Some(Expand(x))
    decreases |path|
  {
    if path != [] && v.Obj? {
      hide ExpandFields, Lookup, TokenOf;
      LookupExpand([], v.fields, path[0]);
      assert Lookup([], path[0]) == None;
      if Lookup(v.fields, path[0]).Some? {
        LookupWellOrdered(v.fields, path[0]);
        NestedExpand(Lookup(v.fields, path[0]).value, path[1..]);
      }
    } else if path != [] {
      assert !Expand(v).Obj?;
    }
  }

  /** What a client sees of a stored document. */
  function Public(v: Value): Value {
    Expand(Canon(v))
  }

  /** Lookup of a plain path in what the client sees, and in the stored bytes. */
  lemma PublicLookup(v: Value, path: Path) returns (tail: Bytes)
    requires Storable(v) && WellOrdered(v) && PlainPath(path) && path != []
    ensures Nested(Public(v), path) == match Nested(v, path) case None => None case Some(x) => Some(Public(x))
    ensures Find(Encode(v), path) == match Nested(v, path) case None => None case Some(x) => Some(Encode(x) + tail)
  {
    hide Encode, Find, Nested, Canon, Expand, IsCanon;
    tail := WalkerAgrees(v, path);
    NestedCanon(v, path);
    CanonIsCanon(v);
    CanonicalOrder(Canon(v));
    NestedExpand(Canon(v), path);
  }

  lemma {:induction false} NestedStorable(v: Value, path: Path)
    requires Storable(v) && Nested(v, path).Some?
    ensures Storable(Nested(v, path).value)
    decreases |path|
  {
    if path != [] {
      LookupStorable(v.fields, path[0]);
      NestedStorable(Lookup(v.fields, path[0]).value, path[1..]);
    }
  }

  lemma {:induction false} LookupStorable(fs: seq<Field>, k: Text)
    requires StorableFields(fs) && Lookup(fs, k).Some?
    ensures Storable(Lookup(fs, k).value)
  {
    if fs[0].key != k { LookupStorable(fs[1..], k); }
  }

  // ----- One test -----

  predicate AllStrings(items: seq<Value>) {
    items == [] || (items[0].Str? && AllStrings(items[1..]))
  }

  /** Operands for which a test that passes on the bytes of `x` passes on the decoded value too. */
  predicate SafeTest(h: Host, x: Option<Value>, op: Option<Operator>, v: Value) {
    match op
    case None => false
    case Some(o) =>
      match o
      case Eq => EqualSafe(h, x, v)
      case In => v.Arr?
      case NotIn => v.Arr? && AllStrings(v.items)
      case Contains => !(x.Some? && x.value.Arr?)
      case Or => false
      case And => false
      case _ => true
  }

  /** The field is present and of the type the operand asks for. */
  predicate TypedTest(h: Host, x: Option<Value>, op: Option<Operator>, v: Value) {
    x.Some? &&
    match op
    case None => false
    case Some(o) =>
      match o
      case Eq => Comparable(h, x.value, v)
      case NotEq => Comparable(h, x.value, v)
      case In => x.value.Str? && v.Arr? && AllStrings(v.items)
      case NotIn => x.value.Str? && v.Arr? && AllStrings(v.items)
      case Contains => x.value.Str? && v.Str?
      case Or => false
      case And => false
      case _ => x.value.Num? && v.Num?
  }

  /** Two texts, two booleans, or two numbers that are not merely within an epsilon. */
  predicate Comparable(h: Host, x: Value, v: Value) {
    (x.Str? && v.Str?) || (x.Bool? && v.Bool?) || (x.Num? && v.Num? && !Tolerated(h, x.n, v.n))
  }

  /** The field is not a number that is merely within an epsilon of the operand. */
  predicate EqualSafe(h: Host, x: Option<Value>, v: Value) {
    !(x.Some? && x.value.Num? && v.Num? && Tolerated(h, x.value.n, v.n))
  }

  /** Numbers within an epsilon that are nevertheless not the same JSON number: an integer beside a
      double, two doubles of different value, two integers too large to be told apart. */
  predicate Tolerated(h: Host, m: Number, n: Number) {
    && h.near(AsFloat(h, m), AsFloat(h, n))
    && match (m, n)
       case (Double(x), Double(y)) => !Floats.FloatSame(x, y)
       case (PosInt(a), PosInt(b)) => a != b
       case (NegInt(a), NegInt(b)) => a != b
       case _ => true
  }

  /** Numbers that are not tolerated are near iff they are the same JSON number. */
  lemma NearIsEqual(h: Host, m: Number, n: Number)
    requires Sane(h) && !Tolerated(h, m, n)
    ensures h.near(AsFloat(h, m), AsFloat(h, n)) <==> JsonEq(h, Num(m), Num(n))
    ensures h.far(AsFloat(h, m), AsFloat(h, n)) <==> !JsonEq(h, Num(m), Num(n))
  {
    hide Floats.ByValue, Floats.IsNaN;
    FiniteSame(AsFloat(h, m));
  }

  lemma {:induction false} ListedMatches(h: Host, x: Value, items: seq<Value>)
    ensures Listed(h, if x.Str? then Some(h.lower(x.s)) else None, items) ==> MatchesAny(h, Public(x), items)
    ensures AllStrings(items)
            ==> (Listed(h, if x.Str? then Some(h.lower(x.s)) else None, items) <==> MatchesAny(h, Public(x), items))
  {
    if items != [] { ListedMatches(h, x, items[1..]); }
  }

  /** Scalars are seen as stored; arrays and objects stay what they are. */
  lemma PublicKind(x: Value)
    ensures Public(x) == x || (x.Arr? && Public(x).Arr?) || (x.Obj? && Public(x).Obj?)
  {
  }

  lemma LeafRefines(h: Host, x: Value, tail: Bytes, o: Operator, v: Value)
    requires Sane(h) && Storable(x) && SafeTest(h, Some(x), Some(o), v)
    ensures DocTest(h, Public(x), Some(o), v).Ok?
    ensures RawTest(h, Encode(x) + tail, o, v) == Some(true) ==> DocTest(h, Public(x), Some(o), v) == Ok(true)
    ensures TypedTest(h, Some(x), Some(o), v)
            ==> RawTest(h, Encode(x) + tail, o, v) == Some(DocTest(h, Public(x), Some(o), v).b)
  {
    hide Encode, Storable, Public, TakeString, NumberAt, BoolAt, Infix, ElementHit, HasItem, Listed, MatchesAny, AllStrings, ArrCount;
    TakeStringEncoded(x, tail);
    NumberAtEncoded(h, x, tail);
    BoolAtEncoded(x, tail);
    PublicKind(x);
    if v.Arr? { ListedMatches(h, x, v.items); }
    if x.Num? && v.Num? && !Tolerated(h, x.n, v.n) { NearIsEqual(h, x.n, v.n); }
    if !x.Arr? { NotAnArray(x, tail); }
  }

  lemma NotAnArray(x: Value, tail: Bytes)
    requires !x.Arr?
    ensures Encode(x) != [] && ArrCount((Encode(x) + tail)[0], (Encode(x) + tail)[1..]) == Fail
  {
    hide BigEndian, EncodeItems, Uint;
  }

  // ----- One field condition -----

  lemma {:induction false} SplitPlain(s: Text)
    requires forall i | 0 <= i < |s| :: s[i] != 0x2e
    ensures Split(s) == [s]
  {
    if s != [] {
      SplitPlain(s[1..]);
      assert [s[0]] + s[1..] == s;
    }
  }

  lemma SystemPath(field: Text)
    ensures SystemToken(field).Some? ==> !PlainPath(Split(field))
  {
    hide SystemToken, Split, TokenOf;
    if SystemToken(field).Some? {
      SystemName(field);
      SplitPlain(field);
      assert Split(field)[0] == field;
    }
  }

  /** A public system name has no dot and a token. */
  lemma SystemName(field: Text)
    requires SystemToken(field).Some?
    ensures TokenOf(field) != 0 && forall i | 0 <= i < |field| :: field[i] != 0x2e
  {
  }

  /** The raw predicate on a plain path is the raw test at the value's bytes. */
  lemma PredicateAt(h: Host, v: Value, field: Text, op: Text, w: Value) returns (tail: Bytes)
    requires Storable(v) && WellOrdered(v) && PlainPath(Split(field))
    ensures Nested(Public(v), Split(field))
         == match Nested(v, Split(field)) case None => None case Some(x) => Some(Public(x))
    ensures Nested(v, Split(field)).Some? ==> Storable(Nested(v, Split(field)).value)
    ensures Predicate(h, Encode(v), field, op, w)
         == match Nested(v, Split(field))
            case None => None
            case Some(x) =>
              match ParseOperator(op) case None => None case Some(o) => RawTest(h, Encode(x) + tail, o, w)
  {
    hide Encode, Find, Nested, Public, RawTest, ParseOperator, Split, Storable, ReadToken;
    SystemPath(field);
    tail := PublicLookup(v, Split(field));
    if Nested(v, Split(field)).Some? { NestedStorable(v, Split(field)); }
  }

  predicate SafeOps(h: Host, x: Option<Value>, ops: seq<Field>) {
    ops == [] || (SafeTest(h, x, ParseOperator(ops[0].key), ops[0].val) && SafeOps(h, x, ops[1..]))
  }

  predicate TypedOps(h: Host, x: Option<Value>, ops: seq<Field>) {
    ops == [] || (TypedTest(h, x, ParseOperator(ops[0].key), ops[0].val) && TypedOps(h, x, ops[1..]))
  }

  lemma {:induction false} OpsRefine(h: Host, v: Value, field: Text, ops: seq<Field>)
    requires Sane(h) && Storable(v) && WellOrdered(v) && PlainPath(Split(field)) && SafeOps(h, Nested(v, Split(field)), ops)
    ensures var x := Nested(Public(v), Split(field));
            var r := DocOps(h, if x.Some? then x.value else Null, ops);
            r.Ok? && (RawOps(h, Encode(v), field, ops) ==> r == Ok(true))
            && (TypedOps(h, Nested(v, Split(field)), ops) ==> r == Ok(RawOps(h, Encode(v), field, ops)))
  {
    hide Encode, Predicate, Nested, Public, RawTest, DocTest, ParseOperator, Split, Storable, WellOrdered, PlainPath, SafeTest, TypedTest, Sane;
    if ops != [] {
      OpsRefine(h, v, field, ops[1..]);
      var tail := PredicateAt(h, v, field, ops[0].key, ops[0].val);
      OpRefines(h, v, field, ops[0].key, ops[0].val);
    }
  }

  lemma OpRefines(h: Host, v: Value, field: Text, op: Text, w: Value)
    requires Sane(h) && Storable(v) && WellOrdered(v) && PlainPath(Split(field))
    requires SafeTest(h, Nested(v, Split(field)), ParseOperator(op), w)
    ensures var x := Nested(Public(v), Split(field));
            var r := DocTest(h, if x.Some? then x.value else Null, ParseOperator(op), w);
            var raw := Predicate(h, Encode(v), field, op, w);
            r.Ok? && (raw == Some(true) ==> r == Ok(true))
            && (TypedTest(h, Nested(v, Split(field)), ParseOperator(op), w) ==> raw == Some(r.b))
  {
    hide Encode, Predicate, Nested, Public, RawTest, ParseOperator, Split, Storable, WellOrdered, PlainPath, TypedTest, Sane, Matches, MatchesAny, Infix;
    var tail := PredicateAt(h, v, field, op, w);
    match Nested(v, Split(field))
    case None => assert !TypedTest(h, None, ParseOperator(op), w) by { TypedPresent(h, None, ParseOperator(op), w); }
    case Some(x) => LeafRefines(h, x, tail, ParseOperator(op).value, w);
  }

  lemma TypedPresent(h: Host, x: Option<Value>, op: Option<Operator>, w: Value)
    ensures TypedTest(h, x, op, w) ==> x.Some?
  {
  }

  predicate SafeCondition(h: Host, x: Option<Value>, cond: Value) {
    if cond.Obj? then SafeOps(h, x, cond.fields) else EqualSafe(h, x, cond)
  }

  predicate TypedCondition(h: Host, x: Option<Value>, cond: Value) {
    if cond.Obj? then TypedOps(h, x, cond.fields) else x.Some? && Comparable(h, x.value, cond)
  }

  lemma ConditionRefines(h: Host, v: Value, field: Text, cond: Value)
    requires Sane(h) && Storable(v) && WellOrdered(v) && PlainPath(Split(field))
    requires SafeCondition(h, Nested(v, Split(field)), cond)
    ensures var r := DocCondition(h, Public(v), field, cond);
            var raw := RawCondition(h, Encode(v), field, cond);
            r.Ok? && (raw ==> r == Ok(true)) && (TypedCondition(h, Nested(v, Split(field)), cond) ==> r == Ok(raw))
  {
    hide Encode, Predicate, Nested, Public, RawTest, ParseOperator, Split, Storable, WellOrdered, PlainPath, Sane, Matches, MatchesAny, Infix,
         RawOps, DocOps, SafeOps, TypedOps;
    if cond.Obj? {
      OpsRefine(h, v, field, cond.fields);
    } else {
      EqParses();
      var tail := PredicateAt(h, v, field, EQ, cond);
      OpRefines(h, v, field, EQ, cond);
    }
  }

  lemma EqParses()
    ensures ParseOperator(EQ) == Some(Eq)
  {
  }

  // ----- Whole clauses -----

  /** Clauses over plain paths whose tests are all safe for the document `v`. */
  predicate SafeWhere(h: Host, v: Value, q: Value)
    decreases q, 1
  {
    match q
    case Arr(items) => SafeItems(h, v, items)
    case Obj(fs) => SafeFields(h, v, fs)
    case _ => true
  }

  predicate SafeItems(h: Host, v: Value, items: seq<Value>)
    decreases items, 0
  {
    items == [] || (SafeWhere(h, v, items[0]) && SafeItems(h, v, items[1..]))
  }

  predicate SafeFields(h: Host, v: Value, fs: seq<Field>)
    decreases fs, 0
  {
    fs == [] ||
    (SafeFields(h, v, fs[1..]) &&
     if fs[0].key == OR || fs[0].key == AND then fs[0].val.Arr? && SafeItems(h, v, fs[0].val.items)
     else PlainPath(Split(fs[0].key)) && SafeCondition(h, Nested(v, Split(fs[0].key)), fs[0].val))
  }

  /** Every named field is present with the type its tests ask for. */
  predicate TypedWhere(h: Host, v: Value, q: Value)
    decreases q, 1
  {
    match q
    case Arr(items) => TypedItems(h, v, items)
    case Obj(fs) => TypedFields(h, v, fs)
    case _ => false
  }

  predicate TypedItems(h: Host, v: Value, items: seq<Value>)
    decreases items, 0
  {
    items == [] || (TypedWhere(h, v, items[0]) && TypedItems(h, v, items[1..]))
  }

  predicate TypedFields(h: Host, v: Value, fs: seq<Field>)
    decreases fs, 0
  {
    fs == [] ||
    (TypedFields(h, v, fs[1..]) &&
     if fs[0].key == OR || fs[0].key == AND then fs[0].val.Arr? && TypedItems(h, v, fs[0].val.items)
     else PlainPath(Split(fs[0].key)) && TypedCondition(h, Nested(v, Split(fs[0].key)), fs[0].val))
  }

  /** Acceptance on bytes implies acceptance on the decoded document, which never fails with an
      error; on well-typed documents the two verdicts are equal. */
  lemma {:induction false} WhereRefines(h: Host, v: Value, q: Value)
    requires Sane(h) && Storable(v) && WellOrdered(v) && SafeWhere(h, v, q)
    ensures var r := DocWhere(h, Public(v), q);
            r.Ok? && (RawWhere(h, Encode(v), q) == Some(true) ==> r == Ok(true))
            && (TypedWhere(h, v, q) ==> RawWhere(h, Encode(v), q) == Some(r.b))
    decreases q, 1
  {
    hide Encode, Public, Storable, WellOrdered, Sane;
    match q
    case Arr(items) => AllRefine(h, v, items);
    case Obj(fs) => FieldsRefine(h, v, fs);
    case _ =>
  }

  lemma {:induction false} AllRefine(h: Host, v: Value, items: seq<Value>)
    requires Sane(h) && Storable(v) && WellOrdered(v) && SafeItems(h, v, items)
    ensures var r := DocAll(h, Public(v), items);
            r.Ok? && (RawAll(h, Encode(v), items) ==> r == Ok(true))
            && (TypedItems(h, v, items) ==> r == Ok(RawAll(h, Encode(v), items)))
    decreases items, 0
  {
    hide Encode, Public, Storable, WellOrdered, Sane, RawWhere, DocWhere, SafeWhere, TypedWhere;
    if items != [] {
      WhereRefines(h, v, items[0]);
      AllRefine(h, v, items[1..]);
    }
  }

  lemma {:induction false} AnyRefine(h: Host, v: Value, items: seq<Value>)
    requires Sane(h) && Storable(v) && WellOrdered(v) && SafeItems(h, v, items)
    ensures var r := DocAny(h, Public(v), items);
            r.Ok? && (RawAny(h, Encode(v), items) ==> r == Ok(true))
            && (TypedItems(h, v, items) ==> r == Ok(RawAny(h, Encode(v), items)))
    decreases items, 0
  {
    hide Encode, Public, Storable, WellOrdered, Sane, RawWhere, DocWhere, SafeWhere, TypedWhere;
    if items != [] {
      WhereRefines(h, v, items[0]);
      AnyRefine(h, v, items[1..]);
    }
  }

  lemma {:induction false} FieldsRefine(h: Host, v: Value, fs: seq<Field>)
    requires Sane(h) && Storable(v) && WellOrdered(v) && SafeFields(h, v, fs)
    ensures var r := DocFields(h, Public(v), fs);
            r.Ok? && (RawFields(h, Encode(v), fs) == Some(true) ==> r == Ok(true))
            && (TypedFields(h, v, fs) ==> RawFields(h, Encode(v), fs) == Some(r.b))
    decreases fs, 0
  {
    hide Encode, Public, Storable, WellOrdered, Sane, RawAll, RawAny, DocAll, DocAny, SafeItems, TypedItems, RawCondition, DocCondition,
         SafeCondition, TypedCondition, PlainPath, Split, Nested;
    if fs != [] {
      FieldsRefine(h, v, fs[1..]);
      if fs[0].key == OR {
        AnyRefine(h, v, fs[0].val.items);
      } else if fs[0].key == AND {
        AllRefine(h, v, fs[0].val.items);
      } else {
        ConditionRefines(h, v, fs[0].key, fs[0].val);
      }
    }
  }

  // ----- Where the two filters part -----

  /** The two ways of asking for equality with a number: `{f: n}` and `{f: {$eq: n}}`. */
  predicate AsksEqual(cond: Value, n: Number) {
    cond == Num(n)
    || (cond.Obj? && |cond.fields| == 1 && ParseOperator(cond.fields[0].key) == Some(Eq) && cond.fields[0].val == Num(n))
  }

  /** A numeric equality is tolerant on bytes and exact, kind included, on decoded values. */
  lemma NumericEquality(h: Host, v: Value, field: Text, m: Number, n: Number, cond: Value)
    requires Storable(v) && WellOrdered(v) && PlainPath(Split(field)) && Nested(v, Split(field)) == Some(Num(m)) && AsksEqual(cond, n)
    ensures RawCondition(h, Encode(v), field, cond) <==> h.near(AsFloat(h, m), AsFloat(h, n))
    ensures DocCondition(h, Public(v), field, cond) == Ok(JsonEq(h, Num(m), Num(n)))
  {
    hide Encode, Predicate, Nested, Public, ParseOperator, Split, Storable, WellOrdered, PlainPath, NumberAt, TakeString;
    EqParses();
    var op := if cond.Obj? then cond.fields[0].key else EQ;
    var tail := PredicateAt(h, v, field, op, Num(n));
    NumberAtEncoded(h, Num(m), tail);
    PublicKind(Num(m));
    if cond.Obj? {
      var ops := cond.fields;
      assert ops[1..] == [];
      assert RawOps(h, Encode(v), field, ops[1..]);
      assert DocOps(h, Num(m), ops[1..]) == Ok(true);
    }
  }

  /** Distinct integers below 2^53 are not near: true of IEEE-754. */
  ghost predicate Tight(h: Host) {
    && Sane(h)
    && (forall i: int, j: int | -0x20_0000_0000_0000 < i < TWO_53 && -0x20_0000_0000_0000 < j < TWO_53 && i != j :: !h.near(h.float(i), h.float(j)))
  }

  predicate SmallInteger(n: Number) {
    (n.PosInt? && n.u < TWO_53) || (n.NegInt? && -0x20_0000_0000_0000 < n.i)
  }

  /** In both forms the filters agree if and only if the number is not merely tolerated; in
      particular they agree on any two integers below 2^53, and on an integer and a double exactly
      when the two are not within an epsilon. */
  lemma NumericAgreement(h: Host, v: Value, field: Text, m: Number, n: Number, cond: Value)
    requires Tight(h)
    requires Storable(v) && WellOrdered(v) && PlainPath(Split(field)) && Nested(v, Split(field)) == Some(Num(m)) && AsksEqual(cond, n)
    ensures DocCondition(h, Public(v), field, cond) == Ok(RawCondition(h, Encode(v), field, cond)) <==> !Tolerated(h, m, n)
    ensures SmallInteger(m) && SmallInteger(n) ==> !Tolerated(h, m, n)
    ensures SmallInteger(m) && n.Double? ==> (Tolerated(h, m, n) <==> h.near(AsFloat(h, m), n.bits))
  {
    hide RawCondition, DocCondition, Encode, Public, Nested, Split, Storable, WellOrdered, PlainPath, AsksEqual, Floats.ByValue, Floats.IsNaN;
    NumericEquality(h, v, field, m, n, cond);
    FiniteSame(AsFloat(h, m));
  }

  lemma FiniteSame(x: FiniteDouble)
    ensures Floats.FloatSame(x, x)
  {
  }

  const FIELD_A: Text := [0x61]
  const ONE: FiniteDouble := 0x3ff0_0000_0000_0000

  /** `{a: 1}` passes `{a: 1.0}` on bytes and fails it once decoded. */
  lemma NumericEqualityShrinks(h: Host)
    requires h.near(h.float(1), ONE)
    ensures var v := Obj([Field(FIELD_A, Num(PosInt(1)))]);
            RawCondition(h, Encode(v), FIELD_A, Num(Double(ONE)))
            && DocCondition(h, Public(v), FIELD_A, Num(Double(ONE))) == Ok(false)
  {
    hide Encode, Public, RawCondition, DocCondition;
    var v := Obj([Field(FIELD_A, Num(PosInt(1)))]);
    FieldA(Num(PosInt(1)));
    NumericEquality(h, v, FIELD_A, PosInt(1), Double(ONE), Num(Double(ONE)));
  }

  lemma FieldA(x: Value)
    requires Storable(x) && WellOrdered(x)
    ensures var v := Obj([Field(FIELD_A, x)]);
            Storable(v) && WellOrdered(v) && PlainPath(Split(FIELD_A)) && Nested(v, Split(FIELD_A)) == Some(x)
  {
    var fs := [Field(FIELD_A, x)];
    SplitPlain(FIELD_A);
    AsciiIsUtf8(FIELD_A);
    assert fs[1..] == [];
    assert StorableFields(fs[1..]) && FieldsWellOrdered(fs[1..]);
    assert Split(FIELD_A)[1..] == [];
  }

  /** `{a: ["xy"]}` passes `$contains "x"` on bytes, by substring, and fails it once decoded. */
  lemma ArrayContainsShrinks(h: Host)
    requires h.lower([0x78]) == [0x78] && h.lower([0x78, 0x79]) == [0x78, 0x79]
    ensures var v := Obj([Field(FIELD_A, Arr([Str([0x78, 0x79])]))]);
            var q := Obj([Field(CONTAINS, Str([0x78]))]);
            RawCondition(h, Encode(v), FIELD_A, q) && DocCondition(h, Public(v), FIELD_A, q) == Ok(false)
  {
    hide Encode, Predicate, Nested, Public, ParseOperator, Split, Storable, WellOrdered, PlainPath, Infix, ElementHit;
    var xy := Str([0x78, 0x79]);
    var v := Obj([Field(FIELD_A, Arr([xy]))]);
    var q := Obj([Field(CONTAINS, Str([0x78]))]);
    PairStorable();
    FieldA(Arr([xy]));
    var tail := PredicateAt(h, v, FIELD_A, CONTAINS, Str([0x78]));
    PairHit(h, tail);
    PairPublic(h);
    assert ParseOperator(CONTAINS) == Some(Contains) by { ContainsParses(); }
    assert q.fields[1..] == [];
    assert RawOps(h, Encode(v), FIELD_A, q.fields);
    assert DocOps(h, Public(Arr([xy])), q.fields) == Ok(false);
  }

  lemma ContainsParses()
    ensures ParseOperator(CONTAINS) == Some(Contains)
  {
    var s := CONTAINS;
    assert |s| == 9 && s[1] == 0x63 && LESS_THAN[1] == 0x6c;
    assert s != EQ && s != EQUALS && s != NE && s != NOT_EQUALS && s != GT && s != GREATER_THAN && s != GTE;
    assert s != GREATER_THAN_OR_EQUAL && s != LT && s != LESS_THAN && s != LTE && s != LESS_THAN_OR_EQUAL;
    assert s != IN && s != ONE_OF && s != NIN && s != NOT_IN;
  }

  lemma PairStorable()
    ensures Storable(Arr([Str([0x78, 0x79])])) && WellOrdered(Arr([Str([0x78, 0x79])]))
  {
    AsciiIsUtf8([0x78, 0x79]);
    var items := [Str([0x78, 0x79])];
    assert items[1..] == [];
    assert StorableItems(items[1..]) && ItemsWellOrdered(items[1..]);
  }

  lemma PairHit(h: Host, tail: Bytes)
    requires h.lower([0x78]) == [0x78] && h.lower([0x78, 0x79]) == [0x78, 0x79]
    ensures RawTest(h, Encode(Arr([Str([0x78, 0x79])])) + tail, Contains, Str([0x78])) == Some(true)
  {
    hide TakeString, Encode, EncodeItems, TextAfter, Utf8, Storable, WellOrdered;
    PairBytes();
    var s := Encode(Arr([Str([0x78, 0x79])])) + tail;
    TakePair(tail);
    assert Infix([0x78], [0x78, 0x79]);
    assert s[1..] == [0xa2, 0x78, 0x79] + tail;
    assert ElementHit(h, s[1..], 1, [0x78]);
    PairStorable();
    TakeStringEncoded(Arr([Str([0x78, 0x79])]), tail);
  }

  lemma PairBytes()
    ensures Encode(Arr([Str([0x78, 0x79])])) == [0x91, 0xa2, 0x78, 0x79]
  {
    var items := [Str([0x78, 0x79])];
    assert items[1..] == [] && EncodeItems(items) == Encode(items[0]) + EncodeItems([]);
  }

  lemma TakePair(tail: Bytes)
    ensures TakeString([0xa2, 0x78, 0x79] + tail).0 == Some([0x78, 0x79])
  {
    var t := [0xa2, 0x78, 0x79] + tail;
    AsciiIsUtf8([0x78, 0x79]);
    assert t[1..][..2] == [0x78, 0x79];
  }

  lemma PairPublic(h: Host)
    ensures DocTest(h, Public(Arr([Str([0x78, 0x79])])), Some(Contains), Str([0x78])) == Ok(false)
  {
    var items := [Str([0x78, 0x79])];
    assert items[1..] == [] && CanonItems(items) == [Canon(items[0])] + CanonItems([]);
    assert CanonItems(items) == items;
    assert ExpandItems(items) == [Expand(items[0])] + ExpandItems([]);
    assert ExpandItems(items) == items;
    assert !HasItem(h, [], Str([0x78]));
    assert !HasItem(h, items, Str([0x78]));
  }
}
