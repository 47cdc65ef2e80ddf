/** What WHERE clauses mean, told without either evaluator: both filters are measured against integer
    comparison, text equality, substrings and plain logic, under the operator names as a client writes
    them. */
module Meaning {
  import opened Bytes
  import opened Json
  import opened Codec
  import opened Canonical
  import opened Tokens
  import opened Documents
  import opened Walker
  import opened Where
  import opened Agreement
  import opened SystemFields
  import Floats

  // ----- Paths and substrings -----

  function Join(parts: Path): Text {
    if parts == [] then [] else if |parts| == 1 then parts[0] else parts[0] + [0x2e] + Join(parts[1..])
  }

  /** `Split` cuts at every dot and nowhere else. */
  lemma {:induction false} SplitMeaning(s: Text)
    ensures Join(Split(s)) == s
    ensures forall i, j | 0 <= i < |Split(s)| && 0 <= j < |Split(s)[i]| :: Split(s)[i][j] != 0x2e
  {
    if s != [] {
      SplitMeaning(s[1..]);
      var r := Split(s[1..]);
      if s[0] == 0x2e {
        assert ([[]] + r)[1..] == r;
        assert Join(Split(s)) == [] + [0x2e] + s[1..];
      } else {
        var t := [[s[0]] + r[0]] + r[1..];
        assert t[1..] == r[1..];
        assert Join(t) == [s[0]] + Join(r);
      }
    }
  }

  predicate OccursAt(needle: Text, s: Text, i: nat) {
    i + |needle| <= |s| && s[i..i + |needle|] == needle
  }

  /** `Infix` looks everywhere. */
  lemma {:induction false} InfixMeaning(needle: Text, s: Text)
    ensures Infix(needle, s) <==> exists i: nat :: OccursAt(needle, s, i)
  {
    var n := |needle|;
    assert Prefix(needle, s) <==> OccursAt(needle, s, 0);
    if s != [] {
      InfixMeaning(needle, s[1..]);
      forall i: nat ensures OccursAt(needle, s[1..], i) <==> OccursAt(needle, s, i + 1) {
        if i + 1 + n <= |s| { assert s[1..][i..i + n] == s[i + 1..i + 1 + n]; }
      }
      if i: nat :| OccursAt(needle, s, i) {
        if i > 0 { assert OccursAt(needle, s[1..], i - 1); }
      }
      if i: nat :| OccursAt(needle, s[1..], i) { assert OccursAt(needle, s, i + 1); }
    }
  }

  // ----- Operator names -----

  /** The bytes of an ASCII text. */
  function Ascii(s: string): Text {
    seq(|s|, i requires 0 <= i < |s| => (s[i] as int) % 128)
  }

  predicate IsComparison(op: string) {
    op in ["$gt", "$greaterThan", "$gte", "$greaterThanOrEqual", "$lt", "$lessThan", "$lte", "$lessThanOrEqual"]
  }

  /** What a comparison says of two numbers. */
  predicate Says(op: string, m: int, n: int) {
    if op == "$gt" || op == "$greaterThan" then m > n
    else if op == "$gte" || op == "$greaterThanOrEqual" then m >= n
    else if op == "$lt" || op == "$lessThan" then m < n
    else m <= n
  }

  lemma LessNames()
    ensures Ascii("$lt") == LT && Ascii("$lessThan") == LESS_THAN && Ascii("$lte") == LTE && Ascii("$lessThanOrEqual") == LESS_THAN_OR_EQUAL
  {
  }

  lemma GreaterNames()
    ensures Ascii("$gt") == GT && Ascii("$greaterThan") == GREATER_THAN
    ensures Ascii("$gte") == GTE && Ascii("$greaterThanOrEqual") == GREATER_THAN_OR_EQUAL
  {
  }

  lemma EqualNames()
    ensures Ascii("$eq") == EQ && Ascii("$equals") == EQUALS && Ascii("$ne") == NE && Ascii("$notEquals") == NOT_EQUALS
  {
  }

  lemma ListNames()
    ensures Ascii("$in") == IN && Ascii("$oneOf") == ONE_OF && Ascii("$nin") == NIN && Ascii("$notIn") == NOT_IN
    ensures Ascii("$ct") == CT && Ascii("$contains") == CONTAINS && Ascii("$or") == OR && Ascii("$and") == AND
  {
  }

  /** The texts an operator goes by. */
  lemma OrderingParses(op: string)
    requires IsComparison(op)
    ensures ParseOperator(Ascii(op)) == Some(if op == "$gt" || op == "$greaterThan" then Gt
                                             else if op == "$gte" || op == "$greaterThanOrEqual" then Gte
                                             else if op == "$lt" || op == "$lessThan" then Lt else Lte)
  {
    hide Ascii;
    LessNames();
    GreaterNames();
    ManyParse();
  }

  lemma ManyParse()
    ensures ParseOperator(GT) == Some(Gt) && ParseOperator(GREATER_THAN) == Some(Gt)
    ensures ParseOperator(GTE) == Some(Gte) && ParseOperator(GREATER_THAN_OR_EQUAL) == Some(Gte)
    ensures ParseOperator(LT) == Some(Lt) && ParseOperator(LESS_THAN) == Some(Lt)
    ensures ParseOperator(LTE) == Some(Lte) && ParseOperator(LESS_THAN_OR_EQUAL) == Some(Lte)
  {
  }

  lemma OthersParse()
    ensures ParseOperator(EQ) == Some(Eq) && ParseOperator(EQUALS) == Some(Eq)
    ensures ParseOperator(NE) == Some(NotEq) && ParseOperator(NOT_EQUALS) == Some(NotEq)
    ensures ParseOperator(IN) == Some(In) && ParseOperator(ONE_OF) == Some(In)
    ensures ParseOperator(NIN) == Some(NotIn) && ParseOperator(NOT_IN) == Some(NotIn)
    ensures ParseOperator(CT) == Some(Contains) && ParseOperator(CONTAINS) == Some(Contains)
  {
  }

  // ----- One test -----

  /** `{field: {op: w}}`. */
  function Test(field: Text, op: string, w: Value): Value {
    Obj([Field(field, Obj([Field(Ascii(op), w)]))])
  }

  /** `{field: w}`. */
  function Is(field: Text, w: Value): Value {
    Obj([Field(field, w)])
  }

  /** A stored document and a path to one of the user's fields. */
  predicate Asked(v: Value, field: Text) {
    Storable(v) && WellOrdered(v) && PlainPath(Split(field)) && field != Ascii("$or") && field != Ascii("$and")
  }

  function At(v: Value, field: Text): Option<Value> {
    Nested(v, Split(field))
  }

  lemma OneTest(h: Host, v: Value, field: Text, op: string, w: Value) returns (tail: Bytes)
    requires Asked(v, field)
    ensures var x := At(v, field); var o := ParseOperator(Ascii(op)); var q := Test(field, op, w);
            && (x.Some? ==> Storable(x.value))
            && RawWhere(h, Encode(v), q) == Some(x.Some? && o.Some? && RawTest(h, Encode(x.value) + tail, o.value, w) == Some(true))
            && DocWhere(h, Public(v), q) == DocTest(h, if x.Some? then Public(x.value) else Null, o, w)
  {
    hide Encode, Predicate, Nested, Public, RawTest, DocTest, ParseOperator, Split, Storable, WellOrdered, PlainPath, RawAny, RawAll, DocAny, DocAll, Ascii;
    ListNames();
    tail := PredicateAt(h, v, field, Ascii(op), w);
    var ops := [Field(Ascii(op), w)];
    var fs := [Field(field, Obj(ops))];
    assert ops[1..] == [] && fs[1..] == [];
    assert RawOps(h, Encode(v), field, ops[1..]) && RawFields(h, Encode(v), fs[1..]) == Some(true);
    var x := Nested(Public(v), Split(field));
    assert DocOps(h, if x.Some? then x.value else Null, ops[1..]) == Ok(true);
    assert DocFields(h, Public(v), fs[1..]) == Ok(true);
  }

  lemma OneEquality(h: Host, v: Value, field: Text, w: Value) returns (tail: Bytes)
    requires Asked(v, field) && !w.Obj?
    ensures var x := At(v, field); var q := Is(field, w);
            && (x.Some? ==> Storable(x.value))
            && RawWhere(h, Encode(v), q) == Some(x.Some? && RawTest(h, Encode(x.value) + tail, Eq, w) == Some(true))
            && DocWhere(h, Public(v), q) == Ok(x.Some? && Matches(h, Public(x.value), w))
  {
    hide Encode, Predicate, Nested, Public, RawTest, DocTest, ParseOperator, Split, Storable, WellOrdered, PlainPath, RawAny, RawAll, DocAny, DocAll, Ascii, Matches;
    ListNames();
    EqParses();
    tail := PredicateAt(h, v, field, EQ, w);
    var fs := [Field(field, w)];
    assert fs[1..] == [];
    assert RawFields(h, Encode(v), fs[1..]) == Some(true) && DocFields(h, Public(v), fs[1..]) == Ok(true);
  }

  // ----- Comparisons -----

  /** There is a number, and its exact value compares so. */
  predicate NumberSays(h: Host, x: Option<Value>, op: string, n: Number) {
    x.Some? && x.value.Num? && Says(op, Floats.Scaled(AsFloat(h, x.value.n)), Floats.Scaled(AsFloat(h, n)))
  }

  /** Both filters compare the exact values of the two numbers; a field without a number passes
      neither. */
  lemma ComparisonMeaning(h: Host, v: Value, field: Text, op: string, n: Number)
    requires Asked(v, field) && IsComparison(op)
    ensures var q := Test(field, op, Num(n));
            var verdict := NumberSays(h, At(v, field), op, n);
            RawWhere(h, Encode(v), q) == Some(verdict) && DocWhere(h, Public(v), q) == Ok(verdict)
  {
    hide Encode, Public, ParseOperator, Nested, Split, Storable, WellOrdered, PlainPath, NumberAt, Ascii, RawWhere, DocWhere,
         Floats.FloatLess, Floats.FloatAtMost, Floats.Scaled, TakeString, BoolAt, Matches, MatchesAny, Listed, Infix;
    OrderingParses(op);
    var tail := OneTest(h, v, field, op, Num(n));
    if At(v, field).Some? {
      var x := At(v, field).value;
      NumberAtEncoded(h, x, tail);
      PublicKind(x);
      if x.Num? {
        Floats.OrderIsValueOrder(AsFloat(h, x.n), AsFloat(h, n));
        Floats.OrderIsValueOrder(AsFloat(h, n), AsFloat(h, x.n));
      }
    }
  }

  /** On integers below 2^53 that is integer comparison. */
  lemma IntegerComparison(h: Host, v: Value, field: Text, op: string, m: nat, n: nat)
    requires Asked(v, field) && IsComparison(op) && Exact(h) && m < TWO_53 && n < TWO_53 && At(v, field) == Some(Num(PosInt(m)))
    ensures RawWhere(h, Encode(v), Test(field, op, Num(PosInt(n)))) == Some(Says(op, m, n))
    ensures DocWhere(h, Public(v), Test(field, op, Num(PosInt(n)))) == Ok(Says(op, m, n))
  {
    hide Encode, Public, RawWhere, DocWhere, Floats.FloatLess, Floats.Scaled, Asked, At, Test, Exact;
    ComparisonMeaning(h, v, field, op, PosInt(n));
    Floats.OrderIsValueOrder(h.float(m), h.float(n));
    Floats.OrderIsValueOrder(h.float(n), h.float(m));
    ExactLess(h, m, n);
    ExactLess(h, n, m);
  }

  // ----- Texts and booleans -----

  predicate IsEqual(op: string) {
    op == "$eq" || op == "$equals"
  }

  predicate IsUnequal(op: string) {
    op == "$ne" || op == "$notEquals"
  }

  predicate IsOneOf(op: string) {
    op == "$in" || op == "$oneOf"
  }

  predicate IsNoneOf(op: string) {
    op == "$nin" || op == "$notIn"
  }

  predicate IsContains(op: string) {
    op == "$ct" || op == "$contains"
  }

  lemma NameParses(op: string)
    ensures IsEqual(op) ==> ParseOperator(Ascii(op)) == Some(Eq)
    ensures IsUnequal(op) ==> ParseOperator(Ascii(op)) == Some(NotEq)
    ensures IsOneOf(op) ==> ParseOperator(Ascii(op)) == Some(In)
    ensures IsNoneOf(op) ==> ParseOperator(Ascii(op)) == Some(NotIn)
    ensures IsContains(op) ==> ParseOperator(Ascii(op)) == Some(Contains)
  {
    hide Ascii, ParseOperator;
    EqualNames();
    ListNames();
    OthersParse();
  }

  /** Both filters give this verdict. */
  ghost predicate Verdict(h: Host, v: Value, q: Value, yes: bool) {
    RawWhere(h, Encode(v), q) == Some(yes) && DocWhere(h, Public(v), q) == Ok(yes)
  }

  /** Texts are compared without regard to case. */
  lemma TextMeaning(h: Host, v: Value, field: Text, op: string, s: Text, x: Text)
    requires Asked(v, field) && At(v, field) == Some(Str(s))
    ensures Verdict(h, v, Is(field, Str(x)), h.lower(s) == h.lower(x))
    ensures IsEqual(op) ==> Verdict(h, v, Test(field, op, Str(x)), h.lower(s) == h.lower(x))
    ensures IsUnequal(op) ==> Verdict(h, v, Test(field, op, Str(x)), h.lower(s) != h.lower(x))
    ensures IsContains(op) ==> Verdict(h, v, Test(field, op, Str(x)), exists i: nat :: OccursAt(h.lower(x), h.lower(s), i))
  {
    hide Encode, Public, ParseOperator, Nested, Split, Storable, WellOrdered, PlainPath, Ascii, RawWhere, DocWhere, TakeString, Infix, OccursAt;
    NameParses(op);
    var t1 := OneEquality(h, v, field, Str(x));
    var t2 := OneTest(h, v, field, op, Str(x));
    TakeStringEncoded(Str(s), t1);
    TakeStringEncoded(Str(s), t2);
    PublicKind(Str(s));
    InfixMeaning(h.lower(x), h.lower(s));
  }

  /** One of the texts of the list is the text of the field. */
  ghost predicate AmongTexts(h: Host, s: Text, items: seq<Value>) {
    exists i :: 0 <= i < |items| && items[i].Str? && h.lower(items[i].s) == h.lower(s)
  }

  lemma {:induction false} AmongMeaning(h: Host, s: Text, items: seq<Value>)
    ensures Listed(h, Some(h.lower(s)), items) <==> AmongTexts(h, s, items)
    ensures MatchesAny(h, Str(s), items) <==> AmongTexts(h, s, items)
  {
    if items != [] {
      var rest := items[1..];
      AmongMeaning(h, s, rest);
      assert forall i | 0 <= i < |rest| :: rest[i] == items[i + 1];
      if AmongTexts(h, s, items) {
        var i :| 0 <= i < |items| && items[i].Str? && h.lower(items[i].s) == h.lower(s);
        if i > 0 { assert rest[i - 1] == items[i]; }
      }
    }
  }

  lemma ListMeaning(h: Host, v: Value, field: Text, op: string, s: Text, items: seq<Value>)
    requires Asked(v, field) && At(v, field) == Some(Str(s))
    ensures IsOneOf(op) ==> Verdict(h, v, Test(field, op, Arr(items)), AmongTexts(h, s, items))
    ensures IsNoneOf(op) ==> Verdict(h, v, Test(field, op, Arr(items)), !AmongTexts(h, s, items))
  {
    hide Encode, Public, ParseOperator, Nested, Split, Storable, WellOrdered, PlainPath, Ascii, RawWhere, DocWhere, TakeString, Infix,
         Listed, MatchesAny, AmongTexts;
    NameParses(op);
    var tail := OneTest(h, v, field, op, Arr(items));
    TakeStringEncoded(Str(s), tail);
    PublicKind(Str(s));
    AmongMeaning(h, s, items);
  }

  lemma BooleanMeaning(h: Host, v: Value, field: Text, op: string, b: bool, x: bool)
    requires Asked(v, field) && At(v, field) == Some(Bool(b))
    ensures Verdict(h, v, Is(field, Bool(x)), b == x)
    ensures IsEqual(op) ==> Verdict(h, v, Test(field, op, Bool(x)), b == x)
    ensures IsUnequal(op) ==> Verdict(h, v, Test(field, op, Bool(x)), b != x)
  {
    hide Encode, Public, ParseOperator, Nested, Split, Storable, WellOrdered, PlainPath, Ascii, RawWhere, DocWhere, TakeString, Infix, BoolAt;
    NameParses(op);
    var t1 := OneEquality(h, v, field, Bool(x));
    var t2 := OneTest(h, v, field, op, Bool(x));
    BoolAtEncoded(Bool(b), t1);
    BoolAtEncoded(Bool(b), t2);
    PublicKind(Bool(b));
  }

  /** Integers below 2^53 are equal or not, in all three forms. */
  lemma IntegerEquality(h: Host, v: Value, field: Text, op: string, m: nat, n: nat)
    requires Asked(v, field) && Tight(h) && m < TWO_53 && n < TWO_53 && At(v, field) == Some(Num(PosInt(m)))
    ensures Verdict(h, v, Is(field, Num(PosInt(n))), m == n)
    ensures IsEqual(op) ==> Verdict(h, v, Test(field, op, Num(PosInt(n))), m == n)
    ensures IsUnequal(op) ==> Verdict(h, v, Test(field, op, Num(PosInt(n))), m != n)
  {
    hide Encode, Public, ParseOperator, Nested, Split, Storable, WellOrdered, PlainPath, Ascii, RawWhere, DocWhere, TakeString, Infix, NumberAt;
    NameParses(op);
    var t1 := OneEquality(h, v, field, Num(PosInt(n)));
    var t2 := OneTest(h, v, field, op, Num(PosInt(n)));
    NumberAtEncoded(h, Num(PosInt(m)), t1);
    NumberAtEncoded(h, Num(PosInt(m)), t2);
    PublicKind(Num(PosInt(m)));
    SmallNear(h, m, n);
  }

  lemma SmallNear(h: Host, m: nat, n: nat)
    requires Tight(h) && m < TWO_53 && n < TWO_53
    ensures h.near(h.float(m), h.float(n)) <==> m == n
    ensures h.far(h.float(m), h.float(n)) <==> m != n
  {
  }

  // ----- Missing fields, and equality in general -----

  /** A missing field passes no test on bytes; decoded it is null, so that it differs from anything
      else. */
  lemma MissingMeaning(h: Host, v: Value, field: Text, op: string, w: Value)
    requires Asked(v, field) && At(v, field).None? && !w.Null?
    ensures RawWhere(h, Encode(v), Test(field, op, w)) == Some(false)
    ensures IsComparison(op) || IsEqual(op) || IsContains(op) ==> DocWhere(h, Public(v), Test(field, op, w)) == Ok(false)
    ensures IsUnequal(op) ==> DocWhere(h, Public(v), Test(field, op, w)) == Ok(true)
    ensures !w.Obj? ==> Verdict(h, v, Is(field, w), false)
  {
    hide Encode, Public, ParseOperator, Nested, Split, Storable, WellOrdered, PlainPath, Ascii, RawWhere, DocWhere, RawTest, IsComparison, Infix;
    NameParses(op);
    if IsComparison(op) { OrderingParses(op); }
    var t1 := OneTest(h, v, field, op, w);
    if !w.Obj? { var t2 := OneEquality(h, v, field, w); }
  }

  /** The value with every -0.0 replaced by 0.0. */
  function Unsigned(v: Value): Value
    decreases v, 1
  {
    match v
    case Num(Double(bits)) => Num(Double(if bits == TWO_63 then 0 else bits))
    case Arr(items) => Arr(UnsignedItems(items))
    case Obj(fs) => Obj(UnsignedFields(fs))
    case _ => v
  }

  function UnsignedItems(items: seq<Value>): (r: seq<Value>)
    ensures |r| == |items|
    decreases items, 0
  {
    if items == [] then [] else [Unsigned(items[0])] + UnsignedItems(items[1..])
  }

  function UnsignedFields(fs: seq<Field>): (r: seq<Field>)
    ensures |r| == |fs|
    decreases fs, 0
  {
    if fs == [] then [] else [Field(fs[0].key, Unsigned(fs[0].val))] + UnsignedFields(fs[1..])
  }

  /** Decoded values are equal iff they are the same value, but for the sign of zero. */
  lemma {:induction false} EqualityMeaning(h: Host, a: Value, b: Value)
    ensures JsonEq(h, a, b) <==> Unsigned(a) == Unsigned(b)
    decreases a, 1
  {
    match (a, b)
    case (Num(Double(x)), Num(Double(y))) => SameDouble(x, y);
    case (Arr(xs), Arr(ys)) => ItemsEquality(h, xs, ys);
    case (Obj(fs), Obj(gs)) => FieldsEquality(h, fs, gs);
    case _ =>
  }

  lemma SameDouble(x: FiniteDouble, y: FiniteDouble)
    ensures Floats.FloatSame(x, y) <==> (if x == TWO_63 then 0 else x) == (if y == TWO_63 then 0 else y)
  {
  }

  lemma {:induction false} ItemsEquality(h: Host, a: seq<Value>, b: seq<Value>)
    ensures ItemsEq(h, a, b) <==> UnsignedItems(a) == UnsignedItems(b)
    decreases a, 0
  {
    hide JsonEq, Unsigned;
    if a != [] && |a| == |b| {
      EqualityMeaning(h, a[0], b[0]);
      ItemsEquality(h, a[1..], b[1..]);
      assert UnsignedItems(a)[0] == Unsigned(a[0]) && UnsignedItems(b)[0] == Unsigned(b[0]);
      assert UnsignedItems(a)[1..] == UnsignedItems(a[1..]) && UnsignedItems(b)[1..] == UnsignedItems(b[1..]);
    }
  }

  lemma {:induction false} FieldsEquality(h: Host, a: seq<Field>, b: seq<Field>)
    ensures FieldsEq(h, a, b) <==> UnsignedFields(a) == UnsignedFields(b)
    decreases a, 0
  {
    hide JsonEq, Unsigned;
    if a != [] && |a| == |b| {
      EqualityMeaning(h, a[0].val, b[0].val);
      FieldsEquality(h, a[1..], b[1..]);
      assert UnsignedFields(a)[0] == Field(a[0].key, Unsigned(a[0].val)) && UnsignedFields(b)[0] == Field(b[0].key, Unsigned(b[0].val));
      assert UnsignedFields(a)[1..] == UnsignedFields(a[1..]) && UnsignedFields(b)[1..] == UnsignedFields(b[1..]);
    }
  }

  /** Decoded, a value that is not a text equals the operand in that sense. */
  lemma ValueEquality(h: Host, v: Value, field: Text, x: Value, w: Value)
    requires Asked(v, field) && At(v, field) == Some(x) && !x.Str? && !w.Obj?
    ensures DocWhere(h, Public(v), Is(field, w)) == Ok(Unsigned(Public(x)) == Unsigned(w))
  {
    hide Encode, Public, Nested, Split, Storable, WellOrdered, PlainPath, Ascii, RawWhere, DocWhere, RawTest, JsonEq, Unsigned;
    var t := OneEquality(h, v, field, w);
    PublicKind(x);
    EqualityMeaning(h, Public(x), w);
  }

  // ----- Logic -----

  ghost predicate SomeAccepts(h: Host, s: Bytes, items: seq<Value>) {
    exists i :: 0 <= i < |items| && RawWhere(h, s, items[i]) == Some(true)
  }

  ghost predicate AllAccept(h: Host, s: Bytes, items: seq<Value>) {
    forall i | 0 <= i < |items| :: RawWhere(h, s, items[i]) == Some(true)
  }

  lemma {:induction false} RawItems(h: Host, s: Bytes, items: seq<Value>)
    ensures RawAny(h, s, items) <==> SomeAccepts(h, s, items)
    ensures RawAll(h, s, items) <==> AllAccept(h, s, items)
  {
    hide RawWhere;
    if items != [] {
      var rest := items[1..];
      RawItems(h, s, rest);
      assert forall i | 0 <= i < |rest| :: rest[i] == items[i + 1];
      if i :| 0 <= i < |items| && RawWhere(h, s, items[i]) == Some(true) && i > 0 { assert rest[i - 1] == items[i]; }
      if AllAccept(h, s, rest) && RawWhere(h, s, items[0]) == Some(true) {
        forall i | 0 <= i < |items| ensures RawWhere(h, s, items[i]) == Some(true) { if i > 0 { assert rest[i - 1] == items[i]; } }
      }
    }
  }

  /** On bytes: `$or` asks for one clause, `$and` and a list of clauses for all of them. */
  lemma RawLogic(h: Host, s: Bytes, items: seq<Value>)
    ensures RawWhere(h, s, Is(Ascii("$or"), Arr(items))) == Some(SomeAccepts(h, s, items))
    ensures RawWhere(h, s, Is(Ascii("$and"), Arr(items))) == Some(AllAccept(h, s, items))
    ensures RawWhere(h, s, Arr(items)) == Some(AllAccept(h, s, items))
  {
    hide Ascii, SomeAccepts, AllAccept, RawAny, RawAll;
    ListNames();
    RawItems(h, s, items);
    OneField(h, s, OR, Arr(items));
    OneField(h, s, AND, Arr(items));
  }

  lemma OneField(h: Host, s: Bytes, k: Text, w: Value)
    ensures (k == OR || k == AND) && w.Arr? ==>
              RawFields(h, s, [Field(k, w)]) == Some(if k == OR then RawAny(h, s, w.items) else RawAll(h, s, w.items))
  {
    hide RawAny, RawAll;
    var fs := [Field(k, w)];
    assert fs[1..] == [];
    assert RawFields(h, s, fs[1..]) == Some(true);
    assert OR[1] != AND[1];
  }

  /** An object asks for all of its fields. */
  lemma {:induction false} RawObject(h: Host, s: Bytes, fs: seq<Field>)
    ensures RawWhere(h, s, Obj(fs)) == Some(true) <==> forall i | 0 <= i < |fs| :: RawWhere(h, s, Obj([fs[i]])) == Some(true)
    decreases fs
  {
    hide RawAny, RawAll, RawCondition;
    if fs != [] {
      var rest := fs[1..];
      RawObject(h, s, rest);
      FirstField(h, s, fs);
      assert forall i | 0 <= i < |rest| :: rest[i] == fs[i + 1];
      if RawWhere(h, s, Obj([fs[0]])) == Some(true) && forall i | 0 <= i < |rest| :: RawWhere(h, s, Obj([rest[i]])) == Some(true) {
        forall i | 0 <= i < |fs| ensures RawWhere(h, s, Obj([fs[i]])) == Some(true) { if i > 0 { assert rest[i - 1] == fs[i]; } }
      }
    }
  }

  lemma FirstField(h: Host, s: Bytes, fs: seq<Field>)
    requires fs != []
    ensures RawFields(h, s, fs) == Some(true) <==> RawFields(h, s, [fs[0]]) == Some(true) && RawFields(h, s, fs[1..]) == Some(true)
  {
    hide RawAny, RawAll, RawCondition;
    var one := [fs[0]];
    assert one[1..] == [];
    assert RawFields(h, s, one[1..]) == Some(true);
  }

  /** A condition asks for all of its tests. */
  lemma {:induction false} RawTests(h: Host, s: Bytes, field: Text, ops: seq<Field>)
    ensures RawOps(h, s, field, ops) <==> forall i | 0 <= i < |ops| :: RawOps(h, s, field, [ops[i]])
  {
    hide Predicate;
    if ops != [] {
      var rest := ops[1..];
      RawTests(h, s, field, rest);
      var one := [ops[0]];
      assert one[1..] == [];
      assert RawOps(h, s, field, one) <==> Predicate(h, s, field, ops[0].key, ops[0].val) == Some(true);
      assert forall i | 0 <= i < |rest| :: rest[i] == ops[i + 1];
      if RawOps(h, s, field, one) && forall i | 0 <= i < |rest| :: RawOps(h, s, field, [rest[i]]) {
        forall i | 0 <= i < |ops| ensures RawOps(h, s, field, [ops[i]]) { if i > 0 { assert rest[i - 1] == ops[i]; } }
      }
    }
  }

  // On the decoded document, where an evaluation can fail with an error.

  ghost predicate Errs(h: Host, d: Value, items: seq<Value>) {
    exists i :: 0 <= i < |items| && DocWhere(h, d, items[i]) == Err
  }

  ghost predicate SomeHolds(h: Host, d: Value, items: seq<Value>) {
    exists i :: 0 <= i < |items| && DocWhere(h, d, items[i]) == Ok(true)
  }

  ghost predicate AllHold(h: Host, d: Value, items: seq<Value>) {
    forall i | 0 <= i < |items| :: DocWhere(h, d, items[i]) == Ok(true)
  }

  lemma {:induction false} DocItems(h: Host, d: Value, items: seq<Value>)
    ensures DocAny(h, d, items) == Ok(true) ==> SomeHolds(h, d, items)
    ensures DocAll(h, d, items) == Ok(true) <==> AllHold(h, d, items)
    ensures DocAny(h, d, items) == Err || DocAll(h, d, items) == Err ==> Errs(h, d, items)
    ensures SomeHolds(h, d, items) ==> DocAny(h, d, items) == Ok(true) || Errs(h, d, items)
  {
    hide DocWhere;
    if items != [] {
      var rest := items[1..];
      DocItems(h, d, rest);
      assert forall i | 0 <= i < |rest| :: rest[i] == items[i + 1];
      if i :| 0 <= i < |items| && DocWhere(h, d, items[i]) == Ok(true) && i > 0 { assert rest[i - 1] == items[i]; }
      if AllHold(h, d, rest) && DocWhere(h, d, items[0]) == Ok(true) {
        forall i | 0 <= i < |items| ensures DocWhere(h, d, items[i]) == Ok(true) { if i > 0 { assert rest[i - 1] == items[i]; } }
      }
    }
  }

  /** Decoded, when no clause errs, the same logic. */
  lemma DocLogic(h: Host, d: Value, items: seq<Value>)
    requires !Errs(h, d, items)
    ensures DocWhere(h, d, Is(Ascii("$or"), Arr(items))) == Ok(SomeHolds(h, d, items))
    ensures DocWhere(h, d, Is(Ascii("$and"), Arr(items))) == Ok(AllHold(h, d, items))
    ensures DocWhere(h, d, Arr(items)) == Ok(AllHold(h, d, items))
  {
    hide Ascii, SomeHolds, AllHold, Errs, DocAny, DocAll;
    ListNames();
    DocItems(h, d, items);
    OneDocField(h, d, OR, Arr(items));
    OneDocField(h, d, AND, Arr(items));
  }

  lemma OneDocField(h: Host, d: Value, k: Text, w: Value)
    ensures (k == OR || k == AND) && w.Arr? ==>
              DocFields(h, d, [Field(k, w)]) == if k == OR then DocAny(h, d, w.items) else DocAll(h, d, w.items)
  {
    hide DocAny, DocAll;
    var fs := [Field(k, w)];
    assert fs[1..] == [];
    assert DocFields(h, d, fs[1..]) == Ok(true);
    assert OR[1] != AND[1];
  }

  /** An object asks for all of its fields. */
  lemma {:induction false} DocObject(h: Host, d: Value, fs: seq<Field>)
    ensures DocWhere(h, d, Obj(fs)) == Ok(true) <==> forall i | 0 <= i < |fs| :: DocWhere(h, d, Obj([fs[i]])) == Ok(true)
    decreases fs
  {
    hide DocAny, DocAll, DocCondition;
    if fs != [] {
      var rest := fs[1..];
      DocObject(h, d, rest);
      FirstDocField(h, d, fs);
      assert forall i | 0 <= i < |rest| :: rest[i] == fs[i + 1];
      if DocWhere(h, d, Obj([fs[0]])) == Ok(true) && forall i | 0 <= i < |rest| :: DocWhere(h, d, Obj([rest[i]])) == Ok(true) {
        forall i | 0 <= i < |fs| ensures DocWhere(h, d, Obj([fs[i]])) == Ok(true) { if i > 0 { assert rest[i - 1] == fs[i]; } }
      }
    }
  }

  lemma FirstDocField(h: Host, d: Value, fs: seq<Field>)
    requires fs != []
    ensures DocFields(h, d, fs) == Ok(true) <==> DocFields(h, d, [fs[0]]) == Ok(true) && DocFields(h, d, fs[1..]) == Ok(true)
  {
    hide DocAny, DocAll, DocCondition;
    var one := [fs[0]];
    assert one[1..] == [];
    assert DocFields(h, d, one[1..]) == Ok(true);
  }

  /** A condition asks for all of its tests. */
  lemma {:induction false} DocTests(h: Host, x: Value, ops: seq<Field>)
    ensures DocOps(h, x, ops) == Ok(true) <==> forall i | 0 <= i < |ops| :: DocOps(h, x, [ops[i]]) == Ok(true)
  {
    hide DocTest;
    if ops != [] {
      var rest := ops[1..];
      DocTests(h, x, rest);
      var one := [ops[0]];
      assert one[1..] == [];
      assert DocOps(h, x, one[1..]) == Ok(true);
      assert DocOps(h, x, one) == DocTest(h, x, ParseOperator(ops[0].key), ops[0].val);
      assert forall i | 0 <= i < |rest| :: rest[i] == ops[i + 1];
      if DocOps(h, x, one) == Ok(true) && forall i | 0 <= i < |rest| :: DocOps(h, x, [rest[i]]) == Ok(true) {
        forall i | 0 <= i < |ops| ensures DocOps(h, x, [ops[i]]) == Ok(true) { if i > 0 { assert rest[i - 1] == ops[i]; } }
      }
    }
  }

  // ----- System fields -----

  /** On bytes a comparison, equality or inequality on a system field is one on the raw reading. */
  lemma RawSystemMeaning(h: Host, b: Bytes, t: nat, op: string, s: u64, x: u64)
    requires Exact(h) && 1 <= t <= 6 && t != 2 && ReadToken(b, 256 - t) == Some(x) && s < TWO_53
    ensures var q := Test(PublicName(t), op, Num(PosInt(s)));
            && (IsComparison(op) ==> RawWhere(h, b, q) == Some(Says(op, x, s)))
            && (IsEqual(op) ==> RawWhere(h, b, q) == Some(x == s))
            && (IsUnequal(op) ==> RawWhere(h, b, q) == Some(x != s))
  {
    hide ReadToken, ParseOperator, Split, TokenOf, SystemToken, PublicName, RawTest, RawAny, RawAll, Find, NumberAt, Ascii, IsComparison;
    if IsComparison(op) { OrderingParses(op); }
    NameParses(op);
    NameIsNoLogic(t);
    var k := PublicName(t);
    var ops := [Field(Ascii(op), Num(PosInt(s)))];
    var fs := [Field(k, Obj(ops))];
    assert ops[1..] == [] && fs[1..] == [];
    assert RawOps(h, b, k, ops[1..]);
    assert RawFields(h, b, fs[1..]) == Some(true);
  }

  /** On the decoded document it is one on the decoded reading. */
  lemma DecodedSystemMeaning(h: Host, d: Value, t: nat, op: string, s: u64, y: u64)
    requires Exact(h) && d.Obj? && IsCanon(d) && 1 <= t <= 6 && t != 2
    requires U64At(d, TokenText(t)) == Some(y) && y < TWO_53 && s < TWO_53
    ensures var q := Test(PublicName(t), op, Num(PosInt(s)));
            && (IsComparison(op) ==> DocWhere(h, Expand(d), q) == Ok(Says(op, y, s)))
            && (IsEqual(op) ==> DocWhere(h, Expand(d), q) == Ok(y == s))
            && (IsUnequal(op) ==> DocWhere(h, Expand(d), q) == Ok(y != s))
  {
    hide ParseOperator, Split, Expand, Nested, DocAny, DocAll, Floats.ByValue, Floats.IsNaN, MatchesAny, Exact, IsCanon, TokenText, PublicName,
         SystemToken, Ascii, IsComparison;
    if IsComparison(op) { OrderingParses(op); }
    NameParses(op);
    NameIsNoLogic(t);
    PublicField(d, t, y);
    ExactBoth(h, y, s);
    var k, x := PublicName(t), Expand(d);
    var ops := [Field(Ascii(op), Num(PosInt(s)))];
    var fs := [Field(k, Obj(ops))];
    assert ops[1..] == [] && fs[1..] == [];
    assert DocOps(h, Num(PosInt(y)), ops[1..]) == Ok(true);
    assert DocFields(h, x, fs[1..]) == Ok(true);
  }

  lemma ExactBoth(h: Host, m: nat, n: nat)
    requires Exact(h) && m < TWO_53 && n < TWO_53
    ensures Floats.FloatLess(h.float(m), h.float(n)) <==> m < n
    ensures Floats.FloatLess(h.float(n), h.float(m)) <==> n < m
    ensures Floats.FloatAtMost(h.float(m), h.float(n)) <==> m <= n
    ensures Floats.FloatAtMost(h.float(n), h.float(m)) <==> n <= m
  {
    hide Exact;
    ExactLess(h, m, n);
    ExactLess(h, n, m);
    Floats.FiniteIsNumber(h.float(m));
    Floats.FiniteIsNumber(h.float(n));
  }
}
