/** WHERE clauses, evaluated on raw document bytes and on decoded documents. */
module Where {
  import opened Bytes
  import opened Json
  import opened Codec
  import opened Tokens
  import opened LogCodec
  import opened Walker
  import Floats

  /** What is taken from the host language: lower-casing, rounding to f64 and
      the decimal text of a number. Doubles are their 64-bit patterns. */
  datatype Host = Host(
    lower: Text -> Text,
    float: int -> FiniteDouble,   // `as f64` of an integer
    single: nat -> u64,           // an f32 pattern `as f64`
    near: (u64, u64) -> bool,     // |a - b| < f64::EPSILON
    far: (u64, u64) -> bool,      // |a - b| >= f64::EPSILON
    trunc: u64 -> u64,            // `as u64`
    digits: Number -> Text)       // decimal text of a number

  const TWO_53: nat := 0x20_0000_0000_0000

  /** Equal floats are not an epsilon apart, and for finite floats the two tests are complementary:
      true of IEEE-754, whose NaN differences fail both tests. */
  ghost predicate Sane(h: Host) {
    && (forall x: u64 :: !h.far(x, x)) && (forall x: u64, y: u64 :: Floats.FloatSame(x, y) ==> !h.far(x, y))
    && (forall x: FiniteDouble, y: FiniteDouble :: h.far(x, y) <==> !h.near(x, y))
  }

  /** `Value::as_f64`. */
  function AsFloat(h: Host, n: Number): FiniteDouble {
    match n case PosInt(u) => h.float(u) case NegInt(i) => h.float(i) case Double(bits) => bits
  }

  // ----- Operators -----

  datatype Operator = Eq | NotEq | Gt | Gte | Lt | Lte | In | NotIn | Contains | Or | And

  const OR: Text := [0x24, 0x6f, 0x72]          // $or
  const AND: Text := [0x24, 0x61, 0x6e, 0x64]   // $and
  const EQ: Text := [0x24, 0x65, 0x71]          // $eq
  const EQUALS: Text := [0x24, 0x65, 0x71, 0x75, 0x61, 0x6c, 0x73]  // $equals
  const NE: Text := [0x24, 0x6e, 0x65]  // $ne
  const NOT_EQUALS: Text := [0x24, 0x6e, 0x6f, 0x74, 0x45, 0x71, 0x75, 0x61, 0x6c, 0x73]  // $notEquals
  const GT: Text := [0x24, 0x67, 0x74]  // $gt
  const GREATER_THAN: Text := [0x24, 0x67, 0x72, 0x65, 0x61, 0x74, 0x65, 0x72, 0x54, 0x68, 0x61, 0x6e]  // $greaterThan
  const GTE: Text := [0x24, 0x67, 0x74, 0x65]  // $gte
  const GREATER_THAN_OR_EQUAL: Text := [0x24, 0x67, 0x72, 0x65, 0x61, 0x74, 0x65, 0x72, 0x54, 0x68, 0x61, 0x6e, 0x4f, 0x72, 0x45, 0x71, 0x75, 0x61, 0x6c]  // $greaterThanOrEqual
  const LT: Text := [0x24, 0x6c, 0x74]  // $lt
  const LESS_THAN: Text := [0x24, 0x6c, 0x65, 0x73, 0x73, 0x54, 0x68, 0x61, 0x6e]  // $lessThan
  const LTE: Text := [0x24, 0x6c, 0x74, 0x65]  // $lte
  const LESS_THAN_OR_EQUAL: Text := [0x24, 0x6c, 0x65, 0x73, 0x73, 0x54, 0x68, 0x61, 0x6e, 0x4f, 0x72, 0x45, 0x71, 0x75, 0x61, 0x6c]  // $lessThanOrEqual
  const IN: Text := [0x24, 0x69, 0x6e]  // $in
  const ONE_OF: Text := [0x24, 0x6f, 0x6e, 0x65, 0x4f, 0x66]  // $oneOf
  const NIN: Text := [0x24, 0x6e, 0x69, 0x6e]  // $nin
  const NOT_IN: Text := [0x24, 0x6e, 0x6f, 0x74, 0x49, 0x6e]  // $notIn
  const CT: Text := [0x24, 0x63, 0x74]  // $ct
  const CONTAINS: Text := [0x24, 0x63, 0x6f, 0x6e, 0x74, 0x61, 0x69, 0x6e, 0x73]  // $contains

  /** `WhereOperator::from_str`, with its aliases. */
  function ParseOperator(s: Text): Option<Operator> {
    if s == EQ || s == EQUALS then Some(Eq)
    else if s == NE || s == NOT_EQUALS then Some(NotEq)
    else if s == GT || s == GREATER_THAN then Some(Gt)
    else if s == GTE || s == GREATER_THAN_OR_EQUAL then Some(Gte)
    else if s == LT || s == LESS_THAN then Some(Lt)
    else if s == LTE || s == LESS_THAN_OR_EQUAL then Some(Lte)
    else if s == IN || s == ONE_OF then Some(In)
    else if s == NIN || s == NOT_IN then Some(NotIn)
    else if s == CT || s == CONTAINS then Some(Contains)
    else if s == OR then Some(Or)
    else if s == AND then Some(And)
    else None
  }

  /** `split('.')`. */
  function Split(s: Text): (r: Path)
    ensures r != []
  {
    if s == [] then [[]]
    else
      var r := Split(s[1..]);
      if s[0] == 0x2e then [[]] + r else [[s[0]] + r[0]] + r[1..]
  }

  predicate Prefix(a: Text, b: Text) {
    |a| <= |b| && b[..|a|] == a
  }

  /** `str::contains`. */
  predicate Infix(needle: Text, s: Text) {
    Prefix(needle, s) || (s != [] && Infix(needle, s[1..]))
  }

  // ----- Reading one value from bytes -----

  /** `read_msgpack_str` with its cursor, which moves even when no string is read. */
  function TakeString(s: Bytes): (r: (Option<Text>, Bytes))
    ensures |r.1| <= |s|
  {
    if s == [] then (None, s)
    else
      var b, t := s[0], s[1..];
      if !IsTextMarker(b) then (None, t)
      else match TextAfter(b, t) case Got(x, rest) => (Some(x), rest) case Fail => (None, AfterLength(b, t))
  }

  /** Where the cursor stands after the length of a string that could not be read. */
  function AfterLength(b: byte, t: Bytes): (r: Bytes)
    ensures |r| <= |t|
  {
    var n := if b == 0xd9 then 1 else if b == 0xda then 2 else if b == 0xdb then 4 else 0;
    if |t| < n then t else t[n..]
  }

  /** `read_msgpack_number`. */
  function NumberAt(h: Host, s: Bytes): Option<u64> {
    if s == [] then None
    else
      var b, t := s[0], s[1..];
      if b <= 0x7f then Some(h.float(b))
      else if b >= 0xe0 then Some(h.float(NegFix(b)))
      else if 0xca <= b <= 0xd3 then
        var n := if b in {0xcc, 0xd0} then 1 else if b in {0xcd, 0xd1} then 2 else if b in {0xce, 0xd2, 0xca} then 4 else 8;
        match Uint(t, n)
        case Fail => None
        case Got(u, _) =>
          Pow256Values();
          if b == 0xca then Some(h.single(u))
          else if b == 0xcb then Some(u)
          else if b <= 0xcf then Some(h.float(u))
          else Some(h.float(Signed(u, n)))
      else None
  }

  /** `read_msgpack_bool`. */
  function BoolAt(s: Bytes): Option<bool> {
    if s == [] then None else if s[0] == 0xc3 then Some(true) else if s[0] == 0xc2 then Some(false) else None
  }

  lemma TakeStringEncoded(v: Value, rest: Bytes)
    requires Storable(v)
    ensures TakeString(Encode(v) + rest).0 == if v.Str? then Some(v.s) else None
  {
    hide Uint, BigEndian, EncodeItems, EncodeFields, TakeText, SizedText, StorableItems, StorableFields;
    if v.Str? {
      hide TextAfter, EncodeText;
      TextHeaderRoundTrip(v.s, rest);
    }
  }

  /** Decoding and the number reader agree on every number but a single-precision one. */
  lemma NumberAtDecoded(h: Host, s: Bytes)
    requires s != [] && s[0] != 0xca
    ensures match DecodeValue(s) { case Got(Num(n), _) => NumberAt(h, s) == Some(AsFloat(h, n)) case _ => true }
  {
    hide Uint, Pow256, TextAfter, DecodeItems, DecodeFields, ArrCount, MapCount, Widen;
    Pow256Values();
  }

  lemma NumberAtEncoded(h: Host, v: Value, rest: Bytes)
    requires Storable(v)
    ensures NumberAt(h, Encode(v) + rest) == if v.Num? then Some(AsFloat(h, v.n)) else None
  {
    hide Uint, BigEndian, EncodeItems, EncodeFields, DecodeValue, StorableItems, StorableFields;
    if v.Num? {
      hide NumberAt;
      NumberRoundTrip(v.n, rest);
      NumberAtDecoded(h, Encode(v) + rest);
    }
  }

  lemma BoolAtEncoded(v: Value, rest: Bytes)
    requires Storable(v)
    ensures BoolAt(Encode(v) + rest) == if v.Bool? then Some(v.b) else None
  {
    hide Uint, BigEndian, EncodeItems, EncodeFields, StorableItems, StorableFields;
  }

  // ----- One predicate on raw bytes -----

  /** The token byte behind a public system name; `_key` has none here. */
  function SystemToken(field: Text): Option<byte> {
    if field == SEQ || field == CREATED_AT || field == MODIFIED_AT || field == EXPIRES_AT || field == VERSION
    then Some(256 - TokenOf(field)) else None
  }

  /** `read_msgpack_system_field_u64`. */
  function SystemField(s: Bytes, field: Text): Option<u64> {
    match SystemToken(field) case None => None case Some(token) => ReadToken(s, token)
  }

  function SystemTest(x: u64, op: Operator, t: u64): Option<bool> {
    match op
    case Gt => Some(x > t)
    case Gte => Some(x >= t)
    case Lt => Some(x < t)
    case Lte => Some(x <= t)
    case Eq => Some(x == t)
    case NotEq => Some(x != t)
    case _ => None
  }

  /** Some string of the list equals the lower-cased text. */
  function Listed(h: Host, actual: Option<Text>, items: seq<Value>): bool {
    items != [] &&
    ((items[0].Str? && actual == Some(h.lower(items[0].s))) || Listed(h, actual, items[1..]))
  }

  /** Some string element holds the needle; the cursor has already moved when an element is skipped. */
  function ElementHit(h: Host, s: Bytes, n: nat, needle: Text): bool
    decreases n
  {
    n > 0 &&
    var (x, rest) := TakeString(s);
    match x
    case Some(e) => Infix(needle, h.lower(e)) || ElementHit(h, rest, n - 1, needle)
    case None => ElementHit(h, SkipOrEnd(rest), n - 1, needle)
  }

  function LoweredAt(h: Host, s: Bytes): Option<Text> {
    match TakeString(s).0 case None => None case Some(x) => Some(h.lower(x))
  }

  /** The tests of `evaluate_predicate_msgpack` on the bytes from the field's value on. */
  function RawTest(h: Host, s: Bytes, op: Operator, v: Value): Option<bool> {
    match op
    case Eq =>
      (match v
       case Str(x) => (match LoweredAt(h, s) case None => None case Some(a) => Some(a == h.lower(x)))
       case Num(n) => (match NumberAt(h, s) case None => None case Some(a) => Some(h.near(a, AsFloat(h, n))))
       case Bool(b) => (match BoolAt(s) case None => None case Some(a) => Some(a == b))
       case _ => None)
    case NotEq =>
      (match v
       case Str(x) => (match LoweredAt(h, s) case None => None case Some(a) => Some(a != h.lower(x)))
       case Num(n) => (match NumberAt(h, s) case None => None case Some(a) => Some(h.far(a, AsFloat(h, n))))
       case Bool(b) => (match BoolAt(s) case None => None case Some(a) => Some(a != b))
       case _ => None)
    case In => if v.Arr? then Some(Listed(h, LoweredAt(h, s), v.items)) else None
    case NotIn => if v.Arr? then Some(!Listed(h, LoweredAt(h, s), v.items)) else None
    case Contains =>
      if !v.Str? then None
      else
        (match LoweredAt(h, s)
         case Some(x) => Some(Infix(h.lower(v.s), x))
         case None =>
           if s == [] then None
           else match ArrCount(s[0], s[1..])
             case Fail => None
             case Got(n, rest) => Some(ElementHit(h, rest, n, h.lower(v.s))))
    case Or => None
    case And => None
    case _ =>
      if !v.Num? then None
      else match NumberAt(h, s) case None => None case Some(a) => Some(Passes(op, a, AsFloat(h, v.n)))
  }

  predicate IsOrdering(op: Operator) {
    op.Gt? || op.Gte? || op.Lt? || op.Lte?
  }

  function Passes(op: Operator, a: u64, b: u64): bool
    requires IsOrdering(op)
  {
    match op
    case Gt => Floats.FloatLess(b, a)
    case Gte => Floats.FloatAtMost(b, a)
    case Lt => Floats.FloatLess(a, b)
    case Lte => Floats.FloatAtMost(a, b)
  }

  /** `evaluate_predicate_msgpack`. */
  function Predicate(h: Host, s: Bytes, field: Text, op: Text, v: Value): Option<bool> {
    match SystemField(s, field)
    case Some(x) =>
      if !v.Num? then None
      else (match ParseOperator(op) case None => None case Some(o) => SystemTest(x, o, h.trunc(AsFloat(h, v.n))))
    case None =>
      match Find(s, Split(field))
      case None => None
      case Some(slice) => match ParseOperator(op) case None => None case Some(o) => RawTest(h, slice, o, v)
  }

  // ----- A clause on raw bytes -----

  /** `evaluate_where_msgpack`; `None` counts as a rejection wherever it is used. */
  function RawWhere(h: Host, s: Bytes, q: Value): Option<bool>
    decreases q, 1
  {
    match q
    case Arr(items) => Some(RawAll(h, s, items))
    case Obj(fs) => RawFields(h, s, fs)
    case _ => None
  }

  predicate RawAll(h: Host, s: Bytes, items: seq<Value>)
    decreases items, 0
  {
    items == [] || (RawWhere(h, s, items[0]) == Some(true) && RawAll(h, s, items[1..]))
  }

  predicate RawAny(h: Host, s: Bytes, items: seq<Value>)
    decreases items, 0
  {
    items != [] && (RawWhere(h, s, items[0]) == Some(true) || RawAny(h, s, items[1..]))
  }

  predicate RawOps(h: Host, s: Bytes, field: Text, ops: seq<Field>) {
    ops == [] || (Predicate(h, s, field, ops[0].key, ops[0].val) == Some(true) && RawOps(h, s, field, ops[1..]))
  }

  /** A field condition: an operator object or an implied equality. */
  predicate RawCondition(h: Host, s: Bytes, field: Text, cond: Value) {
    if cond.Obj? then RawOps(h, s, field, cond.fields) else Predicate(h, s, field, EQ, cond) == Some(true)
  }

  function RawFields(h: Host, s: Bytes, fs: seq<Field>): Option<bool>
    decreases fs, 0
  {
    if fs == [] then Some(true)
    else
      var key, cond := fs[0].key, fs[0].val;
      if (key == OR || key == AND) && !cond.Arr? then None
      else if (if key == OR then RawAny(h, s, cond.items)
               else if key == AND then RawAll(h, s, cond.items)
               else RawCondition(h, s, key, cond))
      then RawFields(h, s, fs[1..]) else Some(false)
  }

  // ----- A clause on a decoded document -----

  datatype Outcome = Ok(b: bool) | Err

  /** Equality of JSON values: doubles compare as numbers. */
  predicate JsonEq(h: Host, a: Value, b: Value)
    decreases a, 1
  {
    match (a, b)
    case (Num(Double(x)), Num(Double(y))) => Floats.FloatSame(x, y)
    case (Arr(xs), Arr(ys)) => ItemsEq(h, xs, ys)
    case (Obj(fs), Obj(gs)) => FieldsEq(h, fs, gs)
    case _ => a == b
  }

  predicate ItemsEq(h: Host, a: seq<Value>, b: seq<Value>)
    decreases a, 0
  {
    |a| == |b| && (a == [] || (JsonEq(h, a[0], b[0]) && ItemsEq(h, a[1..], b[1..])))
  }

  predicate FieldsEq(h: Host, a: seq<Field>, b: seq<Field>)
    decreases a, 0
  {
    |a| == |b| && (a == [] || (a[0].key == b[0].key && JsonEq(h, a[0].val, b[0].val) && FieldsEq(h, a[1..], b[1..])))
  }

  predicate Matches(h: Host, a: Value, b: Value) {
    if a.Str? && b.Str? then h.lower(a.s) == h.lower(b.s) else JsonEq(h, a, b)
  }

  predicate MatchesAny(h: Host, d: Value, items: seq<Value>) {
    items != [] && (Matches(h, d, items[0]) || MatchesAny(h, d, items[1..]))
  }

  predicate HasItem(h: Host, items: seq<Value>, v: Value) {
    items != [] && (JsonEq(h, items[0], v) || HasItem(h, items[1..], v))
  }

  function DocTest(h: Host, d: Value, op: Option<Operator>, v: Value): Outcome {
    match op
    case None => Err
    case Some(o) =>
      match o
      case Eq => Ok(Matches(h, d, v))
      case NotEq => Ok(!Matches(h, d, v))
      case In => if v.Arr? then Ok(MatchesAny(h, d, v.items)) else Err
      case NotIn => if v.Arr? then Ok(!MatchesAny(h, d, v.items)) else Err
      case Contains =>
        if d.Str? then Ok(v.Str? && Infix(h.lower(v.s), h.lower(d.s)))
        else Ok(d.Arr? && HasItem(h, d.items, v))
      case Or => Err
      case And => Err
      case _ => Ok(d.Num? && v.Num? && Passes(o, AsFloat(h, d.n), AsFloat(h, v.n)))
  }

  /** `evaluate_where`. */
  function DocWhere(h: Host, d: Value, q: Value): Outcome
    decreases q, 1
  {
    match q
    case Arr(items) => DocAll(h, d, items)
    case Obj(fs) => DocFields(h, d, fs)
    case _ => Ok(true)
  }

  /** Evaluation stops at the first rejection or error. */
  function Then(a: Outcome, b: Outcome): Outcome {
    if a == Ok(true) then b else a
  }

  function DocAll(h: Host, d: Value, items: seq<Value>): Outcome
    decreases items, 0
  {
    if items == [] then Ok(true) else Then(DocWhere(h, d, items[0]), DocAll(h, d, items[1..]))
  }

  function DocAny(h: Host, d: Value, items: seq<Value>): Outcome
    decreases items, 0
  {
    if items == [] then Ok(false)
    else var r := DocWhere(h, d, items[0]); if r == Ok(false) then DocAny(h, d, items[1..]) else r
  }

  function DocOps(h: Host, d: Value, ops: seq<Field>): Outcome {
    if ops == [] then Ok(true)
    else Then(DocTest(h, d, ParseOperator(ops[0].key), ops[0].val), DocOps(h, d, ops[1..]))
  }

  /** A missing field is null to an operator and matches no implied equality. */
  function DocCondition(h: Host, d: Value, field: Text, cond: Value): Outcome {
    var x := Nested(d, Split(field));
    if cond.Obj? then DocOps(h, if x.Some? then x.value else Null, cond.fields)
    else Ok(x.Some? && Matches(h, x.value, cond))
  }

  function DocFields(h: Host, d: Value, fs: seq<Field>): Outcome
    decreases fs, 0
  {
    if fs == [] then Ok(true)
    else
      var key, cond := fs[0].key, fs[0].val;
      if (key == OR || key == AND) && !cond.Arr? then Err
      else
        Then(if key == OR then DocAny(h, d, cond.items)
             else if key == AND then DocAll(h, d, cond.items)
             else DocCondition(h, d, key, cond),
             DocFields(h, d, fs[1..]))
  }
}
