/** The tokenised MessagePack codec, specified on byte strings: encoding appends, decoding
    consumes a prefix and returns the rest. */
module Codec {
  import opened Bytes
  import opened Json

  // ----- Encoding -----

  /** A length header: `short` holds lengths up to `limit` in one byte, then 8 (strings only),
      16 and 32 bit forms follow. Lengths are cast to u32 by the writer. */
  function StrHeader(len: nat): Bytes {
    if len <= 31 then [0xa0 + len]
    else if len <= 0xff then [0xd9, len]
    else if len <= 0xffff then [0xda] + BigEndian(2, len)
    else [0xdb] + BigEndian(4, len % TWO_32)
  }

  function ArrHeader(len: nat): Bytes {
    if len <= 15 then [0x90 + len]
    else if len <= 0xffff then [0xdc] + BigEndian(2, len)
    else [0xdd] + BigEndian(4, len % TWO_32)
  }

  function MapHeader(len: nat): Bytes {
    if len <= 15 then [0x80 + len]
    else if len <= 0xffff then [0xde] + BigEndian(2, len)
    else [0xdf] + BigEndian(4, len % TWO_32)
  }

  function EncodeText(s: Text): Bytes {
    StrHeader(|s|) + s
  }

  function EncodeKey(k: Text): Bytes {
    if TokenOf(k) == 0 then EncodeText(k) else [256 - TokenOf(k)]
  }

  function EncodeNumber(n: Number): Bytes {
    match n
    case PosInt(u) =>
      if u <= 0x7f then [u]
      else if u <= 0xff then [0xcc, u]
      else if u <= 0xffff then [0xcd] + BigEndian(2, u)
      else if u <= 0xffff_ffff then [0xce] + BigEndian(4, u)
      else [0xcf] + BigEndian(8, u)
    case NegInt(i) =>
      if i >= -32 then [256 + i]
      else if i >= -0x80 then [0xd0, 256 + i]
      else if i >= -0x8000 then [0xd1] + BigEndian(2, i + 0x1_0000)
      else if i >= -0x8000_0000 then [0xd2] + BigEndian(4, i + TWO_32)
      else [0xd3] + BigEndian(8, i + TWO_64)
    case Double(bits) => [0xcb] + BigEndian(8, bits)
  }

  function Encode(v: Value): Bytes
    decreases v, 1
  {
    match v
    case Null => [0xc0]
    case Bool(b) => [if b then 0xc3 else 0xc2]
    case Num(n) => EncodeNumber(n)
    case Str(s) => EncodeText(s)
    case Arr(items) => ArrHeader(|items|) + EncodeItems(items)
    case Obj(fs) => MapHeader(|fs|) + EncodeFields(fs)
  }

  function EncodeItems(items: seq<Value>): Bytes
    decreases items, 0
  {
    if items == [] then [] else Encode(items[0]) + EncodeItems(items[1..])
  }

  function EncodeFields(fs: seq<Field>): Bytes
    decreases fs, 0
  {
    if fs == [] then [] else EncodeKey(fs[0].key) + Encode(fs[0].val) + EncodeFields(fs[1..])
  }

  // ----- Decoding -----

  datatype Parsed<+T> = Fail | Got(val: T, rest: Bytes)

  /** An unsigned big-endian integer of `n` bytes at the front of `s`. */
  function Uint(s: Bytes, n: nat): (r: Parsed<nat>)
    ensures r.Got? ==> |s| == n + |r.rest| && r.rest == s[n..] && r.val < Pow256(n)
  {
    if |s| < n then Fail
    else
      FromBigEndianBound(s[..n]);
      Got(FromBigEndian(s[..n]), s[n..])
  }

  /** Two's complement reading of an `n`-byte pattern. */
  function Signed(u: nat, n: nat): int
    requires u < Pow256(n)
  {
    if u < Pow256(n) / 2 then u else u - Pow256(n)
  }

  function FromI64(i: int): Number
    requires -0x8000_0000_0000_0000 <= i < 0x8000_0000_0000_0000
  {
    if i >= 0 then PosInt(i) else NegInt(i)
  }

  function UintNumber(s: Bytes, n: nat): (r: Parsed<Value>)
    requires n in {1, 2, 4, 8}
    ensures r.Got? ==> |r.rest| <= |s|
  {
    match Uint(s, n)
    case Fail => Fail
    case Got(u, rest) => Pow256Values(); Got(Num(PosInt(u)), rest)
  }

  function IntNumber(s: Bytes, n: nat): (r: Parsed<Value>)
    requires n in {1, 2, 4, 8}
    ensures r.Got? ==> |r.rest| <= |s|
  {
    match Uint(s, n)
    case Fail => Fail
    case Got(u, rest) => Pow256Values(); Got(Num(FromI64(Signed(u, n))), rest)
  }

  /** A negative FixInt byte as an `i8`. */
  function NegFix(b: int): NegativeInt
    requires 0xe0 <= b <= 0xff
  {
    b - 256
  }

  /** A double from its sign, exponent and fraction. */
  function Compose(negative: bool, e: nat, m: nat): FiniteDouble
    requires e < 2047 && m < 0x10_0000_0000_0000
  {
    var high := if negative then 2048 + e else e;
    var bits := high * 0x10_0000_0000_0000 + m;
    assert bits / 0x10_0000_0000_0000 == high;
    bits
  }

  /** A single-precision pattern as the double of the same value; None for infinities and NaN. */
  function Widen(x: nat): Option<FiniteDouble>
    requires x < TWO_32
  {
    var negative := x >= 0x8000_0000;
    var e := (x / 0x80_0000) % 256;
    var m := x % 0x80_0000;
    if e == 255 then None
    else if e == 0 && m == 0 then Some(Compose(negative, 0, 0))
    else
      var (m', e') := if e == 0 then Normalise(m, 897) else (m, e + 896);
      Some(Compose(negative, e', m' * 0x2000_0000))
  }

  /** Shifts a subnormal fraction up to an implicit leading one (at most 23 times). */
  function Normalise(m: nat, e: nat): (r: (nat, nat))
    requires m < 0x80_0000 && 0 < e <= 897
    ensures r.0 < 0x80_0000 && 0 < r.1 <= 897
    decreases e
  {
    if 2 * m >= 0x80_0000 || e == 1 then ((2 * m) % 0x80_0000, if e == 1 then 1 else e - 1)
    else Normalise(2 * m, e - 1)
  }

  function DoubleNumber(s: Bytes, n: nat): (r: Parsed<Value>)
    requires n in {4, 8}
    ensures r.Got? ==> |r.rest| <= |s|
  {
    match Uint(s, n)
    case Fail => Fail
    case Got(u, rest) =>
      Pow256Values();
      if n == 4 then
        match Widen(u) { case None => Fail case Some(d) => Got(Num(Double(d)), rest) }
      else if (u / 0x10_0000_0000_0000) % 2048 != 2047 then Got(Num(Double(u)), rest)
      else Fail
  }

  /** `len` bytes of text at the front of `s`. */
  function TakeText(s: Bytes, len: nat): (r: Parsed<Text>)
    ensures r.Got? ==> |r.rest| <= |s|
  {
    if |s| < len || !Utf8(s[..len]) then Fail else Got(s[..len], s[len..])
  }

  function SizedText(s: Bytes, n: nat): (r: Parsed<Text>)
    ensures r.Got? ==> |r.rest| <= |s|
  {
    match Uint(s, n) case Fail => Fail case Got(len, rest) => TakeText(rest, len)
  }

  /** A string after its marker byte `b`. */
  function TextAfter(b: byte, s: Bytes): (r: Parsed<Text>)
    ensures r.Got? ==> |r.rest| <= |s|
  {
    if 0xa0 <= b <= 0xbf then TakeText(s, b - 0xa0)
    else if b == 0xd9 then SizedText(s, 1)
    else if b == 0xda then SizedText(s, 2)
    else if b == 0xdb then SizedText(s, 4)
    else Fail
  }

  predicate IsTextMarker(b: byte) {
    0xa0 <= b <= 0xbf || 0xd9 <= b <= 0xdb
  }

  /** The element count of an array after its marker byte. */
  function ArrCount(b: byte, s: Bytes): (r: Parsed<nat>)
    ensures r.Got? ==> |r.rest| <= |s|
  {
    if 0x90 <= b <= 0x9f then Got(b - 0x90, s)
    else if b == 0xdc then Uint(s, 2)
    else if b == 0xdd then Uint(s, 4)
    else Fail
  }

  predicate IsArrMarker(b: byte) {
    0x90 <= b <= 0x9f || 0xdc <= b <= 0xdd
  }

  /** The entry count of a map after its marker byte. */
  function MapCount(b: byte, s: Bytes): (r: Parsed<nat>)
    ensures r.Got? ==> |r.rest| <= |s|
  {
    if 0x80 <= b <= 0x8f then Got(b - 0x80, s)
    else if b == 0xde then Uint(s, 2)
    else if b == 0xdf then Uint(s, 4)
    else Fail
  }

  predicate IsMapMarker(b: byte) {
    0x80 <= b <= 0x8f || 0xde <= b <= 0xdf
  }

  /** Binary data is stepped over without a bounds check and read as null. */
  function SkipBin(s: Bytes, n: nat): (r: Parsed<Value>)
    ensures r.Got? ==> |r.rest| <= |s|
  {
    match Uint(s, n)
    case Fail => Fail
    case Got(len, rest) => Got(Null, if len <= |rest| then rest[len..] else [])
  }

  function DecodeValue(s: Bytes): (r: Parsed<Value>)
    ensures r.Got? ==> |r.rest| < |s|
    decreases |s|, 0
  {
    if s == [] then Fail
    else
      var b, t := s[0], s[1..];
      if b <= 0x7f then Got(Num(PosInt(b)), t)
      else if b >= 0xe0 then Got(Num(NegInt(NegFix(b))), t)
      else if IsTextMarker(b) then
        match TextAfter(b, t) { case Fail => Fail case Got(x, rest) => Got(Str(x), rest) }
      else if IsArrMarker(b) then
        match ArrCount(b, t) {
          case Fail => Fail
          case Got(n, rest) =>
            match DecodeItems(rest, n) { case Fail => Fail case Got(items, rest') => Got(Arr(items), rest') }
        }
      else if IsMapMarker(b) then
        match MapCount(b, t) {
          case Fail => Fail
          case Got(n, rest) =>
            match DecodeFields(rest, n, []) { case Fail => Fail case Got(fs, rest') => Got(Obj(fs), rest') }
        }
      else ScalarAfter(b, t)
  }

  /** Nil, booleans, wide integers, floats and binary data after their marker byte. */
  function ScalarAfter(b: byte, t: Bytes): (r: Parsed<Value>)
    ensures r.Got? ==> |r.rest| <= |t|
  {
    if b == 0xc0 then Got(Null, t)
    else if b == 0xc2 then Got(Bool(false), t)
    else if b == 0xc3 then Got(Bool(true), t)
    else if b == 0xcc then UintNumber(t, 1)
    else if b == 0xcd then UintNumber(t, 2)
    else if b == 0xce then UintNumber(t, 4)
    else if b == 0xcf then UintNumber(t, 8)
    else if b == 0xd0 then IntNumber(t, 1)
    else if b == 0xd1 then IntNumber(t, 2)
    else if b == 0xd2 then IntNumber(t, 4)
    else if b == 0xd3 then IntNumber(t, 8)
    else if b == 0xca then DoubleNumber(t, 4)
    else if b == 0xcb then DoubleNumber(t, 8)
    else if b == 0xc4 then SkipBin(t, 1)
    else if b == 0xc5 then SkipBin(t, 2)
    else if b == 0xc6 then SkipBin(t, 4)
    else Fail
  }

  function DecodeItems(s: Bytes, n: nat): (r: Parsed<seq<Value>>)
    ensures r.Got? ==> |r.rest| <= |s|
    decreases |s|, 1
  {
    if n == 0 then Got([], s)
    else
      match DecodeValue(s)
      case Fail => Fail
      case Got(v, rest) =>
        match DecodeItems(rest, n - 1)
        case Fail => Fail
        case Got(vs, rest') => Got([v] + vs, rest')
  }

  function DecodeKey(s: Bytes): (r: Parsed<Text>)
    ensures r.Got? ==> |r.rest| < |s|
    decreases |s|, 1
  {
    if s == [] then Fail
    else if s[0] >= 0xe0 then Got(TokenText(256 - s[0]), s[1..])
    else
      match DecodeValue(s)
      case Got(Str(k), rest) => Got(k, rest)
      case _ => Fail
  }

  /** Reads `n` entries into the map `acc`; a repeated key overwrites. */
  function DecodeFields(s: Bytes, n: nat, acc: seq<Field>): (r: Parsed<seq<Field>>)
    ensures r.Got? ==> |r.rest| <= |s|
    decreases |s|, 2
  {
    if n == 0 then Got(acc, s)
    else
      match DecodeKey(s)
      case Fail => Fail
      case Got(k, rest) =>
        match DecodeValue(rest)
        case Fail => Fail
        case Got(v, rest') => DecodeFields(rest', n - 1, Insert(acc, k, v))
  }

  /** `msgpack_to_value`: trailing bytes are ignored. */
  function Decode(s: Bytes): Option<Value> {
    match DecodeValue(s) case Fail => None case Got(v, _) => Some(v)
  }

  // ----- Round trip -----

  /** Text is valid UTF-8 and every length fits the 32-bit header. */
  predicate Storable(v: Value)
    decreases v, 1
  {
    match v
    case Str(s) => StorableText(s)
    case Arr(items) => |items| < TWO_32 && StorableItems(items)
    case Obj(fs) => |fs| < TWO_32 && StorableFields(fs)
    case _ => true
  }

  predicate StorableText(s: Text) {
    Utf8(s) && |s| < TWO_32
  }

  predicate StorableItems(items: seq<Value>)
    decreases items, 0
  {
    items == [] || (Storable(items[0]) && StorableItems(items[1..]))
  }

  predicate StorableFields(fs: seq<Field>)
    decreases fs, 0
  {
    fs == [] || (StorableText(fs[0].key) && Storable(fs[0].val) && StorableFields(fs[1..]))
  }

  lemma UintRoundTrip(n: nat, x: nat, rest: Bytes)
    requires x < Pow256(n)
    ensures Uint(BigEndian(n, x) + rest, n) == Got(x, rest)
  {
    BigEndianRoundTrip(n, x);
    var s := BigEndian(n, x) + rest;
    assert s[..n] == BigEndian(n, x) && s[n..] == rest;
  }

  lemma OneByte(x: byte, rest: Bytes)
    ensures Uint([x] + rest, 1) == Got(x, rest)
  {
    var s := [x] + rest;
    assert s[..1] == [x] && s[1..] == rest;
    assert FromBigEndian([x]) == FromBigEndian([x][..0]) * 256 + x;
  }

  /** Every marker that is not a FixInt, string, array or map is read by `ScalarAfter`. */
  lemma ScalarStep(b: byte, t: Bytes)
    requires 0xc0 <= b <= 0xd3
    ensures DecodeValue([b] + t) == ScalarAfter(b, t)
  {
    assert ([b] + t)[1..] == t;
  }

  lemma WideRoundTrip(b: byte, n: nat, x: nat, rest: Bytes)
    requires 0xc0 <= b <= 0xd3 && x < Pow256(n)
    ensures var s := [b] + BigEndian(n, x) + rest;
            DecodeValue(s) == ScalarAfter(b, BigEndian(n, x) + rest)
    ensures Uint(BigEndian(n, x) + rest, n) == Got(x, rest)
  {
    hide DecodeValue, ScalarAfter, BigEndian, Uint, Pow256;
    ScalarStep(b, BigEndian(n, x) + rest);
    UintRoundTrip(n, x, rest);
    assert [b] + BigEndian(n, x) + rest == [b] + (BigEndian(n, x) + rest);
  }

  lemma ByteIsBigEndian(x: byte)
    ensures BigEndian(1, x) == [x]
  {
    assert BigEndian(1, x) == BigEndian(0, x / 256) + [x % 256];
  }

  lemma PosIntRoundTrip(u: u64, rest: Bytes)
    ensures DecodeValue(EncodeNumber(PosInt(u)) + rest) == Got(Num(PosInt(u)), rest)
  {
    Pow256Values();
    if u <= 0x7f {
      assert ([u] + rest)[1..] == rest;
    } else if u <= 0xff {
      ByteIsBigEndian(u);
      WideRoundTrip(0xcc, 1, u, rest);
    } else if u <= 0xffff {
      WideRoundTrip(0xcd, 2, u, rest);
    } else if u <= 0xffff_ffff {
      WideRoundTrip(0xce, 4, u, rest);
    } else {
      WideRoundTrip(0xcf, 8, u, rest);
    }
  }

  lemma NegWideRoundTrip(b: byte, n: nat, i: NegativeInt, rest: Bytes)
    requires (b == 0xd0 && n == 1) || (b == 0xd1 && n == 2) || (b == 0xd2 && n == 4) || (b == 0xd3 && n == 8)
    requires i + Pow256(n) >= Pow256(n) / 2
    ensures DecodeValue([b] + BigEndian(n, i + Pow256(n)) + rest) == Got(Num(NegInt(i)), rest)
  {
    hide DecodeValue, Uint, BigEndian;
    Pow256Values();
    WideRoundTrip(b, n, i + Pow256(n), rest);
    assert ScalarAfter(b, BigEndian(n, i + Pow256(n)) + rest) == IntNumber(BigEndian(n, i + Pow256(n)) + rest, n);
  }

  lemma FixIntRoundTrip(b: byte, rest: Bytes)
    requires b >= 0xe0
    ensures DecodeValue([b] + rest) == Got(Num(NegInt(NegFix(b))), rest)
  {
    assert ([b] + rest)[1..] == rest;
  }

  lemma NegIntRoundTrip(i: NegativeInt, rest: Bytes)
    ensures DecodeValue(EncodeNumber(NegInt(i)) + rest) == Got(Num(NegInt(i)), rest)
  {
    hide BigEndian, DecodeValue;
    Pow256Values();
    if i >= -32 {
      FixIntRoundTrip(256 + i, rest);
    } else if i >= -0x80 {
      ByteIsBigEndian(256 + i);
      NegWideRoundTrip(0xd0, 1, i, rest);
      assert [0xd0, 256 + i] == [0xd0] + [256 + i];
    } else if i >= -0x8000 {
      NegWideRoundTrip(0xd1, 2, i, rest);
    } else if i >= -0x8000_0000 {
      NegWideRoundTrip(0xd2, 4, i, rest);
    } else {
      NegWideRoundTrip(0xd3, 8, i, rest);
    }
  }

  lemma NumberRoundTrip(n: Number, rest: Bytes)
    ensures DecodeValue(EncodeNumber(n) + rest) == Got(Num(n), rest)
  {
    match n
    case PosInt(u) => PosIntRoundTrip(u, rest);
    case NegInt(i) => NegIntRoundTrip(i, rest);
    case Double(bits) => Pow256Values(); WideRoundTrip(0xcb, 8, bits, rest);
  }

  lemma SizedTextRoundTrip(n: nat, x: Text, rest: Bytes)
    requires StorableText(x) && |x| < Pow256(n)
    ensures SizedText(BigEndian(n, |x|) + (x + rest), n) == Got(x, rest)
    ensures TakeText(x + rest, |x|) == Got(x, rest)
  {
    UintRoundTrip(n, |x|, x + rest);
    SplitHeader([0], x, rest);
  }

  lemma TextHeaderRoundTrip(x: Text, rest: Bytes)
    requires StorableText(x)
    ensures var s := EncodeText(x) + rest;
            IsTextMarker(s[0]) && TextAfter(s[0], s[1..]) == Got(x, rest)
  {
    hide Utf8, BigEndian, FromBigEndian, Uint;
    Pow256Values();
    var h := StrHeader(|x|);
    var s := EncodeText(x) + rest;
    SplitHeader(h, x, rest);
    var n := if |x| <= 0xff then 1 else if |x| <= 0xffff then 2 else 4;
    SizedTextRoundTrip(n, x, rest);
    if |x| <= 31 {
      assert s[1..] == x + rest;
    } else {
      if |x| <= 0xff { ByteIsBigEndian(|x|); }
      assert h[1..] == BigEndian(n, |x|);
    }
  }

  lemma TextRoundTrip(x: Text, rest: Bytes)
    requires StorableText(x)
    ensures DecodeValue(EncodeText(x) + rest) == Got(Str(x), rest)
  {
    TextHeaderRoundTrip(x, rest);
  }

  lemma KeyRoundTrip(k: Text, rest: Bytes)
    requires StorableText(k)
    ensures DecodeKey(EncodeKey(k) + rest) == Got(CanonKey(k), rest)
  {
    if TokenOf(k) == 0 {
      TextHeaderRoundTrip(k, rest);
      TextRoundTrip(k, rest);
    } else {
      assert (EncodeKey(k) + rest)[1..] == rest;
    }
  }

  lemma ArrCountRoundTrip(n: nat, rest: Bytes)
    requires n < TWO_32
    ensures var a := ArrHeader(n) + rest; IsArrMarker(a[0]) && ArrCount(a[0], a[1..]) == Got(n, rest)
  {
    hide Uint, BigEndian;
    Pow256Values();
    var a := ArrHeader(n) + rest;
    if n <= 15 {
      assert a[1..] == rest;
    } else {
      var w := if n <= 0xffff then 2 else 4;
      assert a[1..] == BigEndian(w, n) + rest;
      UintRoundTrip(w, n, rest);
    }
  }

  lemma MapCountRoundTrip(n: nat, rest: Bytes)
    requires n < TWO_32
    ensures var m := MapHeader(n) + rest; IsMapMarker(m[0]) && MapCount(m[0], m[1..]) == Got(n, rest)
  {
    hide Uint, BigEndian;
    Pow256Values();
    var m := MapHeader(n) + rest;
    if n <= 15 {
      assert m[1..] == rest;
    } else {
      var w := if n <= 0xffff then 2 else 4;
      assert m[1..] == BigEndian(w, n) + rest;
      UintRoundTrip(w, n, rest);
    }
  }

  lemma ArrStep(n: nat, rest: Bytes)
    requires n < TWO_32
    ensures DecodeValue(ArrHeader(n) + rest)
         == match DecodeItems(rest, n) case Fail => Fail case Got(items, r) => Got(Arr(items), r)
  {
    ArrCountRoundTrip(n, rest);
  }

  lemma MapStep(n: nat, rest: Bytes)
    requires n < TWO_32
    ensures DecodeValue(MapHeader(n) + rest)
         == match DecodeFields(rest, n, []) case Fail => Fail case Got(fs, r) => Got(Obj(fs), r)
  {
    MapCountRoundTrip(n, rest);
  }

  /** The encoding of a nonempty map body, split at its first entry. */
  lemma FieldsUnfold(fs: seq<Field>, rest: Bytes)
    requires fs != []
    ensures EncodeFields(fs) + rest
         == EncodeKey(fs[0].key) + (Encode(fs[0].val) + (EncodeFields(fs[1..]) + rest))
  {
    hide EncodeKey, Encode;
    RightAssociate(EncodeKey(fs[0].key), Encode(fs[0].val), EncodeFields(fs[1..]), rest);
  }

  /** Decoding an encoded value gives its canonical form and stops exactly at its end, whatever
      bytes follow. */
  lemma {:induction false} RoundTrip(v: Value, rest: Bytes)
    requires Storable(v)
    ensures DecodeValue(Encode(v) + rest) == Got(Canon(v), rest)
    decreases v, 1
  {
    match v
    case Null => ScalarStep(0xc0, rest);
    case Bool(b) => ScalarStep(if b then 0xc3 else 0xc2, rest);
    case Num(n) => NumberRoundTrip(n, rest);
    case Str(s) => TextRoundTrip(s, rest);
    case Arr(items) => ArrRoundTrip(items, rest);
    case Obj(fs) => ObjRoundTrip(fs, rest);
  }

  lemma {:induction false} ArrRoundTrip(items: seq<Value>, rest: Bytes)
    requires Storable(Arr(items))
    ensures DecodeValue(Encode(Arr(items)) + rest) == Got(Canon(Arr(items)), rest)
    decreases items, 1
  {
    ItemsRoundTrip(items, rest);
    var body := EncodeItems(items) + rest;
    assert Encode(Arr(items)) + rest == ArrHeader(|items|) + body;
    ArrStep(|items|, body);
  }

  lemma {:induction false} ObjRoundTrip(fs: seq<Field>, rest: Bytes)
    requires Storable(Obj(fs))
    ensures DecodeValue(Encode(Obj(fs)) + rest) == Got(Canon(Obj(fs)), rest)
    decreases fs, 1
  {
    FieldsRoundTrip(fs, rest, []);
    var body := EncodeFields(fs) + rest;
    assert Encode(Obj(fs)) + rest == MapHeader(|fs|) + body;
    MapStep(|fs|, body);
  }

  lemma {:induction false} ItemsRoundTrip(items: seq<Value>, rest: Bytes)
    requires StorableItems(items)
    ensures DecodeItems(EncodeItems(items) + rest, |items|) == Got(CanonItems(items), rest)
    decreases items, 0
  {
    if items == [] {
      assert EncodeItems(items) + rest == rest;
    } else {
      var more := EncodeItems(items[1..]) + rest;
      assert EncodeItems(items) + rest == Encode(items[0]) + more;
      RoundTrip(items[0], more);
      ItemsRoundTrip(items[1..], rest);
    }
  }

  lemma {:induction false} FieldsRoundTrip(fs: seq<Field>, rest: Bytes, acc: seq<Field>)
    requires StorableFields(fs)
    ensures DecodeFields(EncodeFields(fs) + rest, |fs|, acc) == Got(CanonFields(acc, fs), rest)
    decreases fs, 0
  {
    if fs == [] {
      assert EncodeFields(fs) + rest == rest;
    } else {
      var k, v := fs[0].key, fs[0].val;
      var more := EncodeFields(fs[1..]) + rest;
      FieldsUnfold(fs, rest);
      KeyRoundTrip(k, Encode(v) + more);
      RoundTrip(v, more);
      FieldsRoundTrip(fs[1..], rest, Insert(acc, CanonKey(k), Canon(v)));
    }
  }

  /** `msgpack_to_value(value_to_msgpack(v))`. */
  lemma DecodeEncode(v: Value)
    requires Storable(v)
    ensures Decode(Encode(v)) == Some(Canon(v))
  {
    RoundTrip(v, []);
    assert Encode(v) + [] == Encode(v);
  }
}
