/** Reading a system field from raw document bytes without decoding the document. */
module Tokens {
  import opened Bytes
  import opened Json
  import opened Codec

  // ----- Skipping one value (MessagePack specification, section "Formats") -----

  function Drop(s: Bytes, n: nat): (r: Option<Bytes>)
    ensures r.Some? ==> |r.value| + n == |s|
  {
    if |s| < n then None else Some(s[n..])
  }

  /** Steps over an `n`-byte length, `extra` bytes and the payload it announces. */
  function DropSized(s: Bytes, n: nat, extra: nat): (r: Option<Bytes>)
    ensures r.Some? ==> |r.value| <= |s|
  {
    match Uint(s, n) case Fail => None case Got(len, rest) => Drop(rest, len + extra)
  }

  /** The fixed payload size of a scalar marker, if it has one. */
  function FixedSize(b: byte): Option<nat> {
    if b <= 0x7f || b >= 0xe0 || b == 0xc0 || b == 0xc2 || b == 0xc3 then Some(0)
    else if b == 0xcc || b == 0xd0 then Some(1)
    else if b == 0xcd || b == 0xd1 then Some(2)
    else if b == 0xce || b == 0xd2 || b == 0xca then Some(4)
    else if b == 0xcf || b == 0xd3 || b == 0xcb then Some(8)
    else if b == 0xd4 then Some(2)
    else if b == 0xd5 then Some(3)
    else if b == 0xd6 then Some(5)
    else if b == 0xd7 then Some(9)
    else if b == 0xd8 then Some(17)
    else None
  }

  /** Steps over the payload of a string after its marker byte. */
  function AfterText(b: byte, t: Bytes): (r: Option<Bytes>)
    ensures r.Some? ==> |r.value| <= |t|
  {
    if 0xa0 <= b <= 0xbf then Drop(t, b - 0xa0)
    else if b == 0xd9 then DropSized(t, 1, 0)
    else if b == 0xda then DropSized(t, 2, 0)
    else DropSized(t, 4, 0)
  }

  /** Everything but arrays and maps, after the marker byte. */
  function SkipPlain(b: byte, t: Bytes): (r: Option<Bytes>)
    ensures r.Some? ==> |r.value| <= |t|
  {
    if FixedSize(b).Some? then Drop(t, FixedSize(b).value)
    else if IsTextMarker(b) then AfterText(b, t)
    else if b == 0xc4 then DropSized(t, 1, 0)
    else if b == 0xc5 then DropSized(t, 2, 0)
    else if b == 0xc6 then DropSized(t, 4, 0)
    else if b == 0xc7 then DropSized(t, 1, 1)
    else if b == 0xc8 then DropSized(t, 2, 1)
    else if b == 0xc9 then DropSized(t, 4, 1)
    else None
  }

  function Skip(s: Bytes): (r: Option<Bytes>)
    ensures r.Some? ==> |r.value| < |s|
    decreases |s|, 0
  {
    if s == [] then None
    else if IsArrMarker(s[0]) then
      match ArrCount(s[0], s[1..]) { case Fail => None case Got(n, rest) => SkipMany(rest, n) }
    else if IsMapMarker(s[0]) then
      match MapCount(s[0], s[1..]) { case Fail => None case Got(n, rest) => SkipEntries(rest, n) }
    else SkipPlain(s[0], s[1..])
  }

  function SkipMany(s: Bytes, n: nat): (r: Option<Bytes>)
    ensures r.Some? ==> |r.value| <= |s|
    decreases |s|, 1
  {
    if n == 0 then Some(s)
    else match Skip(s) case None => None case Some(rest) => SkipMany(rest, n - 1)
  }

  /** Steps over `n` key-value pairs. */
  function SkipEntries(s: Bytes, n: nat): (r: Option<Bytes>)
    ensures r.Some? ==> |r.value| <= |s|
    decreases |s|, 1
  {
    if n == 0 then Some(s)
    else
      match Skip(s)
      case None => None
      case Some(t) => match Skip(t) case None => None case Some(rest) => SkipEntries(rest, n - 1)
  }

  lemma SkipStep(s: Bytes)
    requires s != [] && !IsArrMarker(s[0]) && !IsMapMarker(s[0])
    ensures Skip(s) == SkipPlain(s[0], s[1..])
  {
  }

  lemma AfterTextEncoded(x: Text, rest: Bytes)
    requires |x| < TWO_32
    ensures EncodeText(x) != []
    ensures var s := EncodeText(x) + rest;
            IsTextMarker(s[0]) && AfterText(s[0], s[1..]) == Some(rest)
  {
    Pow256Values();
    var h := StrHeader(|x|);
    var s := EncodeText(x) + rest;
    SplitHeader(h, x, rest);
    if |x| <= 31 {
      assert s[1..] == x + rest;
    } else if |x| <= 0xff {
      assert h[1..] == [|x|];
      OneByte(|x|, x + rest);
    } else {
      var n := if |x| <= 0xffff then 2 else 4;
      assert h[1..] == BigEndian(n, |x|);
      UintRoundTrip(n, |x|, x + rest);
    }
  }

  lemma TextMarkerNotFixed(b: byte)
    requires IsTextMarker(b)
    ensures FixedSize(b) == None && !IsArrMarker(b) && !IsMapMarker(b)
  {
  }

  lemma SkipText(x: Text, rest: Bytes)
    requires |x| < TWO_32
    ensures Skip(EncodeText(x) + rest) == Some(rest)
  {
    hide AfterText, EncodeText, FixedSize, DropSized;
    AfterTextEncoded(x, rest);
    TextMarkerNotFixed((EncodeText(x) + rest)[0]);
    SkipStep(EncodeText(x) + rest);
  }

  lemma SkipFixed(b: byte, payload: Bytes, rest: Bytes)
    requires FixedSize(b) == Some(|payload|)
    ensures Skip([b] + payload + rest) == Some(rest)
  {
    SplitHeader([b], payload, rest);
    var s := [b] + payload + rest;
    assert [b][1..] + (payload + rest) == payload + rest;
    SkipStep(s);
  }

  lemma SkipNumber(n: Number, rest: Bytes)
    ensures Skip(EncodeNumber(n) + rest) == Some(rest)
  {
    var e := EncodeNumber(n);
    SkipFixed(e[0], e[1..], rest);
    assert e == [e[0]] + e[1..];
  }

  lemma SkipKey(k: Text, rest: Bytes)
    requires |k| < TWO_32
    ensures Skip(EncodeKey(k) + rest) == Some(rest)
  {
    if TokenOf(k) == 0 {
      SkipText(k, rest);
    } else {
      assert EncodeKey(k) == [256 - TokenOf(k)];
      SkipByte(256 - TokenOf(k), rest);
    }
  }

  lemma SkipArr(n: nat, rest: Bytes)
    requires n < TWO_32
    ensures Skip(ArrHeader(n) + rest) == SkipMany(rest, n)
  {
    ArrCountRoundTrip(n, rest);
  }

  lemma SkipMap(n: nat, rest: Bytes)
    requires n < TWO_32
    ensures Skip(MapHeader(n) + rest) == SkipEntries(rest, n)
  {
    MapCountRoundTrip(n, rest);
  }

  lemma SkipByte(b: byte, rest: Bytes)
    requires FixedSize(b) == Some(0)
    ensures Skip([b] + rest) == Some(rest)
  {
    var s := [b] + rest;
    assert s[1..] == rest && rest[0..] == rest;
    SkipStep(s);
  }

  /** Skipping stops exactly at the end of an encoded value. */
  lemma {:induction false} SkipEncoded(v: Value, rest: Bytes)
    requires Storable(v)
    ensures Skip(Encode(v) + rest) == Some(rest)
    decreases v, 1
  {
    hide Skip, SkipMany, SkipEntries, EncodeNumber, EncodeText, ArrHeader, MapHeader, EncodeItems, EncodeFields, StorableItems, StorableFields;
    match v
    case Null => SkipByte(0xc0, rest);
    case Bool(b) => SkipByte(if b then 0xc3 else 0xc2, rest);
    case Num(n) => SkipNumber(n, rest);
    case Str(s) => SkipText(s, rest);
    case Arr(items) =>
      SkipItems(items, rest);
      var body := EncodeItems(items) + rest;
      assert Encode(v) + rest == ArrHeader(|items|) + body;
      SkipArr(|items|, body);
    case Obj(fs) =>
      SkipFields(fs, rest);
      var body := EncodeFields(fs) + rest;
      assert Encode(v) + rest == MapHeader(|fs|) + body;
      SkipMap(|fs|, body);
  }

  lemma {:induction false} SkipItems(items: seq<Value>, rest: Bytes)
    requires StorableItems(items)
    ensures SkipMany(EncodeItems(items) + rest, |items|) == Some(rest)
    decreases items, 0
  {
    if items == [] {
      assert EncodeItems(items) + rest == rest;
    } else {
      var more := EncodeItems(items[1..]) + rest;
      assert EncodeItems(items) + rest == Encode(items[0]) + more;
      SkipEncoded(items[0], more);
      SkipItems(items[1..], rest);
    }
  }

  lemma {:induction false} SkipFields(fs: seq<Field>, rest: Bytes)
    requires StorableFields(fs)
    ensures SkipEntries(EncodeFields(fs) + rest, |fs|) == Some(rest)
    decreases fs, 0
  {
    if fs == [] {
      assert EncodeFields(fs) + rest == rest;
    } else {
      var more := EncodeFields(fs[1..]) + rest;
      SkipFields(fs[1..], rest);
      SkipEncoded(fs[0].val, more);
      SkipKey(fs[0].key, Encode(fs[0].val) + more);
      FieldsUnfold(fs, rest);
    }
  }

  // ----- The token reader -----

  /** `read_uint_at`: an unsigned integer in any of its formats. */
  function UintAt(s: Bytes): Option<u64> {
    if s == [] then None
    else if s[0] <= 0x7f then Some(s[0])
    else if 0xcc <= s[0] <= 0xcf then
      var n := if s[0] == 0xcc then 1 else if s[0] == 0xcd then 2 else if s[0] == 0xce then 4 else 8;
      match Uint(s[1..], n) { case Fail => None case Got(u, _) => Pow256Values(); Some(u) }
    else None
  }

  /** Steps over a map key whose first byte `b` is not the wanted token. */
  function AfterKey(b: byte, t: Bytes): (r: Option<Bytes>)
    ensures r.Some? ==> |r.value| <= |t|
  {
    if IsTextMarker(b) then AfterText(b, t) else Some(t)
  }

  /** Scans `n` map entries for the first one keyed by `token`. */
  function TokenScan(s: Bytes, n: nat, token: byte): Option<u64>
    decreases n
  {
    if n == 0 || s == [] then None
    else if s[0] == token then UintAt(s[1..])
    else
      match AfterKey(s[0], s[1..])
      case None => None
      case Some(t) =>
        match Skip(t) case None => None case Some(rest) => TokenScan(rest, n - 1, token)
  }

  /** `read_token_u64`. */
  function ReadToken(s: Bytes, token: byte): Option<u64> {
    if s == [] then None
    else match MapCount(s[0], s[1..]) case Fail => None case Got(n, rest) => TokenScan(rest, n, token)
  }

  const TOK_SEQ: byte := 0xfd

  /** `read_msgpack_seq_token`. */
  function SeqOf(s: Bytes): u64 {
    match ReadToken(s, TOK_SEQ) case Some(u) => u case None => 0xffff_ffff_ffff_ffff
  }

  /** The value of the first field stored under token `t`. */
  function FirstStored(fs: seq<Field>, t: nat): Option<Value> {
    if fs == [] then None
    else if TokenOf(fs[0].key) == t then Some(fs[0].val)
    else FirstStored(fs[1..], t)
  }

  lemma UintAtNumber(v: Value, rest: Bytes)
    requires Storable(v)
    ensures UintAt(Encode(v) + rest) == AsU64(v)
  {
    hide Uint, FromBigEndian;
    Pow256Values();
    var e := Encode(v);
    var s := e + rest;
    if v.Num? {
      if v.n.PosInt? && v.n.u > 0x7f {
        assert s[1..] == e[1..] + rest;
        if v.n.u <= 0xff {
          assert e[1..] == [v.n.u];
          OneByte(v.n.u, rest);
        } else {
          assert e[1..] == BigEndian(|e| - 1, v.n.u);
          UintRoundTrip(|e| - 1, v.n.u, rest);
        }
      }
    }
  }

  lemma AfterTextKey(k: Text, rest: Bytes)
    requires TokenOf(k) == 0 && |k| < TWO_32
    ensures var s := EncodeKey(k) + rest; s[0] < 0xe0 && AfterKey(s[0], s[1..]) == Some(rest)
  {
    AfterTextEncoded(k, rest);
  }

  lemma TokenScanStep(s: Bytes, n: nat, token: byte, t: Bytes, rest: Bytes)
    requires s != [] && s[0] != token && AfterKey(s[0], s[1..]) == Some(t) && Skip(t) == Some(rest)
    ensures TokenScan(s, n + 1, token) == TokenScan(rest, n, token)
  {
  }

  /** The token reader is first-wins on encoded fields. */
  lemma {:induction false} TokenScanEncoded(fs: seq<Field>, rest: Bytes, t: nat)
    requires StorableFields(fs) && 1 <= t <= 6
    ensures TokenScan(EncodeFields(fs) + rest, |fs|, 256 - t)
         == match FirstStored(fs, t) case Some(v) => AsU64(v) case None => None
  {
    if fs == [] {
      assert EncodeFields(fs) + rest == rest;
    } else {
      var k, v := fs[0].key, fs[0].val;
      var more := EncodeFields(fs[1..]) + rest;
      var body := Encode(v) + more;
      var s := EncodeKey(k) + body;
      FieldsUnfold(fs, rest);
      if TokenOf(k) == 0 {
        AfterTextKey(k, body);
      } else {
        assert EncodeKey(k) == [256 - TokenOf(k)];
        assert s[1..] == body;
      }
      if TokenOf(k) == t {
        UintAtNumber(v, more);
      } else {
        SkipEncoded(v, more);
        TokenScanEncoded(fs[1..], rest, t);
        TokenScanStep(s, |fs[1..]|, 256 - t, body, more);
      }
    }
  }

  lemma ReadTokenEncoded(fs: seq<Field>, t: nat)
    requires Storable(Obj(fs)) && 1 <= t <= 6
    ensures ReadToken(Encode(Obj(fs)), 256 - t)
         == match FirstStored(fs, t) case Some(v) => AsU64(v) case None => None
  {
    MapCountRoundTrip(|fs|, EncodeFields(fs));
    TokenScanEncoded(fs, [], t);
    assert EncodeFields(fs) + [] == EncodeFields(fs);
  }
}
