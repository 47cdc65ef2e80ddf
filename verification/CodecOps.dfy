/** The codec as it runs: writers push into a growing buffer, readers advance a cursor. */
module CodecOps {
  import opened Bytes
  import opened Json
  import opened Codec
  import opened Tokens
  import opened LogCodec

  // ----- Writing -----

  class Writer {
    var buf: Bytes

    constructor ()
      ensures buf == []
    {
      buf := [];
    }

    method Push(b: byte)
      modifies this
      ensures buf == old(buf) + [b]
    {
      buf := buf + [b];
    }

    method Extend(s: Bytes)
      modifies this
      ensures buf == old(buf) + s
    {
      buf := buf + s;
    }

    /** A marker byte and the low `n` bytes of `x`, big-endian. */
    method PushWide(marker: byte, n: nat, x: nat)
      modifies this
      ensures buf == old(buf) + ([marker] + BigEndian(n, x))
    {
      Push(marker);
      Extend(BigEndian(n, x));
    }

    /** `write_number`. */
    method WriteNumber(n: Number)
      modifies this
      ensures buf == old(buf) + EncodeNumber(n)
    {
      hide BigEndian;
      match n
      case PosInt(u) =>
        if u <= 0x7f { Push(u); }
        else if u <= 0xff { Push(0xcc); Push(u); }
        else if u <= 0xffff { PushWide(0xcd, 2, u); }
        else if u <= 0xffff_ffff { PushWide(0xce, 4, u); }
        else { PushWide(0xcf, 8, u); }
      case NegInt(i) =>
        if i >= -32 { Push(256 + i); }
        else if i >= -0x80 { Push(0xd0); Push(256 + i); }
        else if i >= -0x8000 { PushWide(0xd1, 2, i + 0x1_0000); }
        else if i >= -0x8000_0000 { PushWide(0xd2, 4, i + TWO_32); }
        else { PushWide(0xd3, 8, i + TWO_64); }
      case Double(bits) => PushWide(0xcb, 8, bits);
    }

    /** `write_str`. */
    method WriteStr(s: Text)
      modifies this
      ensures buf == old(buf) + EncodeText(s)
    {
      hide BigEndian;
      var len := |s|;
      if len <= 31 { Push(0xa0 + len); }
      else if len <= 0xff { Push(0xd9); Push(len); }
      else if len <= 0xffff { PushWide(0xda, 2, len); }
      else { PushWide(0xdb, 4, len % TWO_32); }
      assert buf == old(buf) + StrHeader(len);
      Extend(s);
    }

    /** `write_array_header`. */
    method WriteArrayHeader(len: nat)
      modifies this
      ensures buf == old(buf) + ArrHeader(len)
    {
      hide BigEndian;
      if len <= 15 { Push(0x90 + len); }
      else if len <= 0xffff { PushWide(0xdc, 2, len); }
      else { PushWide(0xdd, 4, len % TWO_32); }
    }

    /** `write_map_header`. */
    method WriteMapHeader(len: nat)
      modifies this
      ensures buf == old(buf) + MapHeader(len)
    {
      hide BigEndian;
      if len <= 15 { Push(0x80 + len); }
      else if len <= 0xffff { PushWide(0xde, 2, len); }
      else { PushWide(0xdf, 4, len % TWO_32); }
    }

    /** `write_map_key`: a system key under either spelling is one token byte. */
    method WriteMapKey(k: Text)
      modifies this
      ensures buf == old(buf) + EncodeKey(k)
    {
      hide EncodeText, TokenOf;
      if TokenOf(k) != 0 { Push(256 - TokenOf(k)); } else { WriteStr(k); }
    }

    /** `write_value`. */
    method WriteValue(v: Value)
      modifies this
      ensures buf == old(buf) + Encode(v)
      decreases v, 1
    {
      hide EncodeNumber, EncodeText, ArrHeader, MapHeader, EncodeItems, EncodeFields;
      match v
      case Null => Push(0xc0);
      case Bool(b) => Push(if b then 0xc3 else 0xc2);
      case Num(n) => WriteNumber(n);
      case Str(s) => WriteStr(s);
      case Arr(items) => WriteArrayHeader(|items|); WriteItems(items);
      case Obj(fs) => WriteMapHeader(|fs|); WriteFields(fs);
    }

    method WriteItems(items: seq<Value>)
      modifies this
      ensures buf == old(buf) + EncodeItems(items)
      decreases items, 0
    {
      hide Encode;
      assert items[0..] == items;
      for i := 0 to |items|
        invariant old(buf) + EncodeItems(items) == buf + EncodeItems(items[i..])
      {
        assert items[i..][0] == items[i] && items[i..][1..] == items[i + 1..];
        ghost var before := buf;
        WriteValue(items[i]);
        assert before + (Encode(items[i]) + EncodeItems(items[i + 1..])) == before + Encode(items[i]) + EncodeItems(items[i + 1..]);
      }
      assert buf + EncodeItems(items[|items|..]) == buf;
    }

    method WriteFields(fs: seq<Field>)
      modifies this
      ensures buf == old(buf) + EncodeFields(fs)
      decreases fs, 0
    {
      hide Encode, EncodeKey;
      assert fs[0..] == fs;
      for i := 0 to |fs|
        invariant old(buf) + EncodeFields(fs) == buf + EncodeFields(fs[i..])
      {
        assert fs[i..][0] == fs[i] && fs[i..][1..] == fs[i + 1..];
        ghost var before := buf;
        WriteMapKey(fs[i].key);
        assert fs[i] in fs;
        WriteValue(fs[i].val);
        Regrouped(before, EncodeKey(fs[i].key), Encode(fs[i].val), EncodeFields(fs[i + 1..]));
      }
      assert buf + EncodeFields(fs[|fs|..]) == buf;
    }

    method WriteTextField(name: Text, x: Text)
      modifies this
      ensures buf == old(buf) + (EncodeText(name) + EncodeText(x))
    {
      hide EncodeText;
      WriteStr(name);
      WriteStr(x);
    }

    method WriteCommand(cmd: Text)
      modifies this
      ensures buf == old(buf) + (EncodeText(F_CMD) + EncodeCommand(cmd))
    {
      hide EncodeText, CommandToken;
      WriteStr(F_CMD);
      if CommandToken(cmd) == 0 { WriteStr(cmd); } else { Push(256 - CommandToken(cmd)); }
    }

    method WriteDocument(v: Value)
      modifies this
      ensures buf == old(buf) + (EncodeText(F_VALUE) + Encode(v))
    {
      hide EncodeText, Encode;
      WriteStr(F_VALUE);
      WriteValue(v);
    }

    method WriteTime(t: u64)
      modifies this
      ensures buf == old(buf) + (EncodeText(F_T) + EncodeNumber(PosInt(t)))
    {
      hide EncodeText, EncodeNumber;
      WriteStr(F_T);
      WriteNumber(PosInt(t));
    }

    /** `log_entry_to_msgpack`. */
    method WriteEntry(e: LogEntry)
      modifies this
      ensures buf == old(buf) + EncodeEntry(e)
    {
      hide EncodeText, Encode, EncodeNumber, MapHeader, EncodeCommand;
      WriteMapHeader(5);
      WriteCommand(e.cmd);
      WriteTextField(F_COLLECTION, e.collection);
      WriteTextField(F_KEY, e.key);
      WriteDocument(e.value);
      WriteTime(e.t);
      SixParts(old(buf), MapHeader(5), EncodeText(F_CMD) + EncodeCommand(e.cmd), EncodeText(F_COLLECTION) + EncodeText(e.collection),
               EncodeText(F_KEY) + EncodeText(e.key), EncodeText(F_VALUE) + Encode(e.value), EncodeText(F_T) + EncodeNumber(PosInt(e.t)));
    }
  }

  lemma SixParts(a: Bytes, b: Bytes, c: Bytes, d: Bytes, e: Bytes, f: Bytes, g: Bytes)
    ensures a + (b + c + d + e + f + g) == a + b + c + d + e + f + g
  {
  }

  lemma Regrouped(a: Bytes, k: Bytes, v: Bytes, rest: Bytes)
    ensures a + (k + v + rest) == a + k + v + rest
  {
  }

  // ----- Reading -----

  /** What is left to read; the cursor may stand past the end. */
  function From(buf: Bytes, pos: nat): (s: Bytes)
    ensures pos <= |buf| ==> |s| == |buf| - pos
    ensures pos > |buf| ==> s == []
  {
    if pos <= |buf| then buf[pos..] else []
  }

  lemma FromStep(buf: Bytes, pos: nat, n: nat)
    requires pos + n <= |buf|
    ensures From(buf, pos)[n..] == From(buf, pos + n)
    ensures From(buf, pos)[..n] == buf[pos..pos + n]
    ensures n > 0 ==> From(buf, pos)[0] == buf[pos]
  {
  }

  /** A cursor read that gives the parsed value and stands where the parse stopped. */
  ghost predicate Reads<T(!new)>(parsed: Parsed<T>, buf: Bytes, r: Option<T>, next: nat) {
    match parsed
    case Fail => r == None
    case Got(v, rest) => r == Some(v) && From(buf, next) == rest
  }

  /** `n` bytes big-endian, or nothing if fewer are left. */
  method ReadBigEndian(buf: Bytes, pos: nat, n: nat) returns (r: Option<nat>, next: nat)
    requires n > 0
    ensures Reads(Uint(From(buf, pos), n), buf, r, next)
    ensures r.Some? ==> next == pos + n <= |buf|
  {
    hide FromBigEndian;
    if pos + n > |buf| { return None, pos; }
    FromStep(buf, pos, n);
    r, next := Some(FromBigEndian(buf[pos..pos + n])), pos + n;
  }

  /** The text of `len` bytes at the cursor. */
  method ReadTextBytes(buf: Bytes, pos: nat, len: nat) returns (r: Option<Text>, next: nat)
    requires pos <= |buf|
    ensures Reads(TakeText(From(buf, pos), len), buf, r, next)
  {
    hide Utf8;
    if pos + len > |buf| { return None, pos; }
    FromStep(buf, pos, len);
    if !Utf8(buf[pos..pos + len]) { return None, pos; }
    r, next := Some(buf[pos..pos + len]), pos + len;
  }

  /** A string after its marker byte (`read_string`, `read_str_value`). */
  method ReadText(b: byte, buf: Bytes, pos: nat) returns (r: Option<Text>, next: nat)
    requires pos <= |buf|
    ensures Reads(TextAfter(b, From(buf, pos)), buf, r, next)
  {
    hide TakeText, Uint;
    if !IsTextMarker(b) { return None, pos; }
    if 0xa0 <= b <= 0xbf {
      r, next := ReadTextBytes(buf, pos, b - 0xa0);
      return;
    }
    var n := if b == 0xd9 then 1 else if b == 0xda then 2 else 4;
    var len, p := ReadBigEndian(buf, pos, n);
    if len.None? { return None, pos; }
    r, next := ReadTextBytes(buf, p, len.value);
  }

  /** The count of an array or map after its marker byte; `short` is the marker of an empty one. */
  method ReadCount(b: byte, short: byte, buf: Bytes, pos: nat) returns (r: Option<nat>, next: nat)
    requires pos <= |buf| && (short == 0x90 || short == 0x80)
    ensures Reads(if short == 0x90 then ArrCount(b, From(buf, pos)) else MapCount(b, From(buf, pos)), buf, r, next)
    ensures r.Some? ==> next <= |buf|
  {
    hide Uint;
    var wide := if short == 0x90 then 0xdc else 0xde;
    if short <= b <= short + 15 {
      r, next := Some(b - short), pos;
    } else if b == wide {
      r, next := ReadBigEndian(buf, pos, 2);
    } else if b == wide + 1 {
      r, next := ReadBigEndian(buf, pos, 4);
    } else {
      r, next := None, pos;
    }
  }

  /** Nil, booleans, wide numbers and binary data after their marker byte. */
  method ReadScalar(b: byte, buf: Bytes, pos: nat) returns (r: Option<Value>, next: nat)
    requires pos <= |buf|
    ensures Reads(ScalarAfter(b, From(buf, pos)), buf, r, next)
  {
    hide Uint, Widen, Signed;
    Pow256Values();
    r, next := None, pos;
    if b == 0xc0 { r := Some(Null); }
    else if b == 0xc2 { r := Some(Bool(false)); }
    else if b == 0xc3 { r := Some(Bool(true)); }
    else if 0xcc <= b <= 0xcf {
      var n := if b == 0xcc then 1 else if b == 0xcd then 2 else if b == 0xce then 4 else 8;
      var u;
      u, next := ReadBigEndian(buf, pos, n);
      if u.Some? { r := Some(Num(PosInt(u.value))); }
    } else if 0xd0 <= b <= 0xd3 {
      var n := if b == 0xd0 then 1 else if b == 0xd1 then 2 else if b == 0xd2 then 4 else 8;
      r, next := ReadSigned(buf, pos, n);
    } else if b == 0xca || b == 0xcb {
      r, next := ReadFloat(buf, pos, if b == 0xca then 4 else 8);
    } else if 0xc4 <= b <= 0xc6 {
      r, next := ReadBin(buf, pos, if b == 0xc4 then 1 else if b == 0xc5 then 2 else 4);
    }
  }

  method ReadSigned(buf: Bytes, pos: nat, n: nat) returns (r: Option<Value>, next: nat)
    requires n in {1, 2, 4, 8}
    ensures Reads(IntNumber(From(buf, pos), n), buf, r, next)
  {
    hide Uint;
    Pow256Values();
    var u, p := ReadBigEndian(buf, pos, n);
    if u.None? { return None, p; }
    r, next := Some(Num(FromI64(Signed(u.value, n)))), p;
  }

  /** NaN and infinities are no JSON numbers. */
  method ReadFloat(buf: Bytes, pos: nat, n: nat) returns (r: Option<Value>, next: nat)
    requires n in {4, 8}
    ensures Reads(DoubleNumber(From(buf, pos), n), buf, r, next)
  {
    hide Uint, Widen;
    Pow256Values();
    var u, p := ReadBigEndian(buf, pos, n);
    r, next := None, p;
    if u.None? { return; }
    if n == 4 {
      var d := Widen(u.value);
      if d.Some? { r := Some(Num(Double(d.value))); }
    } else if (u.value / 0x10_0000_0000_0000) % 2048 != 2047 {
      r := Some(Num(Double(u.value)));
    }
  }

  /** Binary data is stepped over without looking whether it is there. */
  method ReadBin(buf: Bytes, pos: nat, n: nat) returns (r: Option<Value>, next: nat)
    requires n > 0
    ensures Reads(SkipBin(From(buf, pos), n), buf, r, next)
  {
    hide Uint;
    var len, p := ReadBigEndian(buf, pos, n);
    if len.None? { return None, p; }
    r, next := Some(Null), p + len.value;
  }

  // ----- Values -----

  lemma DecodeDispatch(s: Bytes)
    requires s != []
    ensures var b, t := s[0], s[1..];
            DecodeValue(s)
            == if b <= 0x7f then Got(Num(PosInt(b)), t)
               else if b >= 0xe0 then Got(Num(NegInt(NegFix(b))), t)
               else if IsTextMarker(b) then
                 (match TextAfter(b, t) case Fail => Fail case Got(x, rest) => Got(Str(x), rest))
               else if IsArrMarker(b) then
                 (match ArrCount(b, t)
                  case Fail => Fail
                  case Got(n, rest) => match DecodeItems(rest, n) case Fail => Fail case Got(items, end) => Got(Arr(items), end))
               else if IsMapMarker(b) then
                 (match MapCount(b, t)
                  case Fail => Fail
                  case Got(n, rest) => match DecodeFields(rest, n, []) case Fail => Fail case Got(fs, end) => Got(Obj(fs), end))
               else ScalarAfter(b, t)
  {
  }

  /** `read_value`. */
  method ReadValue(buf: Bytes, pos: nat) returns (r: Option<Value>, next: nat)
    ensures Reads(DecodeValue(From(buf, pos)), buf, r, next)
    decreases |From(buf, pos)|, 0
  {
    hide DecodeValue, DecodeItems, DecodeFields, TextAfter, ArrCount, MapCount, ScalarAfter;
    if pos >= |buf| {
      NothingToDecode();
      return None, pos;
    }
    DecodeDispatch(From(buf, pos));
    FromStep(buf, pos, 1);
    var b, p := buf[pos], pos + 1;
    if b <= 0x7f {
      r, next := Some(Num(PosInt(b))), p;
    } else if b >= 0xe0 {
      r, next := Some(Num(NegInt(NegFix(b)))), p;
    } else if IsTextMarker(b) {
      var x, q := ReadText(b, buf, p);
      r, next := if x.Some? then Some(Str(x.value)) else None, q;
    } else if IsArrMarker(b) {
      var n, q := ReadCount(b, 0x90, buf, p);
      if n.None? { return None, q; }
      var items, end := ReadArray(buf, q, n.value);
      r, next := if items.Some? then Some(Arr(items.value)) else None, end;
    } else if IsMapMarker(b) {
      var n, q := ReadCount(b, 0x80, buf, p);
      if n.None? { return None, q; }
      var fs, end := ReadMap(buf, q, n.value);
      r, next := if fs.Some? then Some(Obj(fs.value)) else None, end;
    } else {
      r, next := ReadScalar(b, buf, p);
    }
  }

  lemma NothingToDecode()
    ensures DecodeValue([]) == Fail && DecodeKey([]) == Fail
  {
  }

  function Prepend(vs: seq<Value>, parsed: Parsed<seq<Value>>): Parsed<seq<Value>> {
    match parsed case Fail => Fail case Got(more, rest) => Got(vs + more, rest)
  }

  lemma ItemStep(s: Bytes, n: nat, vs: seq<Value>)
    requires n > 0
    ensures Prepend(vs, DecodeItems(s, n))
         == match DecodeValue(s) case Fail => Fail case Got(v, rest) => Prepend(vs + [v], DecodeItems(rest, n - 1))
  {
    hide DecodeValue;
    match DecodeValue(s)
    case Fail =>
    case Got(v, rest) =>
      var more := DecodeItems(rest, n - 1);
      if more.Got? { assert vs + ([v] + more.val) == vs + [v] + more.val; }
  }

  /** `read_array`. */
  method ReadArray(buf: Bytes, pos: nat, len: nat) returns (r: Option<seq<Value>>, next: nat)
    ensures Reads(DecodeItems(From(buf, pos), len), buf, r, next)
    decreases |From(buf, pos)|, 1
  {
    hide DecodeValue, DecodeItems;
    var arr: seq<Value> := [];
    next := pos;
    JoinEmpty(DecodeItems(From(buf, pos), len));
    for i := 0 to len
      invariant |From(buf, next)| <= |From(buf, pos)|
      invariant DecodeItems(From(buf, pos), len) == Prepend(arr, DecodeItems(From(buf, next), len - i))
    {
      ItemStep(From(buf, next), len - i, arr);
      var v, p := ReadValue(buf, next);
      if v.None? { return None, p; }
      arr, next := arr + [v.value], p;
    }
    assert DecodeItems(From(buf, next), 0) == Got([], From(buf, next)) by { NoItems(From(buf, next)); }
    assert arr + [] == arr;
    r := Some(arr);
  }

  lemma JoinEmpty(parsed: Parsed<seq<Value>>)
    ensures Prepend([], parsed) == parsed
  {
    if parsed.Got? { assert [] + parsed.val == parsed.val; }
  }

  lemma NoItems(s: Bytes)
    ensures DecodeItems(s, 0) == Got([], s)
  {
  }

  /** `read_map`: a repeated key overwrites. */
  method ReadMap(buf: Bytes, pos: nat, len: nat) returns (r: Option<seq<Field>>, next: nat)
    ensures Reads(DecodeFields(From(buf, pos), len, []), buf, r, next)
    decreases |From(buf, pos)|, 2
  {
    hide DecodeValue, DecodeFields, DecodeKey, Insert;
    var entries: seq<Field> := [];
    next := pos;
    for i := 0 to len
      invariant |From(buf, next)| <= |From(buf, pos)|
      invariant DecodeFields(From(buf, pos), len, []) == DecodeFields(From(buf, next), len - i, entries)
    {
      FieldStep(From(buf, next), len - i, entries);
      var k, p := ReadMapKey(buf, next);
      if k.None? { return None, p; }
      var v, q := ReadValue(buf, p);
      if v.None? { return None, q; }
      entries, next := Insert(entries, k.value, v.value), q;
    }
    NoFields(From(buf, next), entries);
    r := Some(entries);
  }

  lemma FieldStep(s: Bytes, n: nat, acc: seq<Field>)
    requires n > 0
    ensures DecodeFields(s, n, acc)
         == match DecodeKey(s)
            case Fail => Fail
            case Got(k, rest) =>
              match DecodeValue(rest) case Fail => Fail case Got(v, end) => DecodeFields(end, n - 1, Insert(acc, k, v))
  {
  }

  lemma NoFields(s: Bytes, acc: seq<Field>)
    ensures DecodeFields(s, 0, acc) == Got(acc, s)
  {
  }

  /** `read_map_key`: a token byte becomes its integer text, anything else must be a string. */
  method ReadMapKey(buf: Bytes, pos: nat) returns (r: Option<Text>, next: nat)
    ensures Reads(DecodeKey(From(buf, pos)), buf, r, next)
    decreases |From(buf, pos)|, 1
  {
    hide DecodeValue, TokenText;
    if pos >= |buf| { return None, pos; }
    FromStep(buf, pos, 1);
    if buf[pos] >= 0xe0 { return Some(TokenText(256 - buf[pos])), pos + 1; }
    var v, p := ReadValue(buf, pos);
    r, next := if v.Some? && v.value.Str? then Some(v.value.s) else None, p;
  }

  /** `msgpack_to_value`. */
  method MsgpackToValue(bytes: Bytes) returns (r: Option<Value>)
    ensures r == Decode(bytes)
  {
    hide DecodeValue;
    var next;
    r, next := ReadValue(bytes, 0);
    assert From(bytes, 0) == bytes;
  }

  /** `value_to_msgpack` followed by `msgpack_to_value`: the stored value, canonicalised. */
  method StoreAndLoad(v: Value) returns (r: Option<Value>)
    requires Storable(v)
    ensures r == Some(Canon(v))
  {
    hide Encode, Decode, Storable;
    var w := new Writer();
    w.WriteValue(v);
    assert [] + Encode(v) == Encode(v);
    DecodeEncode(v);
    r := MsgpackToValue(w.buf);
  }

  // ----- One system field, without decoding the document -----

  lemma ScanStep(s: Bytes, n: nat, token: byte)
    requires n > 0 && s != []
    ensures TokenScan(s, n, token)
         == if s[0] == token then UintAt(s[1..])
            else match AfterKey(s[0], s[1..])
              case None => None
              case Some(t) => match Skip(t) case None => None case Some(rest) => TokenScan(rest, n - 1, token)
  {
  }

  /** `read_token_u64`: the first entry under the token decides. */
  method ReadTokenU64(bytes: Bytes, token: byte) returns (r: Option<u64>)
    ensures r == ReadToken(bytes, token)
  {
    hide TokenScan, UintAt, AfterKey, Skip, MapCount;
    if bytes == [] { return None; }
    var header := MapCount(bytes[0], bytes[1..]);
    if header.Fail? { return None; }
    var s, n := header.rest, header.val;
    while n > 0
      invariant ReadToken(bytes, token) == TokenScan(s, n, token)
    {
      if s == [] { NothingToScan(n, token); return None; }
      ScanStep(s, n, token);
      if s[0] == token { return UintAt(s[1..]); }
      var value := AfterKey(s[0], s[1..]);
      if value.None? { return None; }
      var rest := Skip(value.value);
      if rest.None? { return None; }
      s, n := rest.value, n - 1;
    }
    NoEntriesToScan(s, token);
    r := None;
  }

  lemma NothingToScan(n: nat, token: byte)
    ensures TokenScan([], n, token) == None
  {
  }

  lemma NoEntriesToScan(s: Bytes, token: byte)
    ensures TokenScan(s, 0, token) == None
  {
  }

  // ----- Log entries -----

  lemma EntryFieldStep(s: Bytes, n: nat, acc: LogEntry)
    ensures DecodeEntryFields(s, n, acc)
         == if n == 0 then Some(acc)
            else match DecodeEntryField(s, acc) case Fail => None case Got(more, rest) => DecodeEntryFields(rest, n - 1, more)
  {
    hide DecodeEntryField;
  }

  /** `log_entry_from_msgpack`: fields in any order, unknown ones stepped over. */
  method ReadEntry(bytes: Bytes) returns (r: Option<LogEntry>)
    ensures r == DecodeEntry(bytes)
  {
    hide DecodeEntryFields, DecodeEntryField, MapCount;
    if bytes == [] { return None; }
    var header := MapCount(bytes[0], bytes[1..]);
    if header.Fail? { return None; }
    var s, n, acc := header.rest, header.val, BLANK;
    while n > 0
      invariant DecodeEntry(bytes) == DecodeEntryFields(s, n, acc)
    {
      EntryFieldStep(s, n, acc);
      var field := DecodeEntryField(s, acc);
      if field.Fail? { return None; }
      s, n, acc := field.rest, n - 1, field.val;
    }
    EntryFieldStep(s, n, acc);
    r := Some(acc);
  }
}
