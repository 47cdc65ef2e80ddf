/** The bytes themselves: what the encoder writes, digit by digit, in the formats of the MessagePack
    specification, and the length prefix of a log frame. */
module Formats {
  import opened Bytes
  import opened Json
  import opened Codec
  import opened LogCodec
  import Framing
  import Meaning

  // ----- Digits -----

  lemma DivPow(x: nat, n: nat)
    ensures x / 256 / Pow256(n) == x / Pow256(n + 1)
  {
    hide Pow256;
    assert Pow256(n + 1) == 256 * Pow256(n) by { NextPow(n); }
    DivTwice(x, Pow256(n));
  }

  lemma NextPow(n: nat)
    ensures Pow256(n + 1) == 256 * Pow256(n)
  {
  }

  lemma DivTwice(x: nat, d: nat)
    requires d > 0
    ensures x / 256 / d == x / (256 * d)
  {
    var q, r := x / 256, x % 256;
    var p, t := q / d, q % d;
    Division(q, d);
    Regroup(p, d);
    Quotient(x, 256 * d, p, 256 * t + r);
  }

  lemma Division(x: nat, d: nat)
    requires d > 0
    ensures x == (x / d) * d + x % d
  {
  }

  lemma Regroup(p: nat, d: nat)
    ensures p * (256 * d) == 256 * (p * d)
  {
  }

  lemma Quotient(x: nat, d: nat, q: nat, r: nat)
    requires d > 0 && x == q * d + r && r < d
    ensures x / d == q
  {
    var q', r' := x / d, x % d;
    Division(x, d);
    NoRoom(d, q, r, q', r');
    NoRoom(d, q', r', q, r);
  }

  lemma NoRoom(d: nat, q: nat, r: nat, q': nat, r': nat)
    requires r < d && r' < d && q * d + r == q' * d + r'
    ensures q <= q'
  {
    if q > q' {
      assert (q - q') * d == q * d - q' * d;
      Multiple(q - q', d);
    }
  }

  lemma Multiple(k: nat, d: nat)
    requires k >= 1
    ensures k * d >= d
  {
  }

  /** Byte `i` of a big-endian integer is its digit of weight 256^(n-1-i). */
  lemma {:induction false} BigEndianDigit(n: nat, x: nat, i: nat)
    requires i < n
    ensures BigEndian(n, x)[i] == x / Pow256(n - 1 - i) % 256
  {
    if i < n - 1 {
      BigEndianDigit(n - 1, x / 256, i);
      DivPow(x, n - 2 - i);
    }
  }

  /** Byte `i` of a little-endian integer is its digit of weight 256^i. */
  lemma {:induction false} LittleEndianDigit(n: nat, x: nat, i: nat)
    requires i < n
    ensures LittleEndian(n, x)[i] == x / Pow256(i) % 256
  {
    if i > 0 {
      LittleEndianDigit(n - 1, x / 256, i - 1);
      DivPow(x, i - 1);
    }
  }

  /** A marker byte followed by the `n` big-endian bytes of `x`. */
  ghost predicate Marked(b: Bytes, marker: byte, n: nat, x: nat) {
    |b| == n + 1 && b[0] == marker && forall j | 1 <= j <= n :: b[j] == x / Pow256(n - j) % 256
  }

  lemma MarkedBig(marker: byte, n: nat, x: nat)
    ensures Marked([marker] + BigEndian(n, x), marker, n, x)
  {
    hide Pow256;
    var b := [marker] + BigEndian(n, x);
    forall j | 1 <= j <= n ensures b[j] == x / Pow256(n - j) % 256 {
      BigEndianDigit(n, x, j - 1);
    }
  }

  lemma MarkedByte(marker: byte, x: byte)
    ensures Marked([marker, x], marker, 1, x)
  {
    assert Pow256(0) == 1;
  }

  // ----- Numbers -----

  /** Integers take the shortest form that holds them. */
  lemma UintForms(u: u64)
    ensures var b := Encode(Num(PosInt(u)));
            if u < 0x80 then b == [u] else if u < 0x100 then Marked(b, 0xcc, 1, u)
            else if u < 0x1_0000 then Marked(b, 0xcd, 2, u)
            else if u < 0x1_0000_0000 then Marked(b, 0xce, 4, u) else Marked(b, 0xcf, 8, u)
  {
    hide Marked, BigEndian;
    if u < 0x80 { }
    else if u < 0x100 { MarkedByte(0xcc, u); }
    else if u < 0x1_0000 { MarkedBig(0xcd, 2, u); }
    else if u < 0x1_0000_0000 { MarkedBig(0xce, 4, u); }
    else { MarkedBig(0xcf, 8, u); }
  }

  /** Negative ones are in two's complement. */
  lemma NegativeForms(i: NegativeInt)
    ensures var b := Encode(Num(NegInt(i)));
            if -0x20 <= i then b == [0x100 + i] else if -0x80 <= i then Marked(b, 0xd0, 1, 0x100 + i)
            else if -0x8000 <= i then Marked(b, 0xd1, 2, 0x1_0000 + i)
            else if -0x8000_0000 <= i then Marked(b, 0xd2, 4, 0x1_0000_0000 + i) else Marked(b, 0xd3, 8, 0x1_0000_0000_0000_0000 + i)
  {
    hide Marked, BigEndian;
    if -0x20 <= i { }
    else if -0x80 <= i { MarkedByte(0xd0, 0x100 + i); }
    else if -0x8000 <= i { MarkedBig(0xd1, 2, 0x1_0000 + i); }
    else if -0x8000_0000 <= i { MarkedBig(0xd2, 4, 0x1_0000_0000 + i); }
    else { MarkedBig(0xd3, 8, 0x1_0000_0000_0000_0000 + i); }
  }

  /** A double is its pattern. */
  lemma DoubleForm(bits: FiniteDouble)
    ensures Marked(Encode(Num(Double(bits))), 0xcb, 8, bits)
  {
    hide Marked, BigEndian;
    MarkedBig(0xcb, 8, bits);
  }

  // ----- Lengths -----

  /** A length below `room` sits in the marker; longer ones follow a marker of one, two or four bytes. */
  ghost predicate HeaderForm(b: Bytes, len: nat, short: byte, room: nat, one: Option<byte>, two: byte, four: byte)
    requires short + room <= 256
  {
    if len < room then b == [short + len]
    else if one.Some? && len < 0x100 then Marked(b, one.value, 1, len)
    else if len < 0x1_0000 then Marked(b, two, 2, len)
    else Marked(b, four, 4, len)
  }

  lemma TextHeaderForm(len: nat)
    requires len < TWO_32
    ensures HeaderForm(StrHeader(len), len, 0xa0, 32, Some(0xd9), 0xda, 0xdb)
  {
    hide Marked, BigEndian;
    if len < 32 { }
    else if len < 0x100 { MarkedByte(0xd9, len); }
    else if len < 0x1_0000 { MarkedBig(0xda, 2, len); }
    else { MarkedBig(0xdb, 4, len); }
  }

  lemma ListHeaderForm(len: nat)
    requires len < TWO_32
    ensures HeaderForm(ArrHeader(len), len, 0x90, 16, None, 0xdc, 0xdd)
  {
    hide Marked, BigEndian;
    if len < 16 { }
    else if len < 0x1_0000 { MarkedBig(0xdc, 2, len); }
    else { MarkedBig(0xdd, 4, len); }
  }

  lemma MapHeaderForm(len: nat)
    requires len < TWO_32
    ensures HeaderForm(MapHeader(len), len, 0x80, 16, None, 0xde, 0xdf)
  {
    hide Marked, BigEndian;
    if len < 16 { }
    else if len < 0x1_0000 { MarkedBig(0xde, 2, len); }
    else { MarkedBig(0xdf, 4, len); }
  }

  /** A system key under either spelling is one byte, from 0xff down. */
  lemma KeyForms()
    ensures EncodeKey(VERSION) == EncodeKey(IKEY_VERSION) == [0xff] && EncodeKey(KEY) == EncodeKey(IKEY_KEY) == [0xfe]
    ensures EncodeKey(SEQ) == EncodeKey(IKEY_SEQ) == [0xfd] && EncodeKey(CREATED_AT) == EncodeKey(IKEY_CREATED_AT) == [0xfc]
    ensures EncodeKey(MODIFIED_AT) == EncodeKey(IKEY_MODIFIED_AT) == [0xfb] && EncodeKey(EXPIRES_AT) == EncodeKey(IKEY_EXPIRES_AT) == [0xfa]
  {
    hide EncodeText;
  }

  /** A log frame is four little-endian length bytes and the payload. */
  lemma FrameForm(p: Bytes)
    requires |p| < TWO_32
    ensures var f := Framing.Frame(p);
            |f| == 4 + |p| && f[4..] == p && forall i | 0 <= i < 4 :: f[i] == |p| / Pow256(i) % 256
  {
    hide Pow256, LittleEndian;
    var f := Framing.Frame(p);
    assert |p| % TWO_32 == |p|;
    assert f == LittleEndian(4, |p|) + p;
    forall i | 0 <= i < 4 ensures f[i] == |p| / Pow256(i) % 256 { LittleEndianDigit(4, |p|, i); }
  }

  // ----- Names -----

  lemma SystemNames()
    ensures VERSION == Meaning.Ascii("_v") && KEY == Meaning.Ascii("_key") && SEQ == Meaning.Ascii("_seq")
    ensures CREATED_AT == Meaning.Ascii("_createdAt") && MODIFIED_AT == Meaning.Ascii("_modifiedAt") && EXPIRES_AT == Meaning.Ascii("_expiresAt")
  {
  }

  lemma CommandNames()
    ensures INSERT == Meaning.Ascii("INSERT") && DELETE == Meaning.Ascii("DELETE") && DROP == Meaning.Ascii("DROP")
    ensures TX_BEGIN == Meaning.Ascii("TX_BEGIN") && TX_COMMIT == Meaning.Ascii("TX_COMMIT")
  {
  }

  /** A command is logged as one byte under either spelling. */
  lemma CommandForms()
    ensures EncodeCommand(Meaning.Ascii("INSERT")) == EncodeCommand(IKEY_INSERT) == [0xf6]
    ensures EncodeCommand(Meaning.Ascii("DELETE")) == EncodeCommand(IKEY_DELETE) == [0xf5]
    ensures EncodeCommand(Meaning.Ascii("DROP")) == EncodeCommand(IKEY_DROP) == [0xf4]
    ensures EncodeCommand(Meaning.Ascii("TX_BEGIN")) == EncodeCommand(IKEY_TX_BEGIN) == [0xf0]
    ensures EncodeCommand(Meaning.Ascii("TX_COMMIT")) == EncodeCommand(IKEY_TX_COMMIT) == [0xef]
  {
    hide EncodeText, Meaning.Ascii;
    CommandNames();
  }
}
