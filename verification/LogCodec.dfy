/** Log entries: their tokenised MessagePack form and the length-prefixed log file. */
module LogCodec {
  import opened Bytes
  import opened Json
  import opened Codec
  import opened Tokens
  import opened Framing

  // ----- Commands -----

  const INSERT: Text := [0x49, 0x4e, 0x53, 0x45, 0x52, 0x54]
  const DELETE: Text := [0x44, 0x45, 0x4c, 0x45, 0x54, 0x45]
  const DROP: Text := [0x44, 0x52, 0x4f, 0x50]
  const INDEX: Text := [0x49, 0x4e, 0x44, 0x45, 0x58]
  const SCHEMA: Text := [0x53, 0x43, 0x48, 0x45, 0x4d, 0x41]
  const ENC: Text := [0x45, 0x4e, 0x43]
  const TX_BEGIN: Text := [0x54, 0x58, 0x5f, 0x42, 0x45, 0x47, 0x49, 0x4e]
  const TX_COMMIT: Text := [0x54, 0x58, 0x5f, 0x43, 0x4f, 0x4d, 0x4d, 0x49, 0x54]

  const IKEY_INSERT: Text := [0x2d, 0x31, 0x30]     // -10
  const IKEY_DELETE: Text := [0x2d, 0x31, 0x31]     // -11
  const IKEY_DROP: Text := [0x2d, 0x31, 0x32]       // -12
  const IKEY_INDEX: Text := [0x2d, 0x31, 0x33]      // -13
  const IKEY_SCHEMA: Text := [0x2d, 0x31, 0x34]     // -14
  const IKEY_ENC: Text := [0x2d, 0x31, 0x35]        // -15
  const IKEY_TX_BEGIN: Text := [0x2d, 0x31, 0x36]   // -16
  const IKEY_TX_COMMIT: Text := [0x2d, 0x31, 0x37]  // -17

  /** The command number 10..17 of a spelled-out command, 0 otherwise. */
  function NamedCommand(cmd: Text): (t: nat)
    ensures t == 0 || 10 <= t <= 17
  {
    if cmd == INSERT then 10
    else if cmd == DELETE then 11
    else if cmd == DROP then 12
    else if cmd == INDEX then 13
    else if cmd == SCHEMA then 14
    else if cmd == ENC then 15
    else if cmd == TX_BEGIN then 16
    else if cmd == TX_COMMIT then 17
    else 0
  }

  function CommandName(t: nat): Text
    requires 10 <= t <= 17
  {
    if t == 10 then INSERT
    else if t == 11 then DELETE
    else if t == 12 then DROP
    else if t == 13 then INDEX
    else if t == 14 then SCHEMA
    else if t == 15 then ENC
    else if t == 16 then TX_BEGIN
    else TX_COMMIT
  }

  /** The command number of an integer-key command, 0 otherwise. */
  function IkeyCommand(cmd: Text): (t: nat)
    ensures t == 0 || (10 <= t <= 17 && cmd == TokenText(t))
  {
    if |cmd| == 3 && cmd[..2] == [0x2d, 0x31] && 0x30 <= cmd[2] <= 0x37 then
      assert cmd == [0x2d, 0x31, cmd[2]];
      10 + (cmd[2] - 0x30)
    else 0
  }

  function CommandToken(cmd: Text): (t: nat)
    ensures t == 0 || 10 <= t <= 17
  {
    if NamedCommand(cmd) != 0 then NamedCommand(cmd) else IkeyCommand(cmd)
  }

  /** What a command becomes after being logged and read back. */
  function CanonCommand(cmd: Text): Text {
    if CommandToken(cmd) == 0 then cmd else TokenText(CommandToken(cmd))
  }

  // ----- Entries -----

  datatype LogEntry = LogEntry(cmd: Text, collection: Text, key: Text, value: Value, t: u64)

  const F_CMD: Text := [0x63, 0x6d, 0x64]
  const F_COLLECTION: Text := [0x63, 0x6f, 0x6c, 0x6c, 0x65, 0x63, 0x74, 0x69, 0x6f, 0x6e]
  const F_KEY: Text := [0x6b, 0x65, 0x79]
  const F_VALUE: Text := [0x76, 0x61, 0x6c, 0x75, 0x65]
  const F_T: Text := [0x5f, 0x74]

  function EncodeCommand(cmd: Text): Bytes {
    if CommandToken(cmd) == 0 then EncodeText(cmd) else [256 - CommandToken(cmd)]
  }

  function EncodeEntry(e: LogEntry): Bytes {
    MapHeader(5)
    + (EncodeText(F_CMD) + EncodeCommand(e.cmd))
    + (EncodeText(F_COLLECTION) + EncodeText(e.collection))
    + (EncodeText(F_KEY) + EncodeText(e.key))
    + (EncodeText(F_VALUE) + Encode(e.value))
    + (EncodeText(F_T) + EncodeNumber(PosInt(e.t)))
  }

  function ReadString(s: Bytes): (r: Parsed<Text>)
    ensures r.Got? ==> |r.rest| < |s|
  {
    if s == [] then Fail else TextAfter(s[0], s[1..])
  }

  function DecodeCommand(s: Bytes): (r: Parsed<Text>)
    ensures r.Got? ==> |r.rest| < |s|
  {
    if s != [] && s[0] >= 0xe0 then Got(TokenText(256 - s[0]), s[1..])
    else
      match ReadString(s)
      case Fail => Fail
      case Got(cmd, rest) =>
        if IkeyCommand(cmd) != 0 then Got(CommandName(IkeyCommand(cmd)), rest)
        else if NamedCommand(cmd) != 0 then Got(TokenText(NamedCommand(cmd)), rest)
        else Got(cmd, rest)
  }

  /** An unsigned integer together with the bytes after it. */
  function ReadUint(s: Bytes): (r: Parsed<u64>)
    ensures r.Got? ==> |r.rest| < |s|
  {
    match (UintAt(s), Skip(s))
    case (Some(u), Some(rest)) => Got(u, rest)
    case _ => Fail
  }

  /** Reads one named field of an entry into `acc`. */
  function DecodeEntryField(s: Bytes, acc: LogEntry): (r: Parsed<LogEntry>)
    ensures r.Got? ==> |r.rest| < |s|
  {
    match ReadString(s)
    case Fail => Fail
    case Got(name, t) =>
      if name == F_CMD then
        match DecodeCommand(t) { case Fail => Fail case Got(x, r) => Got(acc.(cmd := x), r) }
      else if name == F_COLLECTION then
        match ReadString(t) { case Fail => Fail case Got(x, r) => Got(acc.(collection := x), r) }
      else if name == F_KEY then
        match ReadString(t) { case Fail => Fail case Got(x, r) => Got(acc.(key := x), r) }
      else if name == F_VALUE then
        match DecodeValue(t) { case Fail => Fail case Got(x, r) => Got(acc.(value := x), r) }
      else if name == F_T then
        match ReadUint(t) { case Fail => Fail case Got(x, r) => Got(acc.(t := x), r) }
      else
        match Skip(t) { case None => Fail case Some(r) => Got(acc, r) }
  }

  function DecodeEntryFields(s: Bytes, n: nat, acc: LogEntry): Option<LogEntry>
    decreases |s|
  {
    if n == 0 then Some(acc)
    else match DecodeEntryField(s, acc) case Fail => None case Got(acc', r) => DecodeEntryFields(r, n - 1, acc')
  }

  const BLANK := LogEntry([], [], [], Null, 0)

  function DecodeEntry(s: Bytes): Option<LogEntry> {
    if s == [] then None
    else match MapCount(s[0], s[1..]) case Fail => None case Got(n, r) => DecodeEntryFields(r, n, BLANK)
  }

  // ----- Entry round trip -----

  predicate StorableEntry(e: LogEntry) {
    StorableText(e.cmd) && StorableText(e.collection) && StorableText(e.key) && Storable(e.value)
  }

  /** What an entry becomes after being logged and read back. */
  function CanonEntry(e: LogEntry): LogEntry {
    e.(cmd := CanonCommand(e.cmd), value := Canon(e.value))
  }

  lemma ReadStringEncoded(x: Text, rest: Bytes)
    requires StorableText(x)
    ensures ReadString(EncodeText(x) + rest) == Got(x, rest)
  {
    TextHeaderRoundTrip(x, rest);
  }

  predicate IsFieldName(name: Text) {
    name == F_CMD || name == F_COLLECTION || name == F_KEY || name == F_VALUE || name == F_T
  }

  lemma FieldNameStorable(name: Text)
    requires IsFieldName(name)
    ensures StorableText(name)
  {
    AsciiIsUtf8(name);
  }

  lemma CommandRoundTrip(cmd: Text, rest: Bytes)
    requires StorableText(cmd)
    ensures DecodeCommand(EncodeCommand(cmd) + rest) == Got(CanonCommand(cmd), rest)
  {
    if CommandToken(cmd) == 0 {
      ReadStringEncoded(cmd, rest);
      TextHeaderRoundTrip(cmd, rest);
    } else {
      assert (EncodeCommand(cmd) + rest)[1..] == rest;
    }
  }

  lemma UintRead(u: u64, rest: Bytes)
    ensures ReadUint(EncodeNumber(PosInt(u)) + rest) == Got(u, rest)
  {
    UintAtNumber(Num(PosInt(u)), rest);
    SkipNumber(PosInt(u), rest);
  }

  lemma NoMoreFields(s: Bytes, acc: LogEntry)
    ensures DecodeEntryFields(s, 0, acc) == Some(acc)
  {
  }

  /** Reading one field: its name, then its content. */
  lemma FieldStep(name: Text, content: Bytes, rest: Bytes, n: nat, acc: LogEntry, acc': LogEntry)
    requires StorableText(name)
    requires DecodeEntryField(EncodeText(name) + (content + rest), acc) == Got(acc', rest)
    ensures DecodeEntryFields(EncodeText(name) + content + rest, n + 1, acc) == DecodeEntryFields(rest, n, acc')
  {
    assert EncodeText(name) + content + rest == EncodeText(name) + (content + rest);
  }

  /** Every entry comes back with its command and value normalised; unknown commands are kept.
      The reader ignores what follows the entry. */
  lemma EntryRoundTrip(e: LogEntry, rest: Bytes)
    requires StorableEntry(e)
    ensures DecodeEntry(EncodeEntry(e) + rest) == Some(CanonEntry(e))
  {
    hide DecodeEntryField, DecodeEntryFields, EncodeText, EncodeNumber, Encode, EncodeCommand, EncodeEntry, MapCount,
         StorableText, Storable, Canon, CanonCommand;
    FieldNameStorable(F_CMD); FieldNameStorable(F_COLLECTION); FieldNameStorable(F_KEY);
    FieldNameStorable(F_VALUE); FieldNameStorable(F_T);
    var t4 := EncodeText(F_T) + EncodeNumber(PosInt(e.t)) + rest;
    var t3 := EncodeText(F_VALUE) + Encode(e.value) + t4;
    var t2 := EncodeText(F_KEY) + EncodeText(e.key) + t3;
    var t1 := EncodeText(F_COLLECTION) + EncodeText(e.collection) + t2;
    var t0 := EncodeText(F_CMD) + EncodeCommand(e.cmd) + t1;
    var a1 := BLANK.(cmd := CanonCommand(e.cmd));
    var a2 := a1.(collection := e.collection);
    var a3 := a2.(key := e.key);
    var a4 := a3.(value := Canon(e.value));
    EntryBytes(e, rest);
    MapCountRoundTrip(5, t0);
    CommandField(e.cmd, t1, BLANK);
    FieldStep(F_CMD, EncodeCommand(e.cmd), t1, 4, BLANK, a1);
    TextField(F_COLLECTION, e.collection, t2, a1);
    FieldStep(F_COLLECTION, EncodeText(e.collection), t2, 3, a1, a2);
    TextField(F_KEY, e.key, t3, a2);
    FieldStep(F_KEY, EncodeText(e.key), t3, 2, a2, a3);
    ValueField(e.value, t4, a3);
    FieldStep(F_VALUE, Encode(e.value), t4, 1, a3, a4);
    TimeField(e.t, rest, a4);
    FieldStep(F_T, EncodeNumber(PosInt(e.t)), rest, 0, a4, CanonEntry(e));
    NoMoreFields(rest, CanonEntry(e));
  }

  lemma EntryBytes(e: LogEntry, rest: Bytes)
    ensures EncodeEntry(e) + rest
         == MapHeader(5) + (EncodeText(F_CMD) + EncodeCommand(e.cmd)
            + (EncodeText(F_COLLECTION) + EncodeText(e.collection)
            + (EncodeText(F_KEY) + EncodeText(e.key)
            + (EncodeText(F_VALUE) + Encode(e.value)
            + (EncodeText(F_T) + EncodeNumber(PosInt(e.t)) + rest)))))
  {
    Associate(MapHeader(5), EncodeText(F_CMD) + EncodeCommand(e.cmd),
              EncodeText(F_COLLECTION) + EncodeText(e.collection), EncodeText(F_KEY) + EncodeText(e.key),
              EncodeText(F_VALUE) + Encode(e.value), EncodeText(F_T) + EncodeNumber(PosInt(e.t)), rest);
  }

  lemma Associate(a: Bytes, b: Bytes, c: Bytes, d: Bytes, e: Bytes, f: Bytes, g: Bytes)
    ensures a + b + c + d + e + f + g == a + (b + (c + (d + (e + (f + g)))))
  {
  }

  lemma CommandField(cmd: Text, rest: Bytes, acc: LogEntry)
    requires StorableText(cmd) && StorableText(F_CMD)
    ensures DecodeEntryField(EncodeText(F_CMD) + (EncodeCommand(cmd) + rest), acc)
         == Got(acc.(cmd := CanonCommand(cmd)), rest)
  {
    ReadStringEncoded(F_CMD, EncodeCommand(cmd) + rest);
    CommandRoundTrip(cmd, rest);
  }

  lemma TextField(name: Text, x: Text, rest: Bytes, acc: LogEntry)
    requires StorableText(name) && StorableText(x) && (name == F_COLLECTION || name == F_KEY)
    ensures DecodeEntryField(EncodeText(name) + (EncodeText(x) + rest), acc)
         == Got(if name == F_KEY then acc.(key := x) else acc.(collection := x), rest)
  {
    ReadStringEncoded(name, EncodeText(x) + rest);
    ReadStringEncoded(x, rest);
  }

  lemma ValueField(v: Value, rest: Bytes, acc: LogEntry)
    requires Storable(v) && StorableText(F_VALUE)
    ensures DecodeEntryField(EncodeText(F_VALUE) + (Encode(v) + rest), acc)
         == Got(acc.(value := Canon(v)), rest)
  {
    ReadStringEncoded(F_VALUE, Encode(v) + rest);
    RoundTrip(v, rest);
  }

  lemma TimeField(t: u64, rest: Bytes, acc: LogEntry)
    requires StorableText(F_T)
    ensures DecodeEntryField(EncodeText(F_T) + (EncodeNumber(PosInt(t)) + rest), acc)
         == Got(acc.(t := t), rest)
  {
    ReadStringEncoded(F_T, EncodeNumber(PosInt(t)) + rest);
    UintRead(t, rest);
  }

  // ----- The log file -----

  function Payloads(log: seq<LogEntry>): (ps: seq<Bytes>)
    ensures |ps| == |log|
  {
    seq(|log|, i requires 0 <= i < |log| => EncodeEntry(log[i]))
  }

  /** The log file after the entries of `log` have been written. */
  function FileOf(log: seq<LogEntry>): Bytes {
    Frames(Payloads(log))
  }

  /** Undecodable payloads are dropped. */
  function DecodeAll(ps: seq<Bytes>): seq<LogEntry> {
    if ps == [] then []
    else (match DecodeEntry(ps[0]) case Some(e) => [e] case None => []) + DecodeAll(ps[1..])
  }

  /** The entries a reader of the log file sees. */
  function ReadLog(file: Bytes): seq<LogEntry> {
    DecodeAll(ReadFrames(file))
  }

  predicate Loggable(e: LogEntry) {
    StorableEntry(e) && |EncodeEntry(e)| < TWO_32
  }

  predicate AllLoggable(log: seq<LogEntry>) {
    forall i | 0 <= i < |log| :: Loggable(log[i])
  }

  function CanonLog(log: seq<LogEntry>): (r: seq<LogEntry>)
    ensures |r| == |log|
  {
    seq(|log|, i requires 0 <= i < |log| => CanonEntry(log[i]))
  }

  lemma EntryReadBack(e: LogEntry)
    requires StorableEntry(e)
    ensures DecodeEntry(EncodeEntry(e)) == Some(CanonEntry(e))
  {
    EntryRoundTrip(e, []);
    assert EncodeEntry(e) + [] == EncodeEntry(e);
  }

  lemma DecodeCons(p: Bytes, e: LogEntry, ps: seq<Bytes>)
    requires DecodeEntry(p) == Some(e)
    ensures DecodeAll([p] + ps) == [e] + DecodeAll(ps)
  {
    assert ([p] + ps)[1..] == ps;
  }

  lemma {:induction false} DecodePayloads(log: seq<LogEntry>)
    requires AllLoggable(log)
    ensures DecodeAll(Payloads(log)) == CanonLog(log)
  {
    hide EncodeEntry, DecodeEntry, StorableEntry, CanonEntry;
    if log != [] {
      DecodePayloads(log[1..]);
      EntryReadBack(log[0]);
      DecodeCons(EncodeEntry(log[0]), CanonEntry(log[0]), Payloads(log[1..]));
      assert Payloads(log) == [EncodeEntry(log[0])] + Payloads(log[1..]);
      assert CanonLog(log) == [CanonEntry(log[0])] + CanonLog(log[1..]);
    }
  }

  /** Cutting the file at any byte leaves exactly a prefix of the entries readable. */
  lemma TornLog(log: seq<LogEntry>, n: nat)
    requires AllLoggable(log) && n <= |FileOf(log)|
    ensures ReadLog(FileOf(log)[..n]) == CanonLog(log[..WholeFrames(Payloads(log), n)])
  {
    hide EncodeEntry, DecodeEntry, CanonEntry;
    var k := WholeFrames(Payloads(log), n);
    TornFile(Payloads(log), n);
    assert Payloads(log)[..k] == Payloads(log[..k]);
    DecodePayloads(log[..k]);
  }

  lemma ReadWholeLog(log: seq<LogEntry>)
    requires AllLoggable(log)
    ensures ReadLog(FileOf(log)) == CanonLog(log)
  {
    hide EncodeEntry, DecodeEntry, CanonEntry, ReadFrames;
    TornLog(log, |FileOf(log)|);
    WholeFramesAll(Payloads(log));
    assert FileOf(log)[..|FileOf(log)|] == FileOf(log) && log[..|log|] == log;
  }

  /** `write_entry` appends one frame to the file. */
  lemma AppendEntry(log: seq<LogEntry>, e: LogEntry)
    ensures FileOf(log + [e]) == FileOf(log) + Frame(EncodeEntry(e))
  {
    assert Payloads(log + [e]) == Payloads(log) + [EncodeEntry(e)];
    FramesConcat(Payloads(log), [EncodeEntry(e)]);
    OneFrame(EncodeEntry(e));
  }

  lemma OneFrame(p: Bytes)
    ensures Frames([p]) == Frame(p)
  {
    assert Frames([p]) == Frame(p) + Frames([]);
  }
}
