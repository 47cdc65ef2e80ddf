/** Looking up a dotted path in raw document bytes, and its agreement with lookup in the tree. */
module Walker {
  import opened Bytes
  import opened Json
  import opened Codec
  import opened Canonical
  import opened Tokens
  import opened LogCodec

  type Path = seq<Text>

  /** No segment is a system field under either spelling. */
  predicate PlainPath(path: Path) {
    forall i | 0 <= i < |path| :: TokenOf(path[i]) == 0
  }

  /** `get_nested_value`. */
  function Nested(v: Value, path: Path): Option<Value>
    decreases |path|
  {
    if path == [] then Some(v)
    else match Get(v, path[0]) case None => None case Some(x) => Nested(x, path[1..])
  }

  // ----- The single-path walker -----

  /** `skip_value`: an unreadable value swallows the rest of the buffer. */
  function SkipOrEnd(s: Bytes): Bytes {
    match Skip(s) case None => [] case Some(rest) => rest
  }

  /** `find_msgpack_value` from the header of a map on. */
  function Find(s: Bytes, path: Path): Option<Bytes>
    requires path != []
    decreases |path|, 1, 0
  {
    if s == [] then None
    else match MapCount(s[0], s[1..]) case Fail => None case Got(n, rest) => FindIn(rest, n, path)
  }

  /** The inner loop over `n` map entries: token keys are stepped over. */
  function FindIn(s: Bytes, n: nat, path: Path): Option<Bytes>
    requires path != []
    decreases |path|, 0, n
  {
    if n == 0 || s == [] then None
    else if s[0] >= 0xe0 then FindIn(SkipOrEnd(s[1..]), n - 1, path)
    else
      match ReadString(s)
      case Fail => None
      case Got(key, rest) =>
        if key != path[0] then FindIn(SkipOrEnd(rest), n - 1, path)
        else if |path| == 1 then Some(rest)
        else Find(rest, path[1..])
  }

  /** The bytes from the wanted value on, computed on the tree that was encoded. */
  function Locate(v: Value, path: Path, rest: Bytes): Option<Bytes>
    requires path != []
    decreases |path|, 1, 0
  {
    if v.Obj? then LocateIn(v.fields, path, rest) else None
  }

  function LocateIn(fs: seq<Field>, path: Path, rest: Bytes): Option<Bytes>
    requires path != []
    decreases |path|, 0, |fs|
  {
    if fs == [] then None
    else if fs[0].key != path[0] then LocateIn(fs[1..], path, rest)
    else if |path| == 1 then Some(Encode(fs[0].val) + (EncodeFields(fs[1..]) + rest))
    else Locate(fs[0].val, path[1..], EncodeFields(fs[1..]) + rest)
  }

  lemma NotAMap(v: Value, rest: Bytes)
    requires !v.Obj?
    ensures Encode(v) != [] && MapCount((Encode(v) + rest)[0], (Encode(v) + rest)[1..]) == Fail
  {
    hide BigEndian, EncodeItems, Uint;
  }

  lemma FindStepToken(k: Text, v: Value, more: Bytes, n: nat, path: Path)
    requires TokenOf(k) != 0 && Storable(v) && path != []
    ensures FindIn(EncodeKey(k) + (Encode(v) + more), n + 1, path) == FindIn(more, n, path)
  {
    hide Encode, Skip;
    var body := Encode(v) + more;
    SkipEncoded(v, more);
    assert (EncodeKey(k) + body)[1..] == body;
  }

  lemma FindStepText(k: Text, v: Value, more: Bytes, n: nat, path: Path)
    requires TokenOf(k) == 0 && StorableText(k) && Storable(v) && path != []
    ensures FindIn(EncodeKey(k) + (Encode(v) + more), n + 1, path)
         == if k != path[0] then FindIn(more, n, path)
            else if |path| == 1 then Some(Encode(v) + more)
            else Find(Encode(v) + more, path[1..])
  {
    hide Encode, Skip, TextAfter, EncodeText;
    var body := Encode(v) + more;
    SkipEncoded(v, more);
    ReadStringEncoded(k, body);
    TextFirstByte(k, body);
  }

  lemma TextFirstByte(k: Text, body: Bytes)
    requires StorableText(k)
    ensures EncodeText(k) != [] && (EncodeText(k) + body)[0] < 0xe0
  {
    hide TextAfter;
    TextHeaderRoundTrip(k, body);
  }

  /** On encoded bytes the walker returns exactly the bytes from the wanted value on. */
  lemma {:induction false} FindEncoded(v: Value, path: Path, rest: Bytes)
    requires Storable(v) && PlainPath(path) && path != []
    ensures Find(Encode(v) + rest, path) == Locate(v, path, rest)
    decreases |path|, 1, 0
  {
    hide FindIn, LocateIn, EncodeFields, MapHeader, MapCount, StorableFields, Encode;
    if v.Obj? {
      var body := EncodeFields(v.fields) + rest;
      ObjUnfold(v.fields, rest);
      MapHeaderNonEmpty(|v.fields|);
      MapCountRoundTrip(|v.fields|, body);
      FindInEncoded(v.fields, path, rest);
    } else {
      NotAMap(v, rest);
    }
  }

  lemma ObjUnfold(fs: seq<Field>, rest: Bytes)
    ensures Encode(Obj(fs)) + rest == MapHeader(|fs|) + (EncodeFields(fs) + rest)
  {
    hide MapHeader, EncodeFields;
  }

  lemma MapHeaderNonEmpty(n: nat)
    ensures MapHeader(n) != []
  {
  }

  lemma {:induction false} FindInEncoded(fs: seq<Field>, path: Path, rest: Bytes)
    requires StorableFields(fs) && PlainPath(path) && path != []
    ensures FindIn(EncodeFields(fs) + rest, |fs|, path) == LocateIn(fs, path, rest)
    decreases |path|, 0, |fs|
  {
    if fs == [] {
    } else {
      hide FindIn, Encode, EncodeFields, EncodeKey, Locate, Find;
      var k, v := fs[0].key, fs[0].val;
      var more := EncodeFields(fs[1..]) + rest;
      FieldsUnfold(fs, rest);
      FindInEncoded(fs[1..], path, rest);
      if TokenOf(k) != 0 {
        FindStepToken(k, v, more, |fs[1..]|, path);
      } else {
        FindStepText(k, v, more, |fs[1..]|, path);
        if k == path[0] && |path| > 1 {
          FindEncoded(v, path[1..], more);
        }
      }
    }
  }

  /** The located bytes begin with the encoding of the value that tree lookup finds. */
  lemma {:induction false} LocateNested(v: Value, path: Path, rest: Bytes) returns (tail: Bytes)
    requires path != []
    ensures Locate(v, path, rest)
         == match Nested(v, path) case None => None case Some(x) => Some(Encode(x) + tail)
    decreases |path|, 1, 0
  {
    hide Encode, EncodeFields;
    tail := [];
    if v.Obj? { tail := LocateInNested(v.fields, path, rest); }
  }

  lemma {:induction false} LocateInNested(fs: seq<Field>, path: Path, rest: Bytes) returns (tail: Bytes)
    requires path != []
    ensures LocateIn(fs, path, rest)
         == match Nested(Obj(fs), path) case None => None case Some(x) => Some(Encode(x) + tail)
    decreases |path|, 0, |fs|
  {
    hide Encode, EncodeFields;
    tail := [];
    if fs != [] {
      if fs[0].key != path[0] {
        tail := LocateInNested(fs[1..], path, rest);
        assert Nested(Obj(fs), path) == Nested(Obj(fs[1..]), path);
      } else if |path| == 1 {
        tail := EncodeFields(fs[1..]) + rest;
        assert path[1..] == [] && Nested(fs[0].val, path[1..]) == Some(fs[0].val);
      } else {
        tail := LocateNested(fs[0].val, path[1..], EncodeFields(fs[1..]) + rest);
      }
    }
  }

  /** Byte lookup finds a value iff tree lookup does, and returns bytes that begin with its
      encoding. */
  lemma WalkerAgrees(v: Value, path: Path) returns (tail: Bytes)
    requires Storable(v) && PlainPath(path) && path != []
    ensures Find(Encode(v), path) == match Nested(v, path) case None => None case Some(x) => Some(Encode(x) + tail)
  {
    hide Encode, Find, Locate, Nested;
    FindEncoded(v, path, []);
    tail := LocateNested(v, path, []);
    assert Encode(v) + [] == Encode(v);
  }

  // ----- Lookup in the decoded document -----

  lemma PlainLookup(fs: seq<Field>, k: Text)
    requires Ordered(fs) && TokenOf(k) == 0
    ensures Lookup(CanonFields([], fs), k) == match Lookup(fs, k) case None => None case Some(x) => Some(Canon(x))
  {
    forall j | 0 <= j < |fs| && CanonKey(fs[j].key) == k ensures fs[j].key == k {
      CanonKeyIdempotent(fs[j].key);
    }
    LastStoredUnique(fs, k);
    LookupCanonFields([], fs, k);
  }

  lemma {:induction false} LookupWellOrdered(fs: seq<Field>, k: Text)
    requires FieldsWellOrdered(fs) && Lookup(fs, k).Some?
    ensures WellOrdered(Lookup(fs, k).value)
  {
    if fs[0].key != k { LookupWellOrdered(fs[1..], k); }
  }

  /** Reading back a stored document does not move what lies under a plain path. */
  lemma {:induction false} NestedCanon(v: Value, path: Path)
    requires WellOrdered(v) && PlainPath(path)
    ensures Nested(Canon(v), path) == match Nested(v, path) case None => None case Some(x) => Some(Canon(x))
    decreases |path|
  {
    if path != [] && v.Obj? {
      hide CanonFields, Lookup, TokenOf;
      PlainLookup(v.fields, path[0]);
      if Lookup(v.fields, path[0]).Some? {
        LookupWellOrdered(v.fields, path[0]);
        NestedCanon(Lookup(v.fields, path[0]).value, path[1..]);
      }
    } else if path != [] {
      assert !Canon(v).Obj?;
    }
  }

  // ----- The multi-path walker -----

  /** Paths still to be found at this depth. */
  predicate Open(paths: seq<Path>, out: seq<Option<Bytes>>, depth: nat, i: nat)
    requires i < |paths| == |out|
  {
    out[i].None? && |paths[i]| > depth
  }

  function CountOpen(paths: seq<Path>, out: seq<Option<Bytes>>, depth: nat, n: nat): nat
    requires n <= |paths| == |out|
  {
    if n == 0 then 0 else CountOpen(paths, out, depth, n - 1) + if Open(paths, out, depth, n - 1) then 1 else 0
  }

  lemma {:induction false} CloseOne(paths: seq<Path>, out: seq<Option<Bytes>>, depth: nat, n: nat, i: nat, b: Bytes)
    requires i < |paths| == |out| && n <= |paths| && Open(paths, out, depth, i)
    ensures CountOpen(paths, out[i := Some(b)], depth, n) + (if i < n then 1 else 0) == CountOpen(paths, out, depth, n)
  {
    if n > 0 { CloseOne(paths, out, depth, n - 1, i, b); }
  }

  lemma {:induction false} NoneOpen(paths: seq<Path>, out: seq<Option<Bytes>>, depth: nat, n: nat)
    requires n <= |paths| == |out| && CountOpen(paths, out, depth, n) == 0
    ensures forall i | 0 <= i < n :: !Open(paths, out, depth, i)
  {
    if n > 0 { NoneOpen(paths, out, depth, n - 1); }
  }

  lemma {:induction false} SomeOpen(paths: seq<Path>, out: seq<Option<Bytes>>, depth: nat, n: nat, i: nat)
    requires n <= |paths| == |out| && i < n && Open(paths, out, depth, i)
    ensures CountOpen(paths, out, depth, n) > 0
  {
    if i < n - 1 { SomeOpen(paths, out, depth, n - 1, i); }
  }

  lemma {:induction false} LocateAbsent(fs: seq<Field>, path: Path, rest: Bytes)
    requires path != [] && path[0] !in Keys(fs)
    ensures LocateIn(fs, path, rest) == None
  {
    hide Encode, EncodeFields;
    if fs != [] {
      KeysCons(fs);
      LocateAbsent(fs[1..], path, rest);
    }
  }

  /** One path as the multi-path walker resolves it: a nested map that lacks the path does not
      end the search, so a later entry under the same key is tried too. */
  function FindAny(s: Bytes, path: Path): Option<Bytes>
    requires path != []
    decreases |path|, 1, 0
  {
    if s == [] then None
    else match MapCount(s[0], s[1..]) case Fail => None case Got(n, rest) => FindAnyIn(rest, n, path)
  }

  function FindAnyIn(s: Bytes, n: nat, path: Path): Option<Bytes>
    requires path != []
    decreases |path|, 0, n
  {
    if n == 0 || s == [] then None
    else if s[0] >= 0xe0 then FindAnyIn(SkipOrEnd(s[1..]), n - 1, path)
    else
      match ReadString(s)
      case Fail => None
      case Got(key, rest) => Or(Hit(key, rest, path), FindAnyIn(SkipOrEnd(rest), n - 1, path))
  }

  /** What the value under `key` contributes to `path`. */
  function Hit(key: Text, value: Bytes, path: Path): Option<Bytes>
    requires path != []
    decreases |path|, 0, 0
  {
    if key != path[0] then None
    else if |path| == 1 then Some(value)
    else FindAny(value, path[1..])
  }

  function Or(a: Option<Bytes>, b: Option<Bytes>): Option<Bytes> {
    if a.Some? then a else b
  }

  /** On any bytes, whatever the single lookup finds the multi-path lookup finds too. */
  lemma {:induction false} FindAnyExtends(s: Bytes, path: Path)
    requires path != [] && Find(s, path).Some?
    ensures FindAny(s, path) == Find(s, path)
    decreases |path|, 1, 0
  {
    hide MapCount;
    var header := MapCount(s[0], s[1..]);
    FindAnyInExtends(header.rest, header.val, path);
  }

  lemma {:induction false} FindAnyInExtends(s: Bytes, n: nat, path: Path)
    requires path != [] && FindIn(s, n, path).Some?
    ensures FindAnyIn(s, n, path) == FindIn(s, n, path)
    decreases |path|, 0, n
  {
    hide Skip, ReadString, MapCount;
    if s[0] >= 0xe0 {
      FindAnyInExtends(SkipOrEnd(s[1..]), n - 1, path);
    } else {
      var key := ReadString(s);
      if key.val != path[0] {
        FindAnyInExtends(SkipOrEnd(key.rest), n - 1, path);
      } else if |path| > 1 {
        FindAnyExtends(key.rest, path[1..]);
      }
    }
  }

  lemma AnyStepToken(k: Text, v: Value, more: Bytes, n: nat, path: Path)
    requires TokenOf(k) != 0 && Storable(v) && path != []
    ensures FindAnyIn(EncodeKey(k) + (Encode(v) + more), n + 1, path) == FindAnyIn(more, n, path)
  {
    hide Encode, Skip;
    var body := Encode(v) + more;
    SkipEncoded(v, more);
    assert (EncodeKey(k) + body)[1..] == body;
  }

  lemma AnyStepText(k: Text, v: Value, more: Bytes, n: nat, path: Path)
    requires TokenOf(k) == 0 && StorableText(k) && Storable(v) && path != []
    ensures FindAnyIn(EncodeKey(k) + (Encode(v) + more), n + 1, path)
         == Or(Hit(k, Encode(v) + more, path), FindAnyIn(more, n, path))
  {
    hide Encode, Skip, TextAfter, EncodeText, Hit;
    var body := Encode(v) + more;
    SkipEncoded(v, more);
    ReadStringEncoded(k, body);
    TextFirstByte(k, body);
  }

  /** On a document with distinct keys both walkers stop at the same bytes. */
  lemma {:induction false} FindAnyEncoded(v: Value, path: Path, rest: Bytes)
    requires Storable(v) && WellOrdered(v) && PlainPath(path) && path != []
    ensures FindAny(Encode(v) + rest, path) == Locate(v, path, rest)
    decreases |path|, 1, 0
  {
    hide FindAnyIn, LocateIn, EncodeFields, MapHeader, MapCount, StorableFields, Encode;
    if v.Obj? {
      var body := EncodeFields(v.fields) + rest;
      ObjUnfold(v.fields, rest);
      MapHeaderNonEmpty(|v.fields|);
      MapCountRoundTrip(|v.fields|, body);
      FindAnyInEncoded(v.fields, path, rest);
    } else {
      NotAMap(v, rest);
    }
  }

  lemma {:induction false} FindAnyInEncoded(fs: seq<Field>, path: Path, rest: Bytes)
    requires StorableFields(fs) && Ordered(fs) && FieldsWellOrdered(fs) && PlainPath(path) && path != []
    ensures FindAnyIn(EncodeFields(fs) + rest, |fs|, path) == LocateIn(fs, path, rest)
    decreases |path|, 0, |fs|
  {
    if fs != [] {
      hide FindAnyIn, Encode, EncodeFields, EncodeKey, Locate, FindAny, Less;
      var k, v := fs[0].key, fs[0].val;
      var more := EncodeFields(fs[1..]) + rest;
      FieldsUnfold(fs, rest);
      FindAnyInEncoded(fs[1..], path, rest);
      if TokenOf(k) != 0 {
        AnyStepToken(k, v, more, |fs[1..]|, path);
      } else {
        AnyStepText(k, v, more, |fs[1..]|, path);
        if k == path[0] && |path| > 1 {
          FindAnyEncoded(v, path[1..], more);
          HeadKeyOnce(fs);
          LocateAbsent(fs[1..], path, rest);
        }
      }
    }
  }

  lemma HeadKeyOnce(fs: seq<Field>)
    requires fs != [] && Ordered(fs)
    ensures fs[0].key !in Keys(fs[1..])
  {
    hide Less;
    forall i | 0 <= i < |fs[1..]| ensures fs[1..][i].key != fs[0].key {
      LessTrichotomy(fs[0].key, fs[i + 1].key);
    }
  }

  // ----- The walkers as cursor loops -----

  /** `find_msgpack_value`. */
  method FindValue(doc: Bytes, path: Path) returns (r: Option<Bytes>)
    ensures r == if path == [] then None else Find(doc, path)
  {
    hide Skip, ReadString, MapCount;
    var bytes, depth := doc, 0;
    assert path[0..] == path;
    while depth < |path|
      invariant 0 <= depth <= |path|
      invariant path != [] ==> Find(doc, path) == if depth < |path| then Find(bytes, path[depth..]) else None
    {
      if bytes == [] { return None; }
      var header := MapCount(bytes[0], bytes[1..]);
      if header.Fail? { return None; }
      bytes := header.rest;
      var left, found := header.val, false;
      while left > 0 && !found
        invariant !found ==> Find(doc, path) == FindIn(bytes, left, path[depth..])
        invariant found ==> depth + 1 < |path| && Find(doc, path) == Find(bytes, path[depth + 1..])
        decreases left, !found
      {
        if bytes == [] { return None; }
        if bytes[0] >= 0xe0 {
          bytes := SkipOrEnd(bytes[1..]);
          left := left - 1;
          continue;
        }
        var key := ReadString(bytes);
        if key.Fail? { return None; }
        bytes := key.rest;
        if key.val == path[depth] {
          if depth == |path| - 1 { return Some(bytes); }
          assert path[depth..][1..] == path[depth + 1..];
          found := true;
        } else {
          bytes := SkipOrEnd(bytes);
          left := left - 1;
        }
      }
      if !found { return None; }
      depth := depth + 1;
    }
    r := None;
  }

  /** One open path after the walk has consumed a prefix of the map. */
  ghost predicate Resolved(paths: seq<Path>, start: seq<Option<Bytes>>, out: seq<Option<Bytes>>, depth: nat, doc: Bytes, bytes: Bytes, left: nat)
    requires |paths| == |start| == |out|
  {
    forall i | 0 <= i < |paths| ::
      if !Open(paths, start, depth, i) then out[i] == start[i]
      else FindAny(doc, paths[i][depth..]) == Or(out[i], FindAnyIn(bytes, left, paths[i][depth..]))
  }

  /** The final state of the walk. */
  ghost predicate AllFound(doc: Bytes, paths: seq<Path>, start: seq<Option<Bytes>>, out: seq<Option<Bytes>>, depth: nat)
    requires |paths| == |start| == |out|
  {
    forall i | 0 <= i < |paths| ::
      out[i] == if Open(paths, start, depth, i) then FindAny(doc, paths[i][depth..]) else start[i]
  }

  /** Nothing left to read, or nothing left to find: the early stop loses nothing. */
  lemma ResolvedAll(paths: seq<Path>, start: seq<Option<Bytes>>, out: seq<Option<Bytes>>, depth: nat, doc: Bytes, bytes: Bytes, left: nat)
    requires |paths| == |start| == |out| && Resolved(paths, start, out, depth, doc, bytes, left)
    requires CountOpen(paths, out, depth, |paths|) == 0
          || forall i | 0 <= i < |paths| && Open(paths, start, depth, i) :: FindAnyIn(bytes, left, paths[i][depth..]) == None
    ensures AllFound(doc, paths, start, out, depth)
  {
    hide FindAny, FindAnyIn;
    if CountOpen(paths, out, depth, |paths|) == 0 {
      NoneOpen(paths, out, depth, |paths|);
      assert forall i | 0 <= i < |paths| && Open(paths, start, depth, i) :: !Open(paths, out, depth, i);
    }
  }

  /** The open paths through `key`: those that end there, or those that go on below it. */
  function Chosen(paths: seq<Path>, out: seq<Option<Bytes>>, depth: nat, key: Text, leaf: bool, n: nat): (r: seq<nat>)
    requires n <= |paths| == |out|
    ensures forall i | 0 <= i < n :: i in r <==> Open(paths, out, depth, i) && paths[i][depth] == key && (|paths[i]| == depth + 1) == leaf
    ensures forall j | 0 <= j < |r| :: r[j] < n
    ensures forall j, k | 0 <= j < k < |r| :: r[j] < r[k]
  {
    if n == 0 then []
    else
      var r := Chosen(paths, out, depth, key, leaf, n - 1);
      if Open(paths, out, depth, n - 1) && paths[n - 1][depth] == key && (|paths[n - 1]| == depth + 1) == leaf
      then r + [n - 1] else r
  }

  /** Stores the found slices at their indices and keeps the count of open paths. */
  method Fill(paths: seq<Path>, out: array<Option<Bytes>>, depth: nat, at: seq<nat>, found: seq<Option<Bytes>>, remaining: nat)
    returns (left: nat)
    requires out.Length == |paths| && |at| == |found|
    requires forall j | 0 <= j < |at| :: at[j] < |paths| && Open(paths, out[..], depth, at[j])
    requires forall j, k | 0 <= j < k < |at| :: at[j] < at[k]
    requires remaining == CountOpen(paths, out[..], depth, |paths|)
    modifies out
    ensures forall j | 0 <= j < |at| :: out[at[j]] == found[j]
    ensures forall i | 0 <= i < |paths| && i !in at :: out[i] == old(out[i])
    ensures left == CountOpen(paths, out[..], depth, |paths|)
  {
    hide CountOpen;
    left := remaining;
    for j := 0 to |at|
      invariant forall k | 0 <= k < j :: out[at[k]] == found[k]
      invariant forall k | j <= k < |at| :: Open(paths, out[..], depth, at[k]) && out[at[k]] == None
      invariant forall i | 0 <= i < |paths| && i !in at :: out[i] == old(out[i])
      invariant left == CountOpen(paths, out[..], depth, |paths|)
    {
      if found[j].Some? {
        ghost var before := out[..];
        SomeOpen(paths, before, depth, |paths|, at[j]);
        CloseOne(paths, before, depth, |paths|, at[j], found[j].value);
        out[at[j]] := found[j];
        assert out[..] == before[at[j] := Some(found[j].value)];
        left := left - 1;
      }
    }
  }

  /** Sorts the open paths through `key` into those that end there and those that go on. */
  method Gather(key: Text, paths: seq<Path>, out: array<Option<Bytes>>, depth: nat) returns (leaf: seq<nat>, nested: seq<nat>)
    requires out.Length == |paths|
    ensures leaf == Chosen(paths, out[..], depth, key, true, |paths|)
    ensures nested == Chosen(paths, out[..], depth, key, false, |paths|)
  {
    leaf, nested := [], [];
    for i := 0 to |paths|
      invariant leaf == Chosen(paths, out[..], depth, key, true, i)
      invariant nested == Chosen(paths, out[..], depth, key, false, i)
    {
      if out[i].Some? || |paths[i]| <= depth { continue; }
      if paths[i][depth] == key {
        if depth == |paths[i]| - 1 { leaf := leaf + [i]; } else { nested := nested + [i]; }
      }
    }
  }

  /** The paths that go on, looked up together in the nested value. */
  method Below(value: Bytes, paths: seq<Path>, nested: seq<nat>, depth: nat, ghost bound: nat) returns (found: seq<Option<Bytes>>)
    requires forall i | 0 <= i < |paths| :: |paths[i]| <= bound
    requires nested != [] && forall j | 0 <= j < |nested| :: nested[j] < |paths| && depth + 1 < |paths[nested[j]]|
    ensures |found| == |nested|
    ensures forall j | 0 <= j < |nested| :: found[j] == FindAny(value, paths[nested[j]][depth + 1..])
    decreases bound - depth, 0
  {
    var subPaths := seq(|nested|, j requires 0 <= j < |nested| => paths[nested[j]]);
    var subOut := new Option<Bytes>[|nested|](_ => None);
    assert |paths[nested[0]]| <= bound;
    ghost var start := subOut[..];
    var below := depth + 1;
    assert forall j | 0 <= j < |nested| :: Open(subPaths, start, below, j);
    FindMulti(value, subPaths, subOut, below, bound);
    found := subOut[..];
  }

  /** One map entry of the multi-path walk. */
  method Resolve(key: Text, value: Bytes, paths: seq<Path>, out: array<Option<Bytes>>, depth: nat, remaining: nat, ghost bound: nat)
    returns (left: nat)
    requires out.Length == |paths| && depth <= bound && forall i | 0 <= i < |paths| :: |paths[i]| <= bound
    requires remaining == CountOpen(paths, out[..], depth, |paths|)
    modifies out
    ensures forall i | 0 <= i < |paths| ::
              out[i] == if Open(paths, old(out[..]), depth, i) then Hit(key, value, paths[i][depth..]) else old(out[i])
    ensures left == CountOpen(paths, out[..], depth, |paths|)
    decreases bound - depth, 1
  {
    hide CountOpen, FindAny, Chosen;
    ghost var start := out[..];
    var leaf, nested := Gather(key, paths, out, depth);
    forall j | 0 <= j < |leaf| ensures Open(paths, start, depth, leaf[j]) { assert leaf[j] in leaf; }
    assert forall j | 0 <= j < |nested| :: nested[j] in nested && nested[j] !in leaf;
    left := Fill(paths, out, depth, leaf, seq(|leaf|, j => Some(value)), remaining);
    if nested != [] {
      var found := Below(value, paths, nested, depth, bound);
      assert forall j | 0 <= j < |nested| :: Open(paths, out[..], depth, nested[j]);
      left := Fill(paths, out, depth, nested, found, left);
    }
    forall i | 0 <= i < |paths| && Open(paths, start, depth, i)
      ensures out[i] == Hit(key, value, paths[i][depth..])
    {
      if i in leaf {
        var j :| 0 <= j < |leaf| && leaf[j] == i;
        assert i !in nested;
      } else if i in nested {
        var j :| 0 <= j < |nested| && nested[j] == i;
        assert paths[i][depth..][1..] == paths[i][depth + 1..];
      }
    }
  }

  /** `find_msgpack_values_multi_inner`, on any bytes: every open path ends up with what looking
      it up alone would give it, although the walk stops as soon as no path is open. */
  method FindMulti(doc: Bytes, paths: seq<Path>, out: array<Option<Bytes>>, depth: nat, ghost bound: nat)
    requires out.Length == |paths| && depth <= bound && forall i | 0 <= i < |paths| :: |paths[i]| <= bound
    modifies out
    ensures AllFound(doc, paths, old(out[..]), out[..], depth)
    decreases bound - depth, 2
  {
    hide Skip, ReadString, MapCount, Hit;
    if doc == [] { return; }
    var header := MapCount(doc[0], doc[1..]);
    if header.Fail? { return; }
    var bytes, left := header.rest, header.val;
    ghost var start := out[..];
    var remaining := |paths|;
    for i := 0 to |paths|
      invariant remaining == |paths| - i + CountOpen(paths, start, depth, i)
    {
      if out[i].Some? || |paths[i]| <= depth { remaining := remaining - 1; }
    }
    while left > 0
      invariant Resolved(paths, start, out[..], depth, doc, bytes, left)
      invariant remaining == CountOpen(paths, out[..], depth, |paths|)
    {
      if remaining == 0 { break; }
      if bytes == [] { break; }
      if bytes[0] >= 0xe0 {
        bytes, left := SkipOrEnd(bytes[1..]), left - 1;
        continue;
      }
      var key := ReadString(bytes);
      if key.Fail? { break; }
      remaining := Resolve(key.val, key.rest, paths, out, depth, remaining, bound);
      bytes, left := SkipOrEnd(key.rest), left - 1;
    }
    ResolvedAll(paths, start, out[..], depth, doc, bytes, left);
  }

  ghost function Longest(paths: seq<Path>): (n: nat)
    ensures forall i | 0 <= i < |paths| :: |paths[i]| <= n
  {
    if paths == [] then 0
    else var n := Longest(paths[1..]); if |paths[0]| > n then |paths[0]| else n
  }

  /** `find_msgpack_values_multi`. */
  method FindValues(doc: Bytes, paths: seq<Path>) returns (out: array<Option<Bytes>>)
    ensures fresh(out) && out.Length == |paths|
    ensures forall i | 0 <= i < |paths| :: out[i] == if paths[i] == [] then None else FindAny(doc, paths[i])
  {
    out := new Option<Bytes>[|paths|](_ => None);
    ghost var start := out[..];
    FindMulti(doc, paths, out, 0, Longest(paths));
    forall i | 0 <= i < |paths| ensures out[i] == if paths[i] == [] then None else FindAny(doc, paths[i]) {
      if paths[i] != [] {
        assert Open(paths, start, 0, i) && paths[i][0..] == paths[i];
      }
    }
  }

  /** On a stored document, the one-pass lookup of a path is the single lookup, and both return
      the bytes of the nested value iff tree lookup finds it. */
  lemma MultiAgrees(v: Value, path: Path) returns (tail: Bytes)
    requires Storable(v) && WellOrdered(v) && PlainPath(path) && path != []
    ensures FindAny(Encode(v), path) == Find(Encode(v), path)
    ensures FindAny(Encode(v), path) == match Nested(v, path) case None => None case Some(x) => Some(Encode(x) + tail)
  {
    hide Encode, Find, FindAny, Locate, Nested;
    tail := WalkerAgrees(v, path);
    FindEncoded(v, path, []);
    FindAnyEncoded(v, path, []);
    assert Encode(v) + [] == Encode(v);
  }
}
