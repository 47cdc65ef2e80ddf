/** The log file as a sequence of length-prefixed payloads, and what a cut leaves of it. */
module Framing {
  import opened Bytes

  /** `[4 bytes little-endian length][payload]`; the length is cast to u32 by the writer. */
  function Frame(p: Bytes): Bytes {
    LittleEndian(4, |p| % TWO_32) + p
  }

  function Frames(ps: seq<Bytes>): Bytes {
    if ps == [] then [] else Frame(ps[0]) + Frames(ps[1..])
  }

  /** The payloads a reader sees: it stops at the first frame that is not whole. */
  function ReadFrames(file: Bytes): seq<Bytes>
    decreases |file|
  {
    if |file| < 4 then []
    else
      var len := FromLittleEndian(file[..4]);
      if 4 + len > |file| then [] else [file[4..4 + len]] + ReadFrames(file[4 + len..])
  }

  /** How many of the frames lie entirely within the first `n` bytes. */
  function WholeFrames(ps: seq<Bytes>, n: nat): (k: nat)
    ensures k <= |ps|
  {
    if ps == [] || n < 4 + |ps[0]| then 0 else 1 + WholeFrames(ps[1..], n - 4 - |ps[0]|)
  }

  predicate Frameable(ps: seq<Bytes>) {
    forall i | 0 <= i < |ps| :: |ps[i]| < TWO_32
  }

  lemma SplitFrame(h: Bytes, p: Bytes, rest: Bytes)
    requires |h| == 4
    ensures var f := h + p + rest; f[..4] == h && f[4..4 + |p|] == p && f[4 + |p|..] == rest
    ensures forall n | 4 <= n <= 4 + |p| :: (h + p)[..n][..4] == h
  {
  }

  lemma ReadOneFrame(p: Bytes, rest: Bytes)
    requires |p| < TWO_32
    ensures ReadFrames(Frame(p) + rest) == [p] + ReadFrames(rest)
  {
    hide LittleEndian, FromLittleEndian;
    Pow256Values();
    LittleEndianRoundTrip(4, |p|);
    SplitFrame(LittleEndian(4, |p|), p, rest);
    var file := Frame(p) + rest;
    assert FromLittleEndian(file[..4]) == |p| && |file| == 4 + |p| + |rest|;
    assert ReadFrames(file) == [file[4..4 + |p|]] + ReadFrames(file[4 + |p|..]);
  }

  lemma ReadTornFrame(p: Bytes, n: nat)
    requires |p| < TWO_32 && n < 4 + |p|
    ensures ReadFrames(Frame(p)[..n]) == []
  {
    hide LittleEndian, FromLittleEndian;
    Pow256Values();
    LittleEndianRoundTrip(4, |p|);
    if n >= 4 {
      SplitFrame(LittleEndian(4, |p|), p, []);
      assert FromLittleEndian(Frame(p)[..n][..4]) == |p|;
    }
  }

  lemma CutFirst(a: Bytes, b: Bytes, n: nat)
    requires n <= |a| + |b|
    ensures (a + b)[..n] == if n < |a| then a[..n] else a + b[..n - |a|]
  {
  }

  /** Frames that end before the cut are whole. */
  lemma {:induction false} WholeFramesAtLeast(ps: seq<Bytes>, m: nat, n: nat)
    requires m <= |ps| && |Frames(ps[..m])| <= n
    ensures m <= WholeFrames(ps, n)
    decreases m
  {
    hide LittleEndian;
    if m > 0 {
      assert ps[..m][0] == ps[0] && ps[..m][1..] == ps[1..][..m - 1];
      WholeFramesAtLeast(ps[1..], m - 1, n - 4 - |ps[0]|);
    }
  }

  /** Cutting the file at any byte leaves exactly the payloads of the whole frames readable. */
  lemma {:induction false} TornFile(ps: seq<Bytes>, n: nat)
    requires Frameable(ps) && n <= |Frames(ps)|
    ensures ReadFrames(Frames(ps)[..n]) == ps[..WholeFrames(ps, n)]
  {
    if ps != [] {
      CutFirst(Frame(ps[0]), Frames(ps[1..]), n);
      if n < 4 + |ps[0]| {
        ReadTornFrame(ps[0], n);
      } else {
        var n' := n - 4 - |ps[0]|;
        TornFile(ps[1..], n');
        ReadOneFrame(ps[0], Frames(ps[1..])[..n']);
        assert ps[..WholeFrames(ps, n)] == [ps[0]] + ps[1..][..WholeFrames(ps[1..], n')];
      }
    }
  }

  lemma {:induction false} WholeFramesAll(ps: seq<Bytes>)
    ensures WholeFrames(ps, |Frames(ps)|) == |ps|
  {
    if ps != [] {
      WholeFramesAll(ps[1..]);
    }
  }

  lemma {:induction false} FramesConcat(a: seq<Bytes>, b: seq<Bytes>)
    ensures Frames(a + b) == Frames(a) + Frames(b)
  {
    if a == [] {
      assert a + b == b;
    } else {
      FramesConcat(a[1..], b);
      assert (a + b)[1..] == a[1..] + b;
      Associate(Frame(a[0]), Frames(a[1..]), Frames(b));
    }
  }

  lemma Associate(a: Bytes, b: Bytes, c: Bytes)
    ensures a + (b + c) == a + b + c
  {
  }

  /** What the reader does at byte `pos`. */
  lemma AtFrame(file: Bytes, pos: nat)
    requires pos + 4 <= |file|
    ensures var len := FromLittleEndian(file[pos..pos + 4]);
            ReadFrames(file[pos..])
            == if pos + 4 + len > |file| then []
               else [file[pos + 4..pos + 4 + len]] + ReadFrames(file[pos + 4 + len..])
  {
    var len := FromLittleEndian(file[pos..pos + 4]);
    assert file[pos..][..4] == file[pos..pos + 4];
    if pos + 4 + len <= |file| {
      assert file[pos..][4..4 + len] == file[pos + 4..pos + 4 + len];
      assert file[pos..][4 + len..] == file[pos + 4 + len..];
    }
  }

  lemma AtEnd(file: Bytes, pos: nat)
    requires pos <= |file| < pos + 4
    ensures ReadFrames(file[pos..]) == []
  {
  }

  /** `stream_log_entries`: one pass over the file with a byte cursor, skipping the first `skip`
      frames. */
  method Stream(file: Bytes, skip: nat) returns (payloads: seq<Bytes>)
    ensures payloads == if skip <= |ReadFrames(file)| then ReadFrames(file)[skip..] else []
  {
    hide ReadFrames, FromLittleEndian;
    payloads := [];
    var pos, idx := 0, 0;
    ghost var seen: seq<Bytes> := [];
    assert file[0..] == file;
    while pos + 4 <= |file|
      invariant 0 <= pos <= |file| && idx == |seen|
      invariant ReadFrames(file) == seen + ReadFrames(file[pos..])
      invariant payloads == if skip <= |seen| then seen[skip..] else []
      decreases |file| - pos
    {
      AtFrame(file, pos);
      var len := FromLittleEndian(file[pos..pos + 4]);
      pos := pos + 4;
      if pos + len > |file| {
        return;
      }
      var payload := file[pos..pos + len];
      pos := pos + len;
      seen := seen + [payload];
      if idx < skip {
        idx := idx + 1;
        continue;
      }
      payloads := payloads + [payload];
      idx := idx + 1;
    }
    AtEnd(file, pos);
  }
}
