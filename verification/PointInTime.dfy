/** `recover_to`: replay up to a time or an entry count. The stop is signalled by the callback; a
    stop inside the snapshot makes the storage fall back to streaming the log, where the callback
    must stop again at once. */
module PointInTime {
  import opened Bytes
  import opened Json
  import opened LogCodec
  import opened Replay

  /** State of the callback: the replayer and the number of entries it has accepted. */
  datatype Cursor = Cursor(r: Replayer, count: nat)

  predicate Stops(e: LogEntry, count: nat, toTime: Option<u64>, toSeq: Option<nat>) {
    (toTime.Some? && e.t > toTime.value) || (toSeq.Some? && count >= toSeq.value)
  }

  /** How many entries the callback accepts before it stops. */
  function Accepted(es: seq<LogEntry>, count: nat, toTime: Option<u64>, toSeq: Option<nat>): (n: nat)
    ensures n <= |es|
    decreases es
  {
    if es == [] || Stops(es[0], count, toTime, toSeq) then 0
    else 1 + Accepted(es[1..], count + 1, toTime, toSeq)
  }

  /** `recover_to` over a snapshot and a log, with its two streaming loops. */
  class Recoverer {
    var builder: StateBuilder
    var count: nat

    constructor ()
      ensures fresh(builder) && builder.View() == FRESH && count == 0
    {
      builder := new StateBuilder();
      count := 0;
    }

    /** Feeds entries to the callback until it stops. */
    method Stream(es: seq<LogEntry>, toTime: Option<u64>, toSeq: Option<nat>) returns (broke: bool)
      modifies this`count, builder
      ensures builder == old(builder)
      ensures count == old(count) + Accepted(es, old(count), toTime, toSeq)
      ensures builder.View() == FeedAll(old(builder.View()), es[..Accepted(es, old(count), toTime, toSeq)])
      ensures broke <==> Accepted(es, old(count), toTime, toSeq) < |es|
    {
      hide FeedAll;
      broke := false;
      var i := 0;
      FeedNone(builder.View());
      while i < |es|
        invariant 0 <= i <= |es| && count == old(count) + i && builder == old(builder)
        invariant Accepted(es, old(count), toTime, toSeq) == i + Accepted(es[i..], count, toTime, toSeq)
        invariant builder.View() == FeedAll(old(builder.View()), es[..i])
      {
        assert es[i..][1..] == es[i + 1..] && es[i..][0] == es[i];
        if Stops(es[i], count, toTime, toSeq) {
          return true;
        }
        builder.Stream([es[i]]);
        FeedConcat(old(builder.View()), es[..i], [es[i]]);
        assert es[..i] + [es[i]] == es[..i + 1];
        count := count + 1;
        i := i + 1;
      }
    }

    /** Snapshot first; when it stops early the storage streams the whole log all the same. */
    method RecoverTo(snapshot: seq<LogEntry>, log: seq<LogEntry>, toTime: Option<u64>, toSeq: Option<nat>)
      requires builder.View() == FRESH && count == 0
      requires forall i | 0 <= i < |snapshot| :: snapshot[i].t == 0
      modifies this`count, builder
      ensures builder == old(builder) && count == Accepted(snapshot + log, 0, toTime, toSeq)
      ensures builder.View() == FeedAll(FRESH, (snapshot + log)[..count])
    {
      hide FeedAll, Accepted, Stops;
      var broke := Stream(snapshot, toTime, toSeq);
      ghost var n := count;
      var _ := Stream(log, toTime, toSeq);
      SplitAccepted(snapshot, log, 0, toTime, toSeq);
      FeedConcat(FRESH, snapshot[..n], log[..count - n]);
      assert (snapshot + log)[..count] == snapshot[..n] + log[..count - n];
    }
  }

  lemma FeedNone(r: Replayer)
    ensures FeedAll(r, []) == r
  {
  }

  /** Stopping inside the snapshot is final: the log then contributes nothing. Snapshot entries
      carry time 0, so only the entry count can stop there. */
  lemma {:induction false} SplitAccepted(snap: seq<LogEntry>, log: seq<LogEntry>, count: nat, toTime: Option<u64>, toSeq: Option<nat>)
    requires forall i | 0 <= i < |snap| :: snap[i].t == 0
    ensures var n := Accepted(snap, count, toTime, toSeq); var m := Accepted(log, count + n, toTime, toSeq);
            Accepted(snap + log, count, toTime, toSeq) == n + m && (n < |snap| ==> m == 0)
    decreases snap
  {
    if snap == [] {
      assert snap + log == log;
    } else {
      assert (snap + log)[0] == snap[0] && (snap + log)[1..] == snap[1..] + log;
      if !Stops(snap[0], count, toTime, toSeq) {
        SplitAccepted(snap[1..], log, count + 1, toTime, toSeq);
      }
    }
  }

  lemma {:induction false} AcceptedCount(es: seq<LogEntry>, count: nat, k: nat)
    requires count <= k
    ensures Accepted(es, count, None, Some(k)) == if k - count <= |es| then k - count else |es|
    decreases es
  {
    if es != [] && count < k {
      AcceptedCount(es[1..], count + 1, k);
    }
  }

  /** `recover_to` with `to_seq = k` equals the replay of the first `k` entries of snapshot and log
      together, also when the stop falls inside the snapshot; of all entries when there are fewer. */
  lemma RecoverToSeq(snap: seq<LogEntry>, log: seq<LogEntry>, k: nat)
    ensures var es := snap + log;
            FeedAll(FRESH, es[..Accepted(es, 0, None, Some(k))]).docs == Recovered(if k <= |es| then es[..k] else es)
  {
    hide FeedAll;
    var es := snap + log;
    AcceptedCount(es, 0, k);
    assert es[..|es|] == es;
  }

  /** With a time alone, recovery replays exactly the entries before the first later one. */
  lemma {:induction false} RecoverToTime(es: seq<LogEntry>, count: nat, limit: u64)
    ensures var n := Accepted(es, count, Some(limit), None);
            (forall i | 0 <= i < n :: es[i].t <= limit) && (n < |es| ==> es[n].t > limit)
    decreases es
  {
    if es != [] && es[0].t <= limit {
      RecoverToTime(es[1..], count + 1, limit);
    }
  }
}
