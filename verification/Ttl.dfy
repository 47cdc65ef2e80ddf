/** Collection expiry: the registry kept by writes, and the sweep that drops what has expired. */
module Ttl {
  import opened Bytes
  import opened Documents

  datatype Entry = Entry(at: u64, c: Text)

  const IDLE_MS: nat := 60_000

  /** `now + secs * 1_000`. */
  function Deadline(now: nat, secs: nat): u64 {
    Wrap(now + secs * 1000)
  }

  // ----- Heap contents -----

  function DueCount(heap: seq<Entry>, now: u64): nat {
    if heap == [] then 0 else (if heap[0].at <= now then 1 else 0) + DueCount(heap[1..], now)
  }

  lemma {:induction false} DueCountConcat(a: seq<Entry>, b: seq<Entry>, now: u64)
    ensures DueCount(a + b, now) == DueCount(a, now) + DueCount(b, now)
  {
    if a == [] {
      assert a + b == b;
    } else {
      DueCountConcat(a[1..], b, now);
      assert (a + b)[1..] == a[1..] + b;
    }
  }

  function Without(heap: seq<Entry>, i: nat): seq<Entry>
    requires i < |heap|
  {
    heap[..i] + heap[i + 1..]
  }

  /** Popping a due entry and perhaps pushing one that is not due lowers the count of due entries. */
  lemma DuePopped(heap: seq<Entry>, i: nat, now: u64, more: seq<Entry>)
    requires i < |heap| && heap[i].at <= now && (more == [] || (|more| == 1 && more[0].at > now))
    ensures DueCount(Without(heap, i) + more, now) == DueCount(heap, now) - 1
  {
    assert heap == heap[..i] + ([heap[i]] + heap[i + 1..]);
    DueCountConcat(heap[..i], [heap[i]] + heap[i + 1..], now);
    DueCountConcat([heap[i]], heap[i + 1..], now);
    DueCountConcat(heap[..i], heap[i + 1..], now);
    DueCountConcat(Without(heap, i), more, now);
    assert [heap[i]][1..] == [] && (more != [] ==> more[1..] == []);
  }

  /** Some entry for `c` is no later than `at`. */
  predicate Covers(es: seq<Entry>, c: Text, at: u64) {
    exists i :: 0 <= i < |es| && es[i].c == c && es[i].at <= at
  }

  predicate HasDue(es: seq<Entry>, c: Text, now: u64) {
    Covers(es, c, now)
  }

  /** The entry a min-heap has on top. */
  predicate IsLeast(heap: seq<Entry>, i: int) {
    0 <= i < |heap| && forall j | 0 <= j < |heap| :: heap[i].at <= heap[j].at
  }

  lemma {:induction false} LeastEntry(heap: seq<Entry>) returns (i: nat)
    requires heap != []
    ensures IsLeast(heap, i)
  {
    i := 0;
    if |heap| > 1 {
      var j := LeastEntry(heap[1..]);
      forall k | 1 <= k < |heap| ensures heap[j + 1].at <= heap[k].at { assert heap[k] == heap[1..][k - 1]; }
      if heap[j + 1].at < heap[0].at { i := j + 1; }
    }
  }

  lemma CoversWithout(heap: seq<Entry>, i: nat, c: Text, at: u64)
    requires i < |heap|
    ensures Covers(Without(heap, i), c, at) ==> Covers(heap, c, at)
    ensures Covers(heap, c, at) && heap[i].c != c ==> Covers(Without(heap, i), c, at)
    ensures Covers(heap, c, at) ==> Covers(Without(heap, i), c, at) || (heap[i].c == c && heap[i].at <= at)
  {
    if Covers(Without(heap, i), c, at) {
      var j :| 0 <= j < |Without(heap, i)| && Without(heap, i)[j].c == c && Without(heap, i)[j].at <= at;
      assert heap[if j < i then j else j + 1] == Without(heap, i)[j];
    }
    if Covers(heap, c, at) {
      var j :| 0 <= j < |heap| && heap[j].c == c && heap[j].at <= at;
      if j != i { assert Without(heap, i)[if j < i then j else j - 1] == heap[j]; }
    }
  }

  lemma CoversConcat(a: seq<Entry>, b: seq<Entry>, c: Text, at: u64)
    ensures Covers(a + b, c, at) <==> Covers(a, c, at) || Covers(b, c, at)
  {
    if Covers(a, c, at) {
      var i :| 0 <= i < |a| && a[i].c == c && a[i].at <= at;
      assert (a + b)[i] == a[i];
    }
    if Covers(b, c, at) {
      var i :| 0 <= i < |b| && b[i].c == c && b[i].at <= at;
      assert (a + b)[|a| + i] == b[i];
    }
    if Covers(a + b, c, at) {
      var i :| 0 <= i < |a + b| && (a + b)[i].c == c && (a + b)[i].at <= at;
      if i < |a| { assert a[i] == (a + b)[i]; } else { assert b[i - |a|] == (a + b)[i]; }
    }
  }

  // ----- The database side and the sweep -----

  class Sweep {
    var live: set<Text>              // collections that exist
    var expiry: map<Text, u64>       // `ttl_expiry`
    var defaults: map<Text, u64>     // `ttl_defaults`, in seconds
    var pending: seq<Entry>          // expiry events broadcast and not yet received
    var heap: seq<Entry>             // the sweep's heap, stale entries included

    /** Every registered expiry has an entry, received or on its way, that is no later than it. */
    ghost predicate Valid()
      reads this
    {
      forall c | c in expiry :: Covers(heap + pending, c, expiry[c])
    }

    /** Startup: what has expired is dropped, everything else is put on the heap. */
    constructor (collections: set<Text>, registered: map<Text, u64>, secs: map<Text, u64>, now: u64)
      ensures Valid() && pending == []
      ensures forall c :: c in expiry <==> c in registered && registered[c] > now
      ensures forall c | c in expiry :: expiry[c] == registered[c]
      ensures forall c :: c in live <==> c in collections && !(c in registered && registered[c] <= now)
      ensures forall i | 0 <= i < |heap| :: heap[i].at > now
    {
      live, expiry, defaults, pending, heap := collections, registered, secs, [], [];
      new;
      var todo := registered.Keys;
      while todo != {}
        invariant todo <= registered.Keys && pending == []
        invariant forall c :: c in expiry <==> c in registered && (c in todo || registered[c] > now)
        invariant forall c | c in expiry :: expiry[c] == registered[c]
        invariant forall c :: c in live <==> c in collections && !(c in registered && c !in todo && registered[c] <= now)
        invariant forall c | c in expiry && c !in todo :: Covers(heap, c, expiry[c])
        invariant forall i | 0 <= i < |heap| :: heap[i].at > now
        decreases todo
      {
        var c :| c in todo;
        todo := todo - {c};
        if registered[c] <= now {
          live, expiry, defaults := live - {c}, expiry - {c}, defaults - {c};
        } else {
          ghost var before, more := heap, [Entry(registered[c], c)];
          heap := heap + [Entry(registered[c], c)];
          assert more[0].c == c && more[0].at <= registered[c];
          forall d | d in expiry && d !in todo ensures Covers(heap, d, expiry[d]) {
            CoversConcat(before, more, d, expiry[d]);
          }
        }
      }
      assert heap + pending == heap;
    }

    /** `Db::delete_collection`, as far as expiry is concerned. */
    method Drop(c: Text)
      requires Valid()
      modifies this`live, this`expiry, this`defaults
      ensures Valid() && live == old(live) - {c} && expiry == old(expiry) - {c} && defaults == old(defaults) - {c}
    {
      live, expiry, defaults := live - {c}, expiry - {c}, defaults - {c};
    }

    /** `set_ttl_default`: zero removes the expiry, but no event tells the sweep. */
    method SetDefault(c: Text, secs: u64)
      requires Valid()
      modifies this`expiry, this`defaults
      ensures Valid()
      ensures expiry == if secs == 0 then old(expiry) - {c} else old(expiry)
      ensures defaults == if secs == 0 then old(defaults) - {c} else old(defaults)[c := secs]
    {
      if secs == 0 {
        defaults, expiry := defaults - {c}, expiry - {c};
      } else {
        defaults := defaults[c := secs];
      }
    }

    /** The expiry part of `Db::insert`: an expired registration is cleared first, and a collection
        with a default gets a new expiry, which is broadcast. */
    method Insert(c: Text, now: u64)
      requires Valid()
      modifies this`live, this`expiry, this`pending
      ensures Valid() && live == old(live) + {c}
      ensures c in defaults ==> expiry == old(expiry)[c := Deadline(now, defaults[c])]
                                && pending == old(pending) + [Entry(Deadline(now, defaults[c]), c)]
      ensures c in defaults ==>
                var ttl: nat := 1000 * (defaults[c] as nat); now + ttl < TWO_64 ==> c in expiry && expiry[c] - now == ttl
      ensures c !in defaults ==> pending == old(pending)
                                 && expiry == if c in old(expiry) && now >= old(expiry)[c] then old(expiry) - {c} else old(expiry)
    {
      ghost var all := heap + pending;
      live := live + {c};
      if c in expiry && now >= expiry[c] { expiry := expiry - {c}; }
      if c in defaults {
        var at := Deadline(now, defaults[c]);
        expiry := expiry[c := at];
        pending := pending + [Entry(at, c)];
        assert heap + pending == all + [Entry(at, c)];
        forall d | d in expiry ensures Covers(heap + pending, d, expiry[d]) {
          CoversConcat(all, [Entry(at, c)], d, expiry[d]);
          if d == c { assert [Entry(at, c)][0].at <= expiry[d]; }
        }
      }
    }

    /** Draining the events that have arrived. */
    method Drain()
      requires Valid()
      modifies this`heap, this`pending
      ensures Valid() && pending == [] && heap == old(heap) + old(pending)
    {
      while pending != []
        invariant heap + pending == old(heap) + old(pending)
        decreases |pending|
      {
        heap, pending := heap + [pending[0]], pending[1..];
      }
    }

    /** How long the sweep sleeps: never past the earliest entry it knows of. */
    method SleepFor(now: u64) returns (ms: nat)
      ensures heap == [] ==> ms == IDLE_MS
      ensures heap != [] ==> exists i :: IsLeast(heap, i) && ms == if heap[i].at <= now then 0 else heap[i].at - now
    {
      if heap == [] { return IDLE_MS; }
      ghost var least := LeastEntry(heap);
      var i :| 0 <= i < |heap| && IsLeast(heap, i);
      ms := if heap[i].at <= now then 0 else heap[i].at - now;
    }

    /** One turn of the sweep with no event arriving in between: nothing expired is left, and no
        collection with an expiry in the future is touched. */
    method Turn(now: u64)
      requires Valid()
      modifies this
      ensures Valid() && pending == []
      ensures forall c | c in expiry :: expiry[c] > now
      ensures forall c | c in old(expiry) :: c in expiry <==> old(expiry)[c] > now
      ensures forall c | c in old(expiry) && old(expiry)[c] <= now :: c !in live
      ensures forall c | c in old(expiry) && old(expiry)[c] > now :: expiry[c] == old(expiry)[c] && (c in live <==> c in old(live))
    {
      Drain();
      ghost var heap0, expiry0 := heap, expiry;
      assert heap + pending == heap;
      Evict(now);
      forall c | c in expiry0 ensures Dropped(heap0, expiry0, now, c) <==> expiry0[c] <= now {
        DroppedIffExpired(heap0, expiry0, now, c);
      }
    }

    /** The popped entry was stale: the collection is queued again under its current expiry. */
    method Requeue(i: nat, now: u64)
      requires Valid() && i < |heap| && heap[i].at <= now && heap[i].c in expiry && expiry[heap[i].c] > now
      modifies this`heap
      ensures Valid() && DueCount(heap, now) < DueCount(old(heap), now)
      ensures forall c | HasDue(heap, c, now) :: HasDue(old(heap), c, now)
      ensures forall c | HasDue(old(heap), c, now) :: HasDue(heap, c, now) || c == old(heap)[i].c
    {
      hide DueCount;
      ghost var start, renewed := heap, [Entry(expiry[heap[i].c], heap[i].c)];
      DuePopped(heap, i, now, renewed);
      heap := heap[..i] + heap[i + 1..] + [Entry(expiry[heap[i].c], heap[i].c)];
      assert heap == Without(start, i) + renewed;
      forall c, at: u64
        ensures Covers(heap + pending, c, at) <==> Covers(Without(start, i), c, at) || Covers(renewed, c, at) || Covers(pending, c, at)
        ensures Covers(start + pending, c, at) <==> Covers(start, c, at) || Covers(pending, c, at)
        ensures HasDue(heap, c, now) <==> HasDue(Without(start, i), c, now) || HasDue(renewed, c, now)
      {
        CoversConcat(heap, pending, c, at);
        CoversConcat(start, pending, c, at);
        CoversConcat(Without(start, i), renewed, c, at);
        CoversConcat(Without(start, i), renewed, c, now);
      }
      forall c ensures HasDue(Without(start, i), c, now) ==> HasDue(start, c, now)
               ensures HasDue(start, c, now) ==> HasDue(Without(start, i), c, now) || c == start[i].c
      {
        CoversWithout(start, i, c, now);
      }
      forall c | c in expiry ensures Covers(heap + pending, c, expiry[c]) {
        CoversWithout(start, i, c, expiry[c]);
        if c == start[i].c { assert renewed[0].c == c && renewed[0].at <= expiry[c]; }
      }
    }

    /** The popped entry is due and nothing says otherwise: the collection goes. */
    method PopAndDrop(i: nat, now: u64)
      requires Valid() && i < |heap| && heap[i].at <= now
      modifies this`heap, this`live, this`expiry, this`defaults
      ensures Valid() && DueCount(heap, now) < DueCount(old(heap), now)
      ensures forall c | HasDue(heap, c, now) :: HasDue(old(heap), c, now)
      ensures forall c | HasDue(old(heap), c, now) :: HasDue(heap, c, now) || c == old(heap)[i].c
      ensures live == old(live) - {old(heap)[i].c} && expiry == old(expiry) - {old(heap)[i].c}
      ensures defaults == old(defaults) - {old(heap)[i].c}
    {
      hide DueCount;
      ghost var start := heap;
      DuePopped(heap, i, now, []);
      assert Without(start, i) + [] == Without(start, i);
      var c := heap[i].c;
      Drop(c);
      heap := heap[..i] + heap[i + 1..];
      forall c ensures HasDue(heap, c, now) ==> HasDue(start, c, now)
               ensures HasDue(start, c, now) ==> HasDue(heap, c, now) || c == start[i].c
      {
        CoversWithout(start, i, c, now);
      }
      forall d | d in expiry ensures Covers(heap + pending, d, expiry[d]) {
        CoversConcat(start, pending, d, expiry[d]);
        CoversConcat(heap, pending, d, expiry[d]);
        CoversWithout(start, i, d, expiry[d]);
      }
    }

    /** One eviction round. It drops exactly the collections that have a due heap entry and no
        expiry in the future; afterwards nothing in the heap is due, and whatever is still
        registered as expired has its event on the way. */
    method Evict(now: u64)
      requires Valid()
      modifies this`heap, this`live, this`expiry, this`defaults
      ensures Valid() && forall i | 0 <= i < |heap| :: heap[i].at > now
      ensures forall c :: c in live <==> c in old(live) && !Dropped(old(heap), old(expiry), now, c)
      ensures forall c :: c in expiry <==> c in old(expiry) && !Dropped(old(heap), old(expiry), now, c)
      ensures forall c | c in expiry :: expiry[c] == old(expiry)[c]
      ensures defaults.Keys <= old(defaults).Keys
      ensures forall c | c in expiry :: expiry[c] > now || Covers(pending, c, expiry[c])
    {
      hide DueCount, Covers, HasDue, Dropped, Treated;
      ghost var start, registered, existing := heap, expiry, live;
      forall c ensures Treated(start, registered, existing, heap, expiry, live, now, c) {
        Untouched(start, registered, existing, now, c);
      }
      while true
        invariant Valid() && defaults.Keys <= old(defaults).Keys
        invariant forall c :: Treated(start, registered, existing, heap, expiry, live, now, c)
        decreases DueCount(heap, now)
      {
        if heap == [] { break; }
        ghost var least := LeastEntry(heap);
        var i :| 0 <= i < |heap| && IsLeast(heap, i);
        LeastMeans(heap, i);
        if heap[i].at > now { break; }
        ghost var before, was, there, entry := heap, expiry, live, heap[i];
        DueHere(heap, i, now);
        if heap[i].c in expiry && expiry[heap[i].c] > now {
          Requeue(i, now);
          forall c ensures Treated(start, registered, existing, heap, expiry, live, now, c) {
            TreatedByRequeue(start, registered, existing, before, heap, expiry, live, now, c, entry);
          }
        } else {
          PopAndDrop(i, now);
          forall c ensures Treated(start, registered, existing, heap, expiry, live, now, c) {
            TreatedByDrop(start, registered, existing, before, was, there, heap, expiry, live, now, c, entry);
          }
        }
      }
      forall c
        ensures c in live <==> c in existing && !Dropped(start, registered, now, c)
        ensures c in expiry <==> c in registered && !Dropped(start, registered, now, c)
        ensures c in expiry ==> expiry[c] == registered[c]
      {
        NoneDue(heap, c, now);
        TreatedFully(start, registered, existing, heap, expiry, live, now, c);
      }
      forall c | c in expiry ensures expiry[c] > now || Covers(pending, c, expiry[c]) {
        CoversConcat(heap, pending, c, expiry[c]);
        LateCover(heap, c, expiry[c], now);
      }
    }
  }

  /** Where one collection stands in the middle of a round. */
  ghost predicate Treated(start: seq<Entry>, registered: map<Text, u64>, existing: set<Text>,
                          heap: seq<Entry>, expiry: map<Text, u64>, live: set<Text>, now: u64, c: Text) {
    && (HasDue(heap, c, now) ==> HasDue(start, c, now))
    && (c in expiry ==> c in registered && expiry[c] == registered[c])
    && (c in live ==> c in existing)
    && (if Dropped(start, registered, now, c) then HasDue(heap, c, now) || (c !in live && c !in expiry)
        else (c in registered ==> c in expiry) && (c in existing ==> c in live))
  }

  lemma Untouched(start: seq<Entry>, registered: map<Text, u64>, existing: set<Text>, now: u64, c: Text)
    ensures Treated(start, registered, existing, start, registered, existing, now, c)
  {
    hide HasDue;
  }

  lemma TreatedByRequeue(start: seq<Entry>, registered: map<Text, u64>, existing: set<Text>, before: seq<Entry>,
                         heap: seq<Entry>, expiry: map<Text, u64>, live: set<Text>, now: u64, c: Text, entry: Entry)
    requires Treated(start, registered, existing, before, expiry, live, now, c)
    requires HasDue(before, entry.c, now) && entry.c in expiry && expiry[entry.c] > now
    requires HasDue(heap, c, now) ==> HasDue(before, c, now)
    requires HasDue(before, c, now) ==> HasDue(heap, c, now) || c == entry.c
    ensures Treated(start, registered, existing, heap, expiry, live, now, c)
  {
    hide HasDue;
  }

  lemma TreatedByDrop(start: seq<Entry>, registered: map<Text, u64>, existing: set<Text>, before: seq<Entry>, was: map<Text, u64>,
                      there: set<Text>, heap: seq<Entry>, expiry: map<Text, u64>, live: set<Text>, now: u64, c: Text, entry: Entry)
    requires Treated(start, registered, existing, before, was, there, now, c)
    requires HasDue(before, entry.c, now) && !(entry.c in was && was[entry.c] > now)
    requires HasDue(heap, c, now) ==> HasDue(before, c, now)
    requires HasDue(before, c, now) ==> HasDue(heap, c, now) || c == entry.c
    requires live == there - {entry.c} && expiry == was - {entry.c}
    ensures Treated(start, registered, existing, heap, expiry, live, now, c)
  {
    hide HasDue;
  }

  lemma TreatedFully(start: seq<Entry>, registered: map<Text, u64>, existing: set<Text>,
                     heap: seq<Entry>, expiry: map<Text, u64>, live: set<Text>, now: u64, c: Text)
    requires Treated(start, registered, existing, heap, expiry, live, now, c) && !HasDue(heap, c, now)
    ensures c in live <==> c in existing && !Dropped(start, registered, now, c)
    ensures c in expiry <==> c in registered && !Dropped(start, registered, now, c)
    ensures c in expiry ==> expiry[c] == registered[c]
  {
    hide HasDue;
  }

  lemma LeastMeans(heap: seq<Entry>, i: int)
    requires IsLeast(heap, i)
    ensures 0 <= i < |heap| && forall j | 0 <= j < |heap| :: heap[i].at <= heap[j].at
  {
  }

  lemma DueHere(heap: seq<Entry>, i: nat, now: u64)
    requires i < |heap| && heap[i].at <= now
    ensures HasDue(heap, heap[i].c, now)
  {
  }

  lemma NoneDue(heap: seq<Entry>, c: Text, now: u64)
    requires forall i | 0 <= i < |heap| :: heap[i].at > now
    ensures !HasDue(heap, c, now)
  {
  }

  lemma LateCover(heap: seq<Entry>, c: Text, at: u64, now: u64)
    requires forall i | 0 <= i < |heap| :: heap[i].at > now
    ensures Covers(heap, c, at) ==> at > now
  {
  }

  /** Among registered collections, exactly the expired ones are dropped. */
  lemma DroppedIffExpired(heap: seq<Entry>, expiry: map<Text, u64>, now: u64, c: Text)
    requires c in expiry && Covers(heap, c, expiry[c])
    ensures Dropped(heap, expiry, now, c) <==> expiry[c] <= now
  {
    var i :| 0 <= i < |heap| && heap[i].c == c && heap[i].at <= expiry[c];
  }

  /** A collection lives exactly its time: written at `now` with a TTL of `secs` seconds, it is there
      after a turn of the sweep at time `t` if and only if fewer than `secs` seconds have passed. */
  method LivesItsTime(sweep: Sweep, c: Text, secs: u64, now: u64, t: u64)
    requires sweep.Valid() && secs > 0 && now + 1000 * secs < TWO_64
    modifies sweep
    ensures sweep.Valid() && (c in sweep.live <==> t < now + 1000 * secs)
  {
    sweep.SetDefault(c, secs);
    sweep.Insert(c, now);
    sweep.Turn(t);
  }

  /** A later write puts the end off: what counts is the last write. */
  method WritesProlong(sweep: Sweep, c: Text, secs: u64, now: u64, later: u64, t: u64)
    requires sweep.Valid() && secs > 0 && now <= later && later + 1000 * secs < TWO_64
    modifies sweep
    ensures sweep.Valid() && (c in sweep.live <==> t < later + 1000 * secs)
  {
    sweep.SetDefault(c, secs);
    sweep.Insert(c, now);
    sweep.Drain();
    sweep.Insert(c, later);
    sweep.Turn(t);
  }

  /** Removing a collection's TTL does not save it: the entry already on the heap still fires. */
  method RemovedTtlStillDrops(c: Text) returns (sweep: Sweep)
    ensures c !in sweep.defaults && c !in sweep.expiry && c !in sweep.live
  {
    sweep := new Sweep({c}, map[], map[], 0);
    sweep.SetDefault(c, 1);
    sweep.Insert(c, 0);
    sweep.Drain();
    sweep.SetDefault(c, 0);
    ghost var n := |sweep.heap|;
    assert sweep.heap[n - 1] == Entry(1000, c);
    DueHere(sweep.heap, n - 1, 1000);
    assert Dropped(sweep.heap, sweep.expiry, 1000, c);
    sweep.Evict(1000);
  }

  /** A due entry and no expiry in the future. */
  predicate Dropped(heap: seq<Entry>, expiry: map<Text, u64>, now: u64, c: Text) {
    HasDue(heap, c, now) && !(c in expiry && expiry[c] > now)
  }
}
