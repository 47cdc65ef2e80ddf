/** The version chain along whole runs, restarts included: from its creation to its deletion the
    decoded `_v` of a document counts the writes to it, and `_createdAt` and `_seq` stay. */
module Lifetimes {
  import opened Bytes
  import opened Json
  import opened LogCodec
  import opened Replay
  import opened Documents
  import opened Engine
  import opened Runs
  import opened Durability
  import opened Invariants
  import opened Versions
  import opened Recovery

  /** Number of times the operations from position `j` on store the document. */
  ghost function PutsSince(ops: seq<Op>, accepts: Schema, j: nat, c: Text, k: Text): nat
    decreases |ops|
  {
    if j >= |ops| then 0
    else PutsSince(ops[..|ops| - 1], accepts, j, c, k) + OpPuts(After(ops[..|ops| - 1], accepts).ram, ops[|ops| - 1], accepts, c, k)
  }

  ghost function OpPuts(ram: Ram, op: Op, accepts: Schema, c: Text, k: Text): nat {
    if op.Compact? || op.Crash? then 0
    else match Transaction(ram, op, accepts) case None => 0 case Some(x) => Puts(x.body, c, k)
  }

  /** The last operation of a run does not remove the document: it is not a delete or drop that names
      it, updates are objects, and a restart finds the whole log of a settled run. */
  ghost predicate SparingOp(init: seq<Op>, op: Op, accepts: Schema, c: Text, k: Text) {
    if op.Compact? then true
    else if op.Crash? then op.kept == |After(init, accepts).disk.log| && Settled(init, accepts)
    else
      (op.Update? ==> op.updates.Obj?)
      && match Transaction(After(init, accepts).ram, op, accepts) case None => true case Some(x) => Spares(x.body, c, k)
  }

  ghost predicate SparesSince(ops: seq<Op>, accepts: Schema, j: nat, c: Text, k: Text)
    decreases |ops|
  {
    j >= |ops| ||
    (SparesSince(ops[..|ops| - 1], accepts, j, c, k) && SparingOp(ops[..|ops| - 1], ops[|ops| - 1], accepts, c, k))
  }

  lemma SparingStep(init: seq<Op>, op: Op, accepts: Schema, c: Text, k: Text)
    requires RunOk(init, accepts) && StepOk(After(init, accepts), op, accepts) && SparingOp(init, op, accepts, c, k)
    ensures var s := After(init, accepts);
            Advanced(s.ram.docs, Step(s, op, accepts).ram.docs, c, k, OpPuts(s.ram, op, accepts, c, k))
  {
    var s := After(init, accepts);
    if op.Compact? {
      hide Advanced, SnapshotOf, Loggable, After;
      AdvancedSame(s.ram.docs, s.ram.docs, c, k);
    } else if op.Crash? {
      hide Advanced, After, Step, Settled, StepOk;
      CleanReopen(init, accepts, c, k);
    } else {
      hide Settled, After;
      SparingWrite(init, op, accepts, c, k);
    }
  }

  /** Reopening with the whole log leaves the document as it was. */
  lemma CleanReopen(init: seq<Op>, accepts: Schema, c: Text, k: Text)
    requires RunOk(init, accepts) && Settled(init, accepts)
    ensures var s := After(init, accepts);
            Advanced(s.ram.docs, Step(s, Crash(|s.disk.log|), accepts).ram.docs, c, k, 0)
  {
    hide Advanced, After, Settled, RunOk, DocAt, Readable;
    LiveEqualsReplay(init, accepts);
    var s := After(init, accepts);
    AdvancedSame(s.ram.docs, Step(s, Crash(|s.disk.log|), accepts).ram.docs, c, k);
  }

  lemma SparingWrite(init: seq<Op>, op: Op, accepts: Schema, c: Text, k: Text)
    requires !op.Compact? && !op.Crash?
    requires RunOk(init, accepts) && StepOk(After(init, accepts), op, accepts) && SparingOp(init, op, accepts, c, k)
    ensures var s := After(init, accepts);
            Advanced(s.ram.docs, Step(s, op, accepts).ram.docs, c, k, OpPuts(s.ram, op, accepts, c, k))
  {
    hide Advanced, Inv, Transaction, Bracket, Loggable, GoodItems, KeepsIdentity, Spares, Puts, RunOk, After;
    var s := After(init, accepts);
    RunInvariant(init, accepts);
    StepWrites(s, op, accepts);
    var x := Transaction(s.ram, op, accepts);
    if x.Some? {
      var seg := Bracket(op.c, op.tx, op.t, x.value.body, x.value.committed);
      LoggedBodyStorable(s.disk.log, seg, op.c, op.tx, op.t, x.value.body, x.value.committed);
      TransactionAdvances(s.ram, op, accepts, c, k);
    } else {
      AdvancedSame(s.ram.docs, s.ram.docs, c, k);
    }
  }

  /** Over any stretch of a run that does not remove the document, `_v` counts the writes and
      `_createdAt` and `_seq` do not move, through every compaction and clean reopen. A document that
      did not exist starts at `_v` = 0 + 1. */
  lemma {:induction false} VersionChain(ops: seq<Op>, accepts: Schema, j: nat, c: Text, k: Text)
    requires RunOk(ops, accepts) && j <= |ops| && SparesSince(ops, accepts, j, c, k)
    ensures Advanced(After(ops[..j], accepts).ram.docs, After(ops, accepts).ram.docs, c, k, PutsSince(ops, accepts, j, c, k))
    decreases |ops|
  {
    hide Advanced, StepOk, Step, OpPuts, SparingOp, DocAt;
    if j == |ops| {
      assert ops[..j] == ops;
      AdvancedSame(After(ops, accepts).ram.docs, After(ops, accepts).ram.docs, c, k);
    } else {
      var init, op := ops[..|ops| - 1], ops[|ops| - 1];
      assert init[..j] == ops[..j];
      VersionChain(init, accepts, j, c, k);
      SparingStep(init, op, accepts, c, k);
      AdvancedTransitive(After(ops[..j], accepts).ram.docs, After(init, accepts).ram.docs, After(ops, accepts).ram.docs,
                         c, k, PutsSince(init, accepts, j, c, k), OpPuts(After(init, accepts).ram, op, accepts, c, k));
    }
  }

  /** A crash that keeps only part of the log puts every document back to where it stood after some
      prefix of the run. */
  lemma CrashGoesBack(init: seq<Op>, accepts: Schema, kept: nat, c: Text, k: Text) returns (j: nat)
    requires RunOk(init, accepts) && kept <= |After(init, accepts).disk.log|
    ensures j <= |init|
    ensures Settled(init[..j], accepts) ==>
              Advanced(After(init[..j], accepts).ram.docs, Step(After(init, accepts), Crash(kept), accepts).ram.docs, c, k, 0)
    ensures forall i | j < i <= |init| && Grows(init, i) :: kept < |After(init[..i], accepts).disk.log|
  {
    hide Advanced, After, Settled, RunOk, DocAt, Readable, Grows;
    j := CrashAtomicity(init, accepts, kept);
    PrefixOk(init, accepts, j);
    if Settled(init[..j], accepts) {
      LiveEqualsReplay(init[..j], accepts);
      AdvancedSame(After(init[..j], accepts).ram.docs, Step(After(init, accepts), Crash(kept), accepts).ram.docs, c, k);
    }
  }

  /** The chain across a crash at position `m`: it continues from the prefix the crash went back to,
      so `_v` counts the writes that survived and the writes made since. */
  lemma ChainAcrossCrash(ops: seq<Op>, accepts: Schema, i: nat, m: nat, c: Text, k: Text) returns (j: nat)
    requires RunOk(ops, accepts) && i <= m < |ops| && ops[m].Crash? && SparesSince(ops, accepts, m + 1, c, k)
    ensures j <= m
    ensures i <= j && SparesSince(ops[..j], accepts, i, c, k) && Settled(ops[..j], accepts) ==>
              Advanced(After(ops[..i], accepts).ram.docs, After(ops, accepts).ram.docs, c, k,
                       PutsSince(ops[..j], accepts, i, c, k) + PutsSince(ops, accepts, m + 1, c, k))
    ensures forall p | j < p <= m && Grows(ops[..m], p) :: ops[m].kept < |After(ops[..p], accepts).disk.log|
  {
    hide Advanced, Settled, DocAt, Grows, SparesSince, PutsSince, StepOk, Step, RunOk;
    var init := ops[..m];
    PrefixOk(ops, accepts, m);
    CrashAt(ops, accepts, m);
    j := CrashGoesBack(init, accepts, ops[m].kept, c, k);
    assert init[..j] == ops[..j];
    forall p | j < p <= m && Grows(ops[..m], p) ensures ops[m].kept < |After(ops[..p], accepts).disk.log| {
      assert init[..p] == ops[..p];
    }
    if i <= j && SparesSince(ops[..j], accepts, i, c, k) && Settled(ops[..j], accepts) {
      PrefixOk(ops, accepts, j);
      assert ops[..j][..i] == ops[..i];
      VersionChain(ops[..j], accepts, i, c, k);
      VersionChain(ops, accepts, m + 1, c, k);
      var a, b, d := After(ops[..i], accepts).ram.docs, After(ops[..j], accepts).ram.docs, After(ops[..m + 1], accepts).ram.docs;
      AdvancedTransitive(a, b, d, c, k, PutsSince(ops[..j], accepts, i, c, k), 0);
      AdvancedTransitive(a, d, After(ops, accepts).ram.docs, c, k,
                         PutsSince(ops[..j], accepts, i, c, k), PutsSince(ops, accepts, m + 1, c, k));
    }
  }

  lemma CrashAt(ops: seq<Op>, accepts: Schema, m: nat)
    requires RunOk(ops, accepts) && m < |ops| && ops[m].Crash?
    ensures ops[m].kept <= |After(ops[..m], accepts).disk.log|
    ensures After(ops[..m + 1], accepts) == Step(After(ops[..m], accepts), ops[m], accepts)
  {
    hide Step, StepOk;
    PrefixOk(ops, accepts, m + 1);
    assert ops[..m + 1][..m] == ops[..m];
    CrashKept(After(ops[..m], accepts), ops[m], accepts);
  }
}
