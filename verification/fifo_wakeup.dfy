/** Notifications: no wake-up is lost, no deadlock, and what a kill guarantees. */
module FifoWakeup {
  import opened Ring
  import opened FifoModel

  /** The triggers leave room for each other, as both trigger calls try to ensure. */
  predicate TriggersFit(f: State) {
    f.readTrigger + f.writeTrigger <= f.size
  }

  /** A trigger is only raised, and not beyond what its 32-bit overlap test can judge. */
  predicate Careful(f: State, op: Op) {
    match op
    case SetReadTriggerOp(t) => Trigger(t) >= f.readTrigger && Trigger(t) + f.writeTrigger < WORD
    case SetWriteTriggerOp(t) => Trigger(t) >= f.writeTrigger && Trigger(t) + f.readTrigger < WORD
    case _ => true
  }

  ghost predicate CarefulStep(f: State, g: State)
    requires |f.cells| == f.size > 0
  {
    exists op :: Enabled(f, op) && Careful(f, op) && g == Apply(f, op)
  }

  /** A run from a new fifo in which triggers are only raised. */
  ghost predicate CarefulRun(fs: seq<State>, size: nat) {
    && Run(fs) && |fs| > 0 && fs[0] == New(size)
    && forall k | 0 <= k < |fs| - 1 :: CarefulStep(fs[k], fs[k + 1])
  }

  predicate NothingLocked(f: State) {
    f.rb == f.re && f.wb == f.we
  }

  /** Neither side will ever be told to go on. */
  predicate Deadlocked(f: State) {
    NothingLocked(f) && f.readFd == 0 && f.writeFd == 0
  }

  lemma CarefulKeeps(f: State, op: Op)
    requires Inv(f) && Awake(f) && Enabled(f, op) && Careful(f, op)
    ensures Inv(Apply(f, op)) && Awake(Apply(f, op))
    ensures f.size >= 2 && TriggersFit(f) ==> TriggersFit(Apply(f, op))
  {
    ApplyKeeps(f, op);
    hide Slot, Sum, Peek, Oldest, Stored;
  }

  /** No wake-up is lost: all along a run, a side with at least its trigger of bytes at hand has a
      positive notification counter. */
  lemma {:induction false} NoLostWakeup(fs: seq<State>, size: nat, k: nat)
    requires 0 < size <= HALF_WORD && CarefulRun(fs, size) && k < |fs|
    ensures Inv(fs[k]) && Awake(fs[k]) && fs[k].size == size
    ensures size >= 2 ==> TriggersFit(fs[k])
  {
    if k == 0 {
      NewInv(size);
    } else {
      NoLostWakeup(fs, size, k - 1);
      hide Inv, Awake, TriggersFit, Apply, Enabled, Careful;
      assert CarefulStep(fs[k - 1], fs[k - 1 + 1]);
      var op :| Enabled(fs[k - 1], op) && Careful(fs[k - 1], op) && fs[k] == Apply(fs[k - 1], op);
      CarefulKeeps(fs[k - 1], op);
    }
  }

  /** Along such a run an ack tells the truth: behind it the counter is positive exactly if the side has
      its trigger of bytes at hand or the fifo is dead. */
  lemma AckTellsTruth(fs: seq<State>, size: nat, k: nat)
    requires 0 < size <= HALF_WORD && CarefulRun(fs, size) && k < |fs|
    ensures AckRead(fs[k]).readFd > 0 <==> fs[k].ReadAvail() >= fs[k].readTrigger || fs[k].dead
    ensures AckWrite(fs[k]).writeFd > 0 <==> fs[k].WriteAvail() >= fs[k].writeTrigger || fs[k].dead
  {
    NoLostWakeup(fs, size, k);
    hide CarefulRun, Inv;
  }

  /** An unlock that succeeds notifies the other side exactly if that side then has its trigger of bytes
      at hand. */
  lemma UnlockNotifies(f: State, i: nat)
    requires |f.cells| == f.size > 0
    ensures i < |f.readSizes| && Oldest(f.readSizes, i) ==>
              var g := UnlockRead(f, i); g.writeFd > f.writeFd <==> g.WriteAvail() >= f.writeTrigger
    ensures i < |f.writeSizes| && Oldest(f.writeSizes, i) ==>
              var g := UnlockWrite(f, i); g.readFd > f.readFd <==> g.ReadAvail() >= f.readTrigger
  {
    hide Oldest, Peek;
  }

  /** With nothing locked, the two sides together have all but one cell at hand, so one of them
      reaches its trigger. */
  lemma OneSideReady(f: State)
    requires Inv(f) && Awake(f) && TriggersFit(f) && NothingLocked(f)
    ensures f.readFd > 0 || f.writeFd > 0
  {
    assert f.ReadAvail() + f.WriteAvail() == f.size - 1;
  }

  lemma RunNeverDeadlocks(fs: seq<State>, size: nat)
    requires 2 <= size <= HALF_WORD && CarefulRun(fs, size)
    ensures !Deadlocked(fs[|fs| - 1])
  {
    NoLostWakeup(fs, size, |fs| - 1);
    hide CarefulRun;
    if Deadlocked(fs[|fs| - 1]) {
      OneSideReady(fs[|fs| - 1]);
    }
  }

  lemma TinyDeadlock(size: nat) returns (fs: seq<State>)
    requires size == 1
    ensures CarefulRun(fs, size) && Deadlocked(fs[|fs| - 1])
  {
    var f := New(size);
    assert Enabled(f, AckWriteOp) && Careful(f, AckWriteOp);
    fs := [f, Apply(f, AckWriteOp)];
    assert Step(f, fs[1]) && CarefulStep(f, fs[1]);
  }

  /** A run can end in a deadlock if and only if the ring has a single cell. */
  lemma DeadlockOnlyWhenTiny(size: nat)
    requires 0 < size <= HALF_WORD
    ensures (exists fs :: CarefulRun(fs, size) && Deadlocked(fs[|fs| - 1])) <==> size == 1
  {
    if size == 1 {
      var fs := TinyDeadlock(size);
    } else {
      forall fs | CarefulRun(fs, size) ensures !Deadlocked(fs[|fs| - 1]) {
        RunNeverDeadlocks(fs, size);
      }
    }
  }

  /** The overlap test of the trigger calls does its job exactly as long as its sum does not wrap
      around the 32-bit word. */
  lemma TriggerTestExact(t: nat, other: nat, size: nat)
    requires t < WORD && other > 0 && 0 < size <= HALF_WORD && TriggerOk(t, other, size)
    ensures Trigger(t) + other < size <==> Trigger(t) + other < WORD
  {
  }

  // Accepted pairs of triggers ------------------------------------------------------------------

  /** A new fifo with its read trigger set to `r` and then its write trigger to `w`, or the other way
      round. */
  function Configured(size: nat, r: nat, w: nat, readFirst: bool): State {
    if readFirst then SetWriteTrigger(SetReadTrigger(New(size), r), w)
    else SetReadTrigger(SetWriteTrigger(New(size), w), r)
  }

  /** Both calls are accepted. */
  predicate Accepted(size: nat, r: nat, w: nat, readFirst: bool) {
    if readFirst then TriggerOk(r, 1, size) && TriggerOk(w, Trigger(r), size)
    else TriggerOk(w, 1, size) && TriggerOk(r, Trigger(w), size)
  }

  /** A run of a configured fifo in which the triggers stay as they are. */
  ghost predicate ConfiguredRun(fs: seq<State>, size: nat, r: nat, w: nat, readFirst: bool) {
    && Run(fs) && |fs| >= 3 && fs[0] == New(size) && fs[2] == Configured(size, r, w, readFirst)
    && forall k | 2 <= k < |fs| :: fs[k].readTrigger == Trigger(r) && fs[k].writeTrigger == Trigger(w)
  }

  /** The two trigger calls as the start of a run. */
  lemma ConfiguredStart(size: nat, r: nat, w: nat, readFirst: bool) returns (fs: seq<State>)
    requires 0 < size <= HALF_WORD && r < WORD && w < WORD && Accepted(size, r, w, readFirst)
    ensures |fs| == 3 && ConfiguredRun(fs, size, r, w, readFirst)
    ensures fs[2] == New(size).(readTrigger := Trigger(r), writeTrigger := Trigger(w))
  {
    hide TriggerOk;
    var f := New(size);
    var first := if readFirst then SetReadTriggerOp(r) else SetWriteTriggerOp(w);
    var second := if readFirst then SetWriteTriggerOp(w) else SetReadTriggerOp(r);
    var g := Apply(f, first);
    assert Enabled(f, first) && Enabled(g, second);
    fs := [f, g, Apply(g, second)];
    assert Step(f, g) && Step(g, fs[2]);
  }

  /** A sum that wraps around leaves one of the triggers out of reach of the whole ring. */
  lemma WrappedOutOfReach(size: nat, r: nat, w: nat)
    requires size <= HALF_WORD && Trigger(r) + Trigger(w) >= WORD
    ensures Trigger(r) >= size || Trigger(w) >= size
  {
  }

  lemma Appended(fs: seq<State>, op: Op, size: nat, r: nat, w: nat, readFirst: bool)
    requires ConfiguredRun(fs, size, r, w, readFirst) && Enabled(fs[|fs| - 1], op)
    requires var g := Apply(fs[|fs| - 1], op);
             g.readTrigger == Trigger(r) && g.writeTrigger == Trigger(w) && |g.cells| == g.size > 0
    ensures ConfiguredRun(fs + [Apply(fs[|fs| - 1], op)], size, r, w, readFirst)
  {
    hide Apply, Enabled, Configured, Trigger;
    var g := Apply(fs[|fs| - 1], op);
    var gs := fs + [g];
    assert Step(fs[|fs| - 1], g);
    forall k | 0 <= k < |gs| - 1 ensures Step(gs[k], gs[k + 1]) {
      if k < |fs| - 1 {
        assert gs[k] == fs[k] && gs[k + 1] == fs[k + 1];
      } else {
        assert gs[k] == fs[|fs| - 1];
      }
    }
  }

  /** Any accepted pair whose sum wraps around stalls the fifo: at once if the write trigger is out of
      reach, else once the ring has been filled. */
  lemma WrappedTriggersDeadlock(size: nat, r: nat, w: nat, readFirst: bool) returns (fs: seq<State>)
    requires 0 < size <= HALF_WORD && r < WORD && w < WORD && Accepted(size, r, w, readFirst)
    requires Trigger(r) + Trigger(w) >= WORD
    ensures ConfiguredRun(fs, size, r, w, readFirst) && Deadlocked(fs[|fs| - 1])
  {
    fs := ConfiguredStart(size, r, w, readFirst);
    WrappedOutOfReach(size, r, w);
    hide Configured, ConfiguredRun, Accepted, Trigger, Slot;
    if Trigger(w) < size {
      var f := fs[2];
      Appended(fs, LockWriteOp(size - 1), size, r, w, readFirst);
      fs := fs + [Apply(f, LockWriteOp(size - 1))];
      assert Oldest(fs[3].writeSizes, 0);
      Appended(fs, UnlockWriteOp(0), size, r, w, readFirst);
      fs := fs + [Apply(fs[3], UnlockWriteOp(0))];
    }
    var f := fs[|fs| - 1];
    Appended(fs, AckWriteOp, size, r, w, readFirst);
    fs := fs + [Apply(f, AckWriteOp)];
  }

  /** Every fifo of more than two bytes accepts such a pair, in either order. */
  lemma WrappingPairAccepted(size: nat, readFirst: bool)
    requires 2 < size <= HALF_WORD
    ensures Accepted(size, 1, WORD - 1, readFirst) && Trigger(1) + Trigger(WORD - 1) >= WORD
    ensures Accepted(size, WORD - 1, 1, readFirst)
  {
  }

  /** So in every fifo of more than two bytes, trigger calls that all succeed can lead to a deadlock. */
  lemma AcceptedTriggersCanDeadlock(size: nat, readFirst: bool) returns (fs: seq<State>)
    requires 2 < size <= HALF_WORD
    ensures ConfiguredRun(fs, size, 1, WORD - 1, readFirst) && Deadlocked(fs[|fs| - 1])
  {
    WrappingPairAccepted(size, readFirst);
    hide Accepted, ConfiguredRun, Deadlocked;
    fs := WrappedTriggersDeadlock(size, 1, WORD - 1, readFirst);
  }

  /** With triggers that fit, no operation that leaves them as they are loses a wake-up. */
  lemma FittingStepKeeps(f: State, op: Op)
    requires Inv(f) && Awake(f) && TriggersFit(f) && Enabled(f, op)
    requires Apply(f, op).readTrigger == f.readTrigger && Apply(f, op).writeTrigger == f.writeTrigger
    ensures Inv(Apply(f, op)) && Awake(Apply(f, op)) && TriggersFit(Apply(f, op))
  {
    ApplyKeeps(f, op);
    hide Slot, Sum, Peek, Oldest, Stored;
  }

  lemma ConfiguredAwake(size: nat, r: nat, w: nat, readFirst: bool)
    requires 0 < size <= HALF_WORD && r < WORD && w < WORD && Accepted(size, r, w, readFirst)
    requires Trigger(r) + Trigger(w) < WORD
    ensures var f := Configured(size, r, w, readFirst); Inv(f) && Awake(f) && TriggersFit(f)
  {
    NewInv(size);
    hide Stored, Sum, Slot;
    var f := Configured(size, r, w, readFirst);
    assert f == New(size).(readTrigger := Trigger(r), writeTrigger := Trigger(w));
    SameDataKeeps(New(size), f);
  }

  lemma {:induction false} FittingNeverDeadlocks(fs: seq<State>, size: nat, r: nat, w: nat, readFirst: bool, k: nat)
    requires 0 < size <= HALF_WORD && r < WORD && w < WORD && Accepted(size, r, w, readFirst)
    requires Trigger(r) + Trigger(w) < WORD && ConfiguredRun(fs, size, r, w, readFirst) && 2 <= k < |fs|
    ensures Inv(fs[k]) && Awake(fs[k]) && TriggersFit(fs[k])
  {
    hide Inv, Awake, TriggersFit, Apply, Enabled, Configured, Accepted, Trigger;
    if k == 2 {
      ConfiguredAwake(size, r, w, readFirst);
    } else {
      FittingNeverDeadlocks(fs, size, r, w, readFirst, k - 1);
      assert Step(fs[k - 1], fs[k - 1 + 1]);
      var op :| Enabled(fs[k - 1], op) && fs[k] == Apply(fs[k - 1], op);
      FittingStepKeeps(fs[k - 1], op);
    }
  }

  /** For any two trigger values that a fifo of any size accepts, in either order: with these triggers
      it can deadlock if and only if their sum wraps around the 32-bit word. */
  lemma AcceptedPairDeadlocks(size: nat, r: nat, w: nat, readFirst: bool)
    requires 0 < size <= HALF_WORD && r < WORD && w < WORD && Accepted(size, r, w, readFirst)
    ensures (exists fs :: ConfiguredRun(fs, size, r, w, readFirst) && Deadlocked(fs[|fs| - 1]))
            <==> Trigger(r) + Trigger(w) >= WORD
  {
    hide Accepted, Trigger, Configured;
    if Trigger(r) + Trigger(w) >= WORD {
      var fs := WrappedTriggersDeadlock(size, r, w, readFirst);
    } else {
      forall fs | ConfiguredRun(fs, size, r, w, readFirst) ensures !Deadlocked(fs[|fs| - 1]) {
        FittingNeverDeadlocks(fs, size, r, w, readFirst, |fs| - 1);
        if Deadlocked(fs[|fs| - 1]) {
          OneSideReady(fs[|fs| - 1]);
        }
      }
    }
  }

  /** Lowering an accepted read trigger can lose a wake-up, whatever the old and the new value: the
      bytes that now suffice arrived before without a notification. */
  lemma LoweringLosesWakeup(size: nat, high: nat, low: nat) returns (fs: seq<State>)
    requires size <= HALF_WORD && 0 < low < high && high + 1 < size
    ensures Run(fs) && |fs| > 0 && fs[0] == New(size)
    ensures var f := fs[|fs| - 1]; f.readTrigger == low && f.ReadAvail() == low && f.readFd == 0
  {
    var f := New(size);
    var f1 := Apply(f, SetReadTriggerOp(high));
    assert f1.readTrigger == high;
    var f2 := Apply(f1, LockWriteOp(low));
    var f3 := Apply(f2, UnlockWriteOp(0));
    assert Oldest(f2.writeSizes, 0);
    assert f3.readFd == 0 && f3.ReadAvail() == low;
    fs := [f, f1, f2, f3, Apply(f3, SetReadTriggerOp(low))];
    assert Enabled(f, SetReadTriggerOp(high)) && Enabled(f1, LockWriteOp(low)) && Enabled(f2, UnlockWriteOp(0))
           && Enabled(f3, SetReadTriggerOp(low));
    assert Step(f, f1) && Step(f1, f2) && Step(f2, f3) && Step(f3, fs[4]);
  }

  /** The same for the write trigger: the room that now suffices was acknowledged as too little. */
  lemma LoweringLosesWriter(size: nat, high: nat, low: nat) returns (fs: seq<State>)
    requires size <= HALF_WORD && 0 < low < high && high + 1 < size
    ensures Run(fs) && |fs| > 0 && fs[0] == New(size)
    ensures var f := fs[|fs| - 1]; f.writeTrigger == low && f.WriteAvail() == low && f.writeFd == 0
  {
    var f := New(size);
    var f1 := Apply(f, SetWriteTriggerOp(high));
    assert f1.writeTrigger == high;
    var f2 := Apply(f1, LockWriteOp(size - 1 - low));
    var f3 := Apply(f2, AckWriteOp);
    assert f3.writeFd == 0 && f3.WriteAvail() == low;
    fs := [f, f1, f2, f3, Apply(f3, SetWriteTriggerOp(low))];
    assert Enabled(f, SetWriteTriggerOp(high)) && Enabled(f1, LockWriteOp(size - 1 - low)) && Enabled(f2, AckWriteOp)
           && Enabled(f3, SetWriteTriggerOp(low));
    assert Step(f, f1) && Step(f1, f2) && Step(f2, f3) && Step(f3, fs[4]);
  }

  /** After a kill both counters stay positive in every later state of any run, so that no wait on
      either side blocks, and no ack clears them. */
  lemma {:induction false} KillIsPermanent(fs: seq<State>, k: nat)
    requires Run(fs) && k < |fs| && fs[0].dead && fs[0].readFd > 0 && fs[0].writeFd > 0
    ensures fs[k].dead && fs[k].readFd > 0 && fs[k].writeFd > 0
    ensures AckRead(fs[k]) == fs[k] && AckWrite(fs[k]) == fs[k]
  {
    if k > 0 {
      KillIsPermanent(fs, k - 1);
      assert Step(fs[k - 1], fs[k - 1 + 1]);
    }
  }

  /** A fifo can be dead with any number of bytes at hand, and the rest of it writable. Calls for up to
      that many bytes are then served in full, others are cut short. */
  lemma KilledWithBytes(size: nat, n: nat) returns (fs: seq<State>)
    requires n < size <= HALF_WORD
    ensures Run(fs) && |fs| > 0 && fs[0] == New(size)
    ensures var f := fs[|fs| - 1];
            && f.dead && NothingLocked(f) && f.readSizes == [] && f.writeSizes == []
            && f.ReadAvail() == n && f.WriteAvail() == size - 1 - n
  {
    var f := New(size);
    var f1 := Apply(f, LockWriteOp(n));
    var f2 := Apply(f1, UnlockWriteOp(0));
    assert Oldest(f1.writeSizes, 0);
    fs := [f, f1, f2, Apply(f2, KillOp)];
    assert Enabled(f, LockWriteOp(n)) && Enabled(f1, UnlockWriteOp(0)) && Enabled(f2, KillOp);
    assert Step(f, f1) && Step(f1, f2) && Step(f2, fs[3]);
  }
}
