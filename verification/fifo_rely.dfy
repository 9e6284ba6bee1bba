/** What one side of a fifo can rely on while the other side runs. */
module FifoRely {
  import opened FifoModel

  /** The operations of the reading side, of a kill and of the trigger calls. */
  predicate ReaderOp(op: Op) {
    op.LockReadOp? || op.UnlockReadOp? || op.AckReadOp? || op.KillOp? || op.SetReadTriggerOp? || op.SetWriteTriggerOp?
  }

  /** The operations of the writing side, of a kill and of the trigger calls. */
  predicate WriterOp(op: Op) {
    op.LockWriteOp? || op.StoreOp? || op.UnlockWriteOp? || op.AckWriteOp? || op.KillOp? || op.SetReadTriggerOp?
    || op.SetWriteTriggerOp?
  }

  /** As seen by the writer, the reading side only makes room: it stores nothing, leaves the write
      regions and the committed bytes alone, and raises the writer's counter only when there is
      room or the fifo is dead. */
  ghost predicate ReaderRely(f: State, g: State) {
    && Inv(g) && g.size == f.size
    && g.wb == f.wb && g.we == f.we && g.writeSizes == f.writeSizes
    && g.cells == f.cells && g.log == f.log
    && f.rb <= g.rb
    && f.writeFd <= g.writeFd
    && (f.dead ==> g.dead)
    && (g.writeFd > f.writeFd ==> g.WriteAvail() > 0 || g.dead)
  }

  /** As seen by the reader, the writing side only appends. */
  ghost predicate WriterRely(f: State, g: State) {
    && Inv(g) && g.size == f.size
    && g.rb == f.rb && g.re == f.re && g.readSizes == f.readSizes
    && f.wb <= g.wb && f.log <= g.log
    && f.readFd <= g.readFd
    && (f.dead ==> g.dead)
    && (g.readFd > f.readFd ==> g.ReadAvail() > 0 || g.dead)
  }

  lemma ReaderOpRely(f: State, op: Op)
    requires Inv(f) && Enabled(f, op) && ReaderOp(op)
    ensures ReaderRely(f, Apply(f, op))
  {
    ApplyKeeps(f, op);
  }

  lemma WriterOpRely(f: State, op: Op)
    requires Inv(f) && Enabled(f, op) && WriterOp(op)
    ensures WriterRely(f, Apply(f, op))
  {
    ApplyKeeps(f, op);
  }

  /** A run in which only operations of one kind occur. */
  ghost predicate SideRun(fs: seq<State>, side: Op -> bool) {
    && Run(fs) && |fs| > 0
    && forall k | 0 <= k < |fs| - 1 :: SideStep(fs[k], fs[k + 1], side)
  }

  ghost predicate SideStep(f: State, g: State, side: Op -> bool)
    requires |f.cells| == f.size > 0
  {
    exists op :: side(op) && Enabled(f, op) && g == Apply(f, op)
  }

  /** Whatever the reading side does, and for however long, the writer can rely on `ReaderRely`. */
  lemma {:induction false} ReaderRunRely(fs: seq<State>, k: nat)
    requires SideRun(fs, ReaderOp) && Inv(fs[0]) && k < |fs|
    ensures ReaderRely(fs[0], fs[k])
  {
    if k > 0 {
      ReaderRunRely(fs, k - 1);
      assert SideStep(fs[k - 1], fs[k - 1 + 1], ReaderOp);
      var op :| ReaderOp(op) && Enabled(fs[k - 1], op) && fs[k] == Apply(fs[k - 1], op);
      ReaderOpRely(fs[k - 1], op);
    }
  }

  lemma {:induction false} WriterRunRely(fs: seq<State>, k: nat)
    requires SideRun(fs, WriterOp) && Inv(fs[0]) && k < |fs|
    ensures WriterRely(fs[0], fs[k])
  {
    if k > 0 {
      WriterRunRely(fs, k - 1);
      assert SideStep(fs[k - 1], fs[k - 1 + 1], WriterOp);
      var op :| WriterOp(op) && Enabled(fs[k - 1], op) && fs[k] == Apply(fs[k - 1], op);
      WriterOpRely(fs[k - 1], op);
    }
  }

  /** The writer's regions and the committed bytes stand still; counter and kill flag only go up. */
  ghost predicate WriteSideStill(f: State, g: State) {
    && g.size == f.size && g.wb == f.wb && g.we == f.we && g.writeSizes == f.writeSizes && g.log == f.log
    && f.rb <= g.rb && f.writeFd <= g.writeFd && (f.dead ==> g.dead)
  }

  /** The reader's regions stand still, the committed bytes are only added to. */
  ghost predicate ReadSideStill(f: State, g: State) {
    && g.size == f.size && g.rb == f.rb && g.re == f.re && g.readSizes == f.readSizes && f.log <= g.log
    && f.wb <= g.wb && f.readFd <= g.readFd && (f.dead ==> g.dead)
  }

  /** A notification promises room (or data), unless it stems from a kill. */
  ghost predicate WriteSettled(f: State) {
    f.writeFd > 0 ==> f.WriteAvail() > 0 || f.dead
  }

  ghost predicate ReadSettled(f: State) {
    f.readFd > 0 ==> f.ReadAvail() > 0 || f.dead
  }

  /** A side that has its trigger of bytes at hand is notified. */
  ghost predicate ReaderTold(f: State) {
    f.ReadAvail() >= f.readTrigger ==> f.readFd > 0
  }

  ghost predicate WriterTold(f: State) {
    f.WriteAvail() >= f.writeTrigger ==> f.writeFd > 0
  }
}
