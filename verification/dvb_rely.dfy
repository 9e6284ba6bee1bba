/** What each of the two threads of the frame hand-over can rely on while the other one runs. */
module DvbRely {
  import opened DvbModel
  import opened DvbRuns

  /** As seen by the producer: the sender leaves buffer, length and frames alone, and raises a lowered
      flag only in giving up. */
  ghost predicate SenderRely(f: State, g: State) {
    && Inv(g)
    && g.producer == f.producer && g.taken == f.taken && g.accepted == f.accepted
    && g.buffer == f.buffer && g.wrlen == f.wrlen
    && f.sent <= g.sent
    && (f.sender.Lost() ==> g.sender.Lost())
    && (!f.flag && g.flag ==> g.sender.Lost())
  }

  /** As seen by the sender: the producer at most wakes it, never lowers the flag, and leaves buffer,
      length and accepted frames alone while the flag is up. */
  ghost predicate ProducerRely(f: State, g: State) {
    && Inv(g)
    && (g.sender == f.sender || (f.sender.Asleep? && g.sender.Waking?))
    && g.sent == f.sent && f.accepted <= g.accepted
    && (f.flag ==> g.flag)
    && (f.sender.UsesBuffer() ==> g.buffer == f.buffer && g.wrlen == f.wrlen && g.accepted == f.accepted)
  }

  lemma SenderStepRely(s: State, a: Action)
    requires Inv(s) && Can(s, a) && !ProducerAction(a)
    ensures SenderRely(s, Next(s, a))
  {
    StepKeeps(s, a);
    hide MutexInv, DataInv;
  }

  lemma ProducerStepRely(s: State, a: Action)
    requires Inv(s) && Can(s, a) && ProducerAction(a)
    ensures ProducerRely(s, Next(s, a))
  {
    StepKeeps(s, a);
    hide MutexInv, DataInv;
  }

  /** A run in which only one of the threads takes steps. */
  ghost predicate SideRun(ss: seq<State>, producer: bool) {
    && |ss| > 0
    && forall k | 0 <= k < |ss| - 1 :: SideStep(ss[k], ss[k + 1], producer)
  }

  ghost predicate SideStep(s: State, t: State, producer: bool) {
    exists a :: Can(s, a) && ProducerAction(a) == producer && t == Next(s, a)
  }

  /** Whatever the sender does, and for however long, the producer can rely on `SenderRely`. */
  lemma {:induction false} SenderRunRely(ss: seq<State>, k: nat)
    requires SideRun(ss, false) && Inv(ss[0]) && k < |ss|
    ensures SenderRely(ss[0], ss[k])
  {
    hide Inv, Next, Can;
    if k > 0 {
      SenderRunRely(ss, k - 1);
      assert SideStep(ss[k - 1], ss[k - 1 + 1], false);
      var a :| Can(ss[k - 1], a) && !ProducerAction(a) && ss[k] == Next(ss[k - 1], a);
      SenderStepRely(ss[k - 1], a);
      SenderRelyJoins(ss[0], ss[k - 1], ss[k]);
    }
  }

  lemma SenderRelyJoins(f: State, g: State, h: State)
    requires SenderRely(f, g) && SenderRely(g, h)
    ensures SenderRely(f, h)
  {
    hide MutexInv, DataInv;
  }

  /** Whatever the producer does, and for however long, the sender can rely on `ProducerRely`. */
  lemma {:induction false} ProducerRunRely(ss: seq<State>, k: nat)
    requires SideRun(ss, true) && Inv(ss[0]) && k < |ss|
    ensures ProducerRely(ss[0], ss[k])
  {
    hide Inv, Next, Can;
    if k > 0 {
      ProducerRunRely(ss, k - 1);
      assert SideStep(ss[k - 1], ss[k - 1 + 1], true);
      var a :| Can(ss[k - 1], a) && ProducerAction(a) && ss[k] == Next(ss[k - 1], a);
      ProducerStepRely(ss[k - 1], a);
    }
  }
}
