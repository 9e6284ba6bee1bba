/** What holds all along the runs of the frame hand-over, in every interleaving of the two threads. */
module DvbRuns {
  import opened Ring
  import opened DvbModel

  ghost predicate Steps(s: State, t: State) {
    exists a :: Can(s, a) && t == Next(s, a)
  }

  ghost predicate HandOver(ss: seq<State>) {
    && |ss| > 0 && |ss[0].buffer| == BUFFER_SIZE && ss[0] == Init(ss[0].buffer)
    && forall k | 0 <= k < |ss| - 1 :: Steps(ss[k], ss[k + 1])
  }

  lemma StepKeeps(s: State, a: Action)
    requires Inv(s) && Can(s, a)
    ensures Inv(Next(s, a))
  {
    hide Inv, Next, Can;
    if ProducerAction(a) {
      ProducerKeeps(s, a);
    } else {
      SenderKeeps(s, a);
    }
  }

  lemma {:induction false} RunKeeps(ss: seq<State>, k: nat)
    requires HandOver(ss) && k < |ss|
    ensures Inv(ss[k])
  {
    if k > 0 {
      RunKeeps(ss, k - 1);
      hide Inv, Next, Can;
      assert Steps(ss[k - 1], ss[k - 1 + 1]);
      var a :| Can(ss[k - 1], a) && ss[k] == Next(ss[k - 1], a);
      StepKeeps(ss[k - 1], a);
    }
  }

  /** While the sender uses the buffer, no step of anybody changes the buffer or the length, and the
      producer is not about to. */
  lemma BufferStands(ss: seq<State>, k: nat, a: Action)
    requires HandOver(ss) && k < |ss| && ss[k].sender.UsesBuffer()
    ensures !Can(ss[k], CopyByte) && !Can(ss[k], SetLength)
    ensures Can(ss[k], a) ==> Next(ss[k], a).buffer == ss[k].buffer && Next(ss[k], a).wrlen == ss[k].wrlen
  {
    RunKeeps(ss, k);
    hide HandOver, DataInv;
  }

  /** Every accepted frame is sent once, unmodified and in order: as long as the sender lives, at most
      one frame is outstanding, and it lies in the buffer; once a wait has failed, at most one frame
      remains unsent for good. Frames are accepted in the order in which they passed the flag test. */
  lemma SentAsAccepted(ss: seq<State>, k: nat)
    requires HandOver(ss) && k < |ss|
    ensures var s := ss[k];
            && s.taken == s.accepted + s.producer.Taken()
            && s.wrlen <= |s.buffer|
            && (!s.sender.Lost() ==> s.accepted == s.sent + Waiting(s))
            && s.sent <= s.accepted && |s.accepted| <= |s.sent| + 1
  {
    RunKeeps(ss, k);
    hide HandOver, MutexInv, TurnInv;
  }

  /** No wake-up is lost: if the flag is up while the sender sleeps, the producer still holds the mutex
      and its next step is the signal that wakes the sender. */
  lemma NoLostWakeup(ss: seq<State>, k: nat)
    requires HandOver(ss) && k < |ss| && ss[k].sender.Asleep? && ss[k].flag
    ensures Can(ss[k], Signal) && Next(ss[k], Signal).sender.Waking?
    ensures forall a | Can(ss[k], a) && ProducerAction(a) :: a.Signal?
  {
    RunKeeps(ss, k);
    hide HandOver, DataInv, MutexInv;
  }

  // Delivery ------------------------------------------------------------------------------------

  /** A frame is announced and its sender alive. */
  predicate Pending(s: State) {
    s.flag && !s.sender.Lost() && !s.sender.Calling?
  }

  /** Steps left until a pending frame is sent. */
  function Distance(s: State): int {
    (match s.sender
     case Asleep => s.wrlen + 5
     case Entering => s.wrlen + 4
     case Waking => s.wrlen + 4
     case Testing => s.wrlen + 3
     case Ready => s.wrlen + 2
     case Sending(n, out) => n - |out| + 1
     case _ => 0)
    + (if s.producer.Flagged? then 2 else if s.producer.Signalled? then 1 else 0)
  }

  /** A step that neither is an error nor drops a frame on the spot. */
  predicate Effective(s: State, a: Action) {
    Can(s, a) && !a.WaitFails? && !(a.Offer? && s.flag)
  }

  /** Some thread can always go on with a pending frame, and every effective step of either thread
      brings it nearer to being sent. */
  lemma PendingAdvances(s: State, a: Action)
    requires Inv(s) && Pending(s)
    ensures exists b :: Effective(s, b)
    ensures Effective(s, a) ==>
              var t := Next(s, a);
              && t.accepted == s.accepted && Distance(t) < Distance(s)
              && (if a.EndFrame? then t.sent == s.sent + [s.buffer[..s.wrlen]] == s.accepted
                  else t.sent == s.sent && Pending(t))
  {
    PendingEnabled(s);
    hide MutexInv;
  }

  lemma PendingEnabled(s: State)
    requires Inv(s) && Pending(s)
    ensures exists b :: Effective(s, b)
  {
    if s.sender.Sending? {
      SendingFits(s);
    }
    hide DataInv;
    var b := if s.producer.Flagged? then Signal else if s.producer.Signalled? then UnlockCopied
      else match s.sender
        case Entering => LockToTest
        case Testing => TestFlag
        case Waking => Relock
        case Ready => Begin
        case Sending(n, out) => if |out| < n then SendByte else EndFrame
        case _ => WakeUp;
    assert Effective(s, b);
  }

  lemma SendingFits(s: State)
    requires Inv(s) && s.sender.Sending?
    ensures |s.sender.out| <= s.sender.n <= |s.buffer|
  {
  }

  ghost predicate EffectiveStep(s: State, t: State) {
    exists a :: Effective(s, a) && t == Next(s, a)
  }

  /** A pending frame is sent within a bounded number of effective steps, whoever takes them. */
  lemma {:induction false} PendingIsSent(ss: seq<State>, j: nat, k: nat)
    requires HandOver(ss) && j <= k < |ss| && Pending(ss[j])
    requires forall m | j <= m < k :: EffectiveStep(ss[m], ss[m + 1])
    requires k - j >= Distance(ss[j])
    ensures exists m :: j < m <= k && ss[m].sent == ss[j].accepted && |ss[m].sent| == |ss[j].sent| + 1
    decreases k - j
  {
    RunKeeps(ss, j);
    hide HandOver, Inv, Next, Can, Effective, Pending, Distance, Waiting;
    PendingFar(ss[j]);
    assert EffectiveStep(ss[j], ss[j + 1]);
    var a :| Effective(ss[j], a) && ss[j + 1] == Next(ss[j], a);
    PendingAdvances(ss[j], a);
    if a.EndFrame? {
      assert ss[j + 1].sent == ss[j].accepted;
    } else {
      PendingIsSent(ss, j + 1, k);
    }
  }

  lemma PendingFar(s: State)
    requires Inv(s) && Pending(s)
    ensures Distance(s) > 0
  {
    hide MutexInv;
  }

  // The failing wait ----------------------------------------------------------------------------

  /** After a failed wait the send thread ends, the flag stays up, and every frame offered from then on
      is dropped, but for one that has passed the test before. */
  lemma {:induction false} LostForGood(ss: seq<State>, j: nat, k: nat)
    requires HandOver(ss) && j <= k < |ss| && ss[j].sender.Lost()
    ensures ss[k].sender.Lost() && ss[k].flag && ss[k].sent == ss[j].sent && ss[k].taken == ss[j].taken
    decreases k
  {
    hide Inv, Next, Can;
    if j < k {
      LostForGood(ss, j, k - 1);
      RunKeeps(ss, k - 1);
      assert Steps(ss[k - 1], ss[k - 1 + 1]);
      var a :| Can(ss[k - 1], a) && ss[k] == Next(ss[k - 1], a);
      LostStep(ss[k - 1], a);
    } else {
      RunKeeps(ss, j);
      LostRaised(ss[j]);
    }
  }

  lemma LostRaised(s: State)
    requires Inv(s) && s.sender.Lost()
    ensures s.flag
  {
  }

  lemma LostStep(s: State, a: Action)
    requires Inv(s) && s.sender.Lost() && Can(s, a)
    ensures var t := Next(s, a); t.sender.Lost() && t.flag && t.sent == s.sent && t.taken == s.taken
  {
    hide DataInv;
  }

  /** What a failed wait costs at the moment it happens: nothing exactly if the flag is down and no frame
      has passed the test. */
  lemma WaitFailsLoses(s: State)
    requires Inv(s) && Can(s, WaitFails)
    ensures var t := Next(s, WaitFails);
            t.taken == t.sent <==> !s.flag && s.producer.Taken() == []
  {
    hide MutexInv;
  }

  /** What it costs in the end, once the producer is outside: every accepted frame has been sent exactly
      if every frame that had passed the test when the sender was lost had been sent then. */
  lemma LossExact(ss: seq<State>, j: nat, k: nat)
    requires HandOver(ss) && j <= k < |ss| && ss[j].sender.Lost() && ss[k].producer.Taken() == []
    ensures ss[k].accepted == ss[k].sent <==> ss[j].taken == ss[j].sent
  {
    LostForGood(ss, j, k);
    SentAsAccepted(ss, k);
    hide HandOver;
  }

  /** Both together: after a wait that fails at step `j`, a frame stays unsent for good if and only if
      the flag was up, or a frame had passed the test, before that step. */
  lemma FailedWaitExact(ss: seq<State>, j: nat, k: nat)
    requires HandOver(ss) && j + 1 <= k < |ss| && ss[k].producer.Taken() == []
    requires Can(ss[j], WaitFails) && ss[j + 1] == Next(ss[j], WaitFails)
    ensures ss[k].accepted != ss[k].sent <==> ss[j].flag || ss[j].producer.Taken() != []
    ensures ss[k].accepted != ss[k].sent ==> |ss[k].accepted| == |ss[k].sent| + 1
  {
    RunKeeps(ss, j);
    SentAsAccepted(ss, k);
    hide HandOver, Inv;
    WaitFailsLoses(ss[j]);
    LossExact(ss, j + 1, k);
  }

  lemma Extend(ss: seq<State>, a: Action)
    requires HandOver(ss) && Can(ss[|ss| - 1], a)
    ensures HandOver(ss + [Next(ss[|ss| - 1], a)])
  {
    hide Next, Can, Init;
    var t := Next(ss[|ss| - 1], a);
    var tt := ss + [t];
    assert Steps(ss[|ss| - 1], t);
    forall k | 0 <= k < |tt| - 1 ensures Steps(tt[k], tt[k + 1]) {
      if k < |ss| - 1 {
        assert tt[k] == ss[k] && tt[k + 1] == ss[k + 1];
      } else {
        assert tt[k] == ss[|ss| - 1] && tt[k + 1] == t;
      }
    }
  }

  lemma After(ss: seq<State>, a: Action) returns (tt: seq<State>)
    requires HandOver(ss) && Can(ss[|ss| - 1], a)
    ensures HandOver(tt) && tt[|tt| - 1] == Next(ss[|ss| - 1], a)
  {
    Extend(ss, a);
    tt := ss + [Next(ss[|ss| - 1], a)];
  }

  lemma {:induction false} CopyRun(ss: seq<State>, frame: seq<Byte>, i: nat) returns (tt: seq<State>)
    requires HandOver(ss) && i <= |frame| <= BUFFER_SIZE && |ss[|ss| - 1].buffer| == BUFFER_SIZE
    requires ss[|ss| - 1].producer == Copying(frame, i)
    ensures HandOver(tt)
    ensures tt[|tt| - 1] == ss[|ss| - 1].(producer := Copying(frame, |frame|), buffer := tt[|tt| - 1].buffer)
    decreases |frame| - i
  {
    if i == |frame| {
      tt := ss;
    } else {
      hide HandOver;
      tt := After(ss, CopyByte);
      tt := CopyRun(tt, frame, i + 1);
    }
  }

  lemma StartRun(s: State)
    requires |s.buffer| == BUFFER_SIZE && s == Init(s.buffer)
    ensures HandOver([s])
  {
  }

  /** So a frame can be accepted and never sent: any frame, if it is let in while the wait fails. */
  lemma FailedWaitLosesFrame(buffer: seq<Byte>, frame: seq<Byte>) returns (ss: seq<State>)
    requires |buffer| == BUFFER_SIZE && |frame| <= BUFFER_SIZE
    ensures HandOver(ss)
    ensures var s := ss[|ss| - 1]; s.accepted == [frame] && s.sent == [] && s.sender.Gone?
  {
    StartRun(Init(buffer));
    hide HandOver;
    ss := After([Init(buffer)], Offer(frame));
    ss := After(ss, LockToTest);
    ss := After(ss, WaitFails);
    ss := After(ss, Exit);
    ss := After(ss, LockToCopy);
    ss := CopyRun(ss, frame, 0);
    ss := After(ss, SetLength);
    ss := After(ss, SetFlag);
  }
}
