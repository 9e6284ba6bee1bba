/** The hand-over of frames from the callback thread to the send thread in `libdvbfi.c`, as a step
    system: a flag that both sides read and write outside the mutex, a buffer copied byte by byte, and
    a condition variable. A step outside the mutex makes one access to shared memory. */
module DvbModel {
  import opened Ring

  const BUFFER_SIZE: nat := 0xFFFF

  /** Where the producer stands in `wr_trigger`. From `Copying` to `Signalled` it holds the mutex. */
  datatype Producer =
    | Outside
    | Checked(frame: seq<Byte>)
    | Copying(frame: seq<Byte>, i: nat)
    | LengthSet(frame: seq<Byte>)
    | Flagged
    | Signalled
  {
    predicate InMutex() {
      Copying? || LengthSet? || Flagged? || Signalled?
    }

    /** The frame that has been let in but not announced yet. */
    function Taken(): seq<seq<Byte>> {
      match this
      case Checked(f) => [f]
      case Copying(f, _) => [f]
      case LengthSet(f) => [f]
      case _ => []
    }
  }

  /** Where the sender stands in `send_thread`: about to lock in `wr_wait`, testing the flag, asleep on
      the condition variable, awake but without the mutex, failed to wait, ready to send, sending a
      frame of `n` bytes of which `out` have been read, calling the original client, or gone. In
      `Testing` and `Failed` it holds the mutex. */
  datatype Sender =
    | Entering
    | Testing
    | Asleep
    | Waking
    | Failed
    | Ready
    | Sending(n: nat, out: seq<Byte>)
    | Calling
    | Gone
  {
    predicate InMutex() {
      Testing? || Failed?
    }

    predicate UsesBuffer() {
      Ready? || Sending? || Calling?
    }

    /** The thread will not send any more. */
    predicate Lost() {
      Failed? || Gone?
    }
  }

  datatype Owner = Free | ByProducer | BySender

  /** `taken` lists the frames that passed the flag test, `accepted` those announced by the flag, and
      `sent` those handed to the network, each in order. */
  datatype State = State(
    flag: bool, mutex: Owner, buffer: seq<Byte>, wrlen: nat,
    producer: Producer, sender: Sender,
    taken: seq<seq<Byte>>, accepted: seq<seq<Byte>>, sent: seq<seq<Byte>>)

  datatype Action =
    | Offer(frame: seq<Byte>)
    | LockToCopy
    | CopyByte
    | SetLength
    | SetFlag
    | Signal
    | UnlockCopied
    | LockToTest
    | TestFlag
    | WakeUp
    | Relock
    | WaitFails
    | Exit
    | Begin
    | SendByte
    | EndFrame
    | ClearFlag

  predicate ProducerAction(a: Action) {
    a.Offer? || a.LockToCopy? || a.CopyByte? || a.SetLength? || a.SetFlag? || a.Signal? || a.UnlockCopied?
  }

  predicate Can(s: State, a: Action) {
    match a
    case Offer(frame) => s.producer.Outside? && |frame| <= BUFFER_SIZE
    case LockToCopy => s.producer.Checked? && s.mutex == Free
    case CopyByte => s.producer.Copying? && s.producer.i < |s.producer.frame| && s.producer.i < |s.buffer|
    case SetLength => s.producer.Copying? && s.producer.i == |s.producer.frame|
    case SetFlag => s.producer.LengthSet?
    case Signal => s.producer.Flagged?
    case UnlockCopied => s.producer.Signalled?
    case LockToTest => s.sender.Entering? && s.mutex == Free
    case TestFlag => s.sender.Testing?
    case WakeUp => s.sender.Asleep?
    case Relock => s.sender.Waking? && s.mutex == Free
    case WaitFails => (s.sender.Testing? && !s.flag) || (s.sender.Waking? && s.mutex == Free)
    case Exit => s.sender.Failed?
    case Begin => s.sender.Ready?
    case SendByte => s.sender.Sending? && |s.sender.out| < s.sender.n && |s.sender.out| < |s.buffer|
    case EndFrame => s.sender.Sending? && |s.sender.out| == s.sender.n
    case ClearFlag => s.sender.Calling?
  }

  function Next(s: State, a: Action): State
    requires Can(s, a)
  {
    match a
    case Offer(frame) => if s.flag then s else s.(producer := Checked(frame), taken := s.taken + [frame])
    case LockToCopy => s.(mutex := ByProducer, producer := Copying(s.producer.frame, 0))
    case CopyByte =>
      s.(buffer := s.buffer[s.producer.i := s.producer.frame[s.producer.i]],
         producer := Copying(s.producer.frame, s.producer.i + 1))
    case SetLength => s.(wrlen := |s.producer.frame|, producer := LengthSet(s.producer.frame))
    case SetFlag => s.(flag := true, accepted := s.accepted + [s.producer.frame], producer := Flagged)
    case Signal => s.(producer := Signalled, sender := if s.sender.Asleep? then Waking else s.sender)
    case UnlockCopied => s.(mutex := Free, producer := Outside)
    case LockToTest => s.(mutex := BySender, sender := Testing)
    case TestFlag => s.(mutex := Free, sender := if s.flag then Ready else Asleep)
    case WakeUp => s.(sender := Waking)
    case Relock => s.(mutex := BySender, sender := Testing)
    case WaitFails => s.(mutex := BySender, flag := true, sender := Failed)
    case Exit => s.(mutex := Free, sender := Gone)
    case Begin => s.(sender := Sending(s.wrlen, []))
    case SendByte => s.(sender := Sending(s.sender.n, s.sender.out + [s.buffer[|s.sender.out|]]))
    case EndFrame => s.(sent := s.sent + [s.sender.out], sender := Calling)
    case ClearFlag => s.(flag := false, sender := Entering)
  }

  function Init(buffer: seq<Byte>): State {
    State(false, Free, buffer, 0, Outside, Entering, [], [], [])
  }

  // Invariant -----------------------------------------------------------------------------------

  ghost predicate MutexInv(s: State) {
    && (s.mutex == ByProducer <==> s.producer.InMutex())
    && (s.mutex == BySender <==> s.sender.InMutex())
  }

  /** The flag says whose turn it is with the buffer: lowered, the producer's; raised, the sender's. */
  ghost predicate TurnInv(s: State) {
    && (s.sender.UsesBuffer() ==> s.flag)
    && (s.producer.Taken() != [] ==> !s.flag || s.sender.Lost())
    && (s.producer.Flagged? || s.producer.Signalled? ==> s.flag && !s.sender.UsesBuffer())
    && (s.sender.Lost() ==> s.flag)
    && (s.sender.Asleep? ==> !s.flag || s.producer.Flagged?)
  }

  /** What has been announced and not sent yet: nothing, or the frame in the buffer. */
  function Waiting(s: State): seq<seq<Byte>>
    requires s.wrlen <= |s.buffer|
  {
    if s.flag && !s.sender.Calling? then [s.buffer[..s.wrlen]] else []
  }

  ghost predicate DataInv(s: State) {
    && |s.buffer| == BUFFER_SIZE && s.wrlen <= BUFFER_SIZE
    && s.taken == s.accepted + s.producer.Taken()
    && (forall f | f in s.producer.Taken() :: |f| <= BUFFER_SIZE)
    && (s.producer.Copying? ==>
          s.producer.i <= |s.producer.frame| && s.buffer[..s.producer.i] == s.producer.frame[..s.producer.i])
    && (s.producer.LengthSet? ==> s.wrlen == |s.producer.frame| && s.buffer[..s.wrlen] == s.producer.frame)
    && (s.sender.Sending? ==> |s.sender.out| <= s.sender.n == s.wrlen && s.sender.out == s.buffer[..|s.sender.out|])
    && (!s.sender.Lost() ==> s.accepted == s.sent + Waiting(s))
    && (s.sender.Lost() ==>
          s.sent <= s.accepted && |s.accepted| + |s.producer.Taken()| <= |s.sent| + 1)
  }

  ghost predicate Inv(s: State) {
    MutexInv(s) && TurnInv(s) && DataInv(s)
  }

  lemma TurnKept(s: State, a: Action)
    requires MutexInv(s) && TurnInv(s) && Can(s, a)
    ensures MutexInv(Next(s, a)) && TurnInv(Next(s, a))
  {
  }

  lemma ProducerData(s: State, a: Action)
    requires Inv(s) && Can(s, a) && ProducerAction(a)
    ensures DataInv(Next(s, a))
  {
  }

  lemma SenderData(s: State, a: Action)
    requires Inv(s) && Can(s, a) && !ProducerAction(a)
    ensures DataInv(Next(s, a))
  {
    hide MutexInv;
    if a.SendByte? {
      var out := s.sender.out;
      assert s.buffer[..|out| + 1] == s.buffer[..|out|] + [s.buffer[|out|]];
    }
  }

  /** Every step of the callback thread keeps the invariant. */
  lemma ProducerKeeps(s: State, a: Action)
    requires Inv(s) && Can(s, a) && ProducerAction(a)
    ensures Inv(Next(s, a))
  {
    hide MutexInv, TurnInv, DataInv, Can, Next;
    TurnKept(s, a);
    ProducerData(s, a);
  }

  /** Every step of the send thread keeps it, also a wake-up without reason, a failed wait, and lowering
      the flag without the mutex. */
  lemma SenderKeeps(s: State, a: Action)
    requires Inv(s) && Can(s, a) && !ProducerAction(a)
    ensures Inv(Next(s, a))
  {
    hide MutexInv, TurnInv, DataInv, Can, Next;
    TurnKept(s, a);
    SenderData(s, a);
  }
}
