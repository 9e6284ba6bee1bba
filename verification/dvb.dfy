/** The threads of `libdvbfi.c` themselves: the callback thread that hands over frames, and the send
    thread that cuts them into datagrams, each with the other one running in between. */
module Dvb {
  import opened Ring
  import opened Words
  import opened DvbModel
  import opened DvbRuns
  import opened DvbRely
  import opened Segments
  import Rtp

  /** Where the frames go: to the original callback only, as plain datagrams, or as RTP. */
  datatype Forward = CableInfo | PlainTs | RtpTs

  /** What the environment does in a round of the send thread: which waits fail, how long the mutex may
      be taken, where frames go at that time, and the time itself in microseconds. */
  datatype Round = Round(errors: seq<bool>, patience: nat, mode: Forward, now: nat)

  /** A frame that has been sent, and how. */
  datatype Sent = Sent(frame: Frame, mode: Forward)

  function SentData(sents: seq<Sent>): (s: seq<seq<Byte>>)
    ensures |s| == |sents|
  {
    seq(|sents|, k requires 0 <= k < |sents| => sents[k].frame.data)
  }

  function SentFrames(sents: seq<Sent>): (s: seq<Frame>)
    ensures |s| == |sents|
  {
    seq(|sents|, k requires 0 <= k < |sents| => sents[k].frame)
  }

  /** What a frame puts on the wire, with the packet counter at `n` before it. */
  function Emission(ssrc: seq<Byte>, size: nat, s: Sent, n: Word): seq<seq<Byte>>
    requires |ssrc| == 4 && size > 0
  {
    match s.mode
    case CableInfo => []
    case PlainTs => Cut(s.frame.data, size)
    case RtpTs => Packets(ssrc, Cut(s.frame.data, size), n, s.frame.time)
  }

  /** The packet counter behind a frame. */
  function Advanced(size: nat, s: Sent, n: Word): Word
    requires size > 0
  {
    if s.mode.RtpTs? then (n + |Cut(s.frame.data, size)|) % WORD else n
  }

  function Counter(size: nat, sents: seq<Sent>, n: Word): Word
    requires size > 0
  {
    if sents == [] then n else Advanced(size, sents[|sents| - 1], Counter(size, sents[..|sents| - 1], n))
  }

  /** What a run of frames puts on the wire, each in its own way. */
  function Output(ssrc: seq<Byte>, size: nat, sents: seq<Sent>, n: Word): seq<seq<Byte>>
    requires |ssrc| == 4 && size > 0
  {
    if sents == [] then []
    else
      var before := sents[..|sents| - 1];
      Output(ssrc, size, before, n) + Emission(ssrc, size, sents[|sents| - 1], Counter(size, before, n))
  }

  lemma OutputGrows(ssrc: seq<Byte>, size: nat, sents: seq<Sent>, s: Sent, n: Word)
    requires |ssrc| == 4 && size > 0
    ensures Output(ssrc, size, sents + [s], n)
            == Output(ssrc, size, sents, n) + Emission(ssrc, size, s, Counter(size, sents, n))
    ensures Counter(size, sents + [s], n) == Advanced(size, s, Counter(size, sents, n))
    ensures SentData(sents + [s]) == SentData(sents) + [s.frame.data]
  {
    hide Emission, Advanced;
    var all := sents + [s];
    assert all[..|all| - 1] == sents;
  }

  /** With RTP alone, that is the run of packets of all frames. */
  lemma {:induction false} RtpOutput(ssrc: seq<Byte>, size: nat, sents: seq<Sent>, n: Word)
    requires |ssrc| == 4 && size > 0 && forall k | 0 <= k < |sents| :: sents[k].mode.RtpTs?
    ensures Output(ssrc, size, sents, n) == Wire(ssrc, size, SentFrames(sents), n)
    ensures Counter(size, sents, n) == (n + |Output(ssrc, size, sents, n)|) % WORD
    decreases |sents|
  {
    hide Packets, Cut, Wire;
    if sents == [] {
      WireNone(ssrc, size, n);
    } else {
      var before, s := sents[..|sents| - 1], sents[|sents| - 1];
      RtpOutput(ssrc, size, before, n);
      WireGrows(ssrc, size, SentFrames(before), s.frame, n);
      assert SentFrames(sents) == SentFrames(before) + [s.frame];
      StampAdds(n + |Output(ssrc, size, before, n)|, |Cut(s.frame.data, size)|);
    }
  }

  /** With plain datagrams alone, they join to the frames. */
  lemma {:induction false} PlainOutput(ssrc: seq<Byte>, size: nat, sents: seq<Sent>, n: Word)
    requires |ssrc| == 4 && size > 0 && forall k | 0 <= k < |sents| :: sents[k].mode.PlainTs?
    ensures Joined(Output(ssrc, size, sents, n)) == Joined(SentData(sents)) && Counter(size, sents, n) == n
    decreases |sents|
  {
    hide Packets, Cut, Joined;
    if sents == [] {
      assert Output(ssrc, size, sents, n) == [] && SentData(sents) == [];
    } else {
      var before, s := sents[..|sents| - 1], sents[|sents| - 1];
      PlainOutput(ssrc, size, before, n);
      JoinedConcat(Output(ssrc, size, before, n), Cut(s.frame.data, size));
      CutJoins(s.frame.data, size);
      assert SentData(sents) == SentData(before) + [s.frame.data];
      JoinedConcat(SentData(before), [s.frame.data]);
      JoinedOne(s.frame.data);
    }
  }

  /** Rounds that only call the original client put nothing on the wire and leave the counter. */
  lemma {:induction false} ClientOutput(ssrc: seq<Byte>, size: nat, sents: seq<Sent>, n: Word)
    requires |ssrc| == 4 && size > 0 && forall k | 0 <= k < |sents| :: sents[k].mode.CableInfo?
    ensures Output(ssrc, size, sents, n) == [] && Counter(size, sents, n) == n
    decreases |sents|
  {
    hide Packets, Cut;
    if sents != [] {
      ClientOutput(ssrc, size, sents[..|sents| - 1], n);
    }
  }

  lemma JoinedOne(s: seq<Byte>)
    ensures Joined([s]) == s
  {
    assert [s][1..] == [];
    assert Joined([s]) == s + Joined([]);
  }

  class WrapCtx {
    const buffer: array<Byte>
    const ssrc: seq<Byte>
    /** The segment size, which the environment may set to anything. */
    const udpSize: int
    var wrlen: nat
    var writeTriggered: bool
    /** Who holds the mutex. */
    var mutex: Owner
    var packetCount: Word
    /** The datagrams handed to the network so far. */
    var wire: seq<seq<Byte>>

    /** The meaning of the shared fields, and where the two threads stand. */
    ghost var state: State

    ghost predicate Valid()
      reads this, buffer
    {
      && |ssrc| == 4 && buffer.Length == BUFFER_SIZE
      && Inv(state)
      && state.flag == writeTriggered && state.mutex == mutex && state.wrlen == wrlen && state.buffer == buffer[..]
    }

    constructor (source: seq<Byte>, segment: int)
      requires |source| == 4
      ensures Valid() && fresh(buffer) && wire == []
      ensures state == Init(state.buffer)
    {
      buffer := new Byte[BUFFER_SIZE];
      ssrc, udpSize := source, segment;
      wrlen, writeTriggered, mutex := 0, false, Free;
      packetCount, wire := 0, [];
      new;
      state := Init(buffer[..]);
    }

    // The other thread --------------------------------------------------------------------------

    /** Any number of steps of the send thread may happen here. */
    method SenderRuns()
      requires Valid()
      modifies this`state, this`writeTriggered, this`mutex, this`packetCount, this`wire
      ensures Valid() && SenderRely(old(state), state)
    {
    }

    /** Any number of steps of the callback thread may happen here. */
    method ProducerRuns()
      requires Valid()
      modifies this`state, this`writeTriggered, this`mutex, this`wrlen, buffer
      ensures Valid() && ProducerRely(old(state), state)
    {
    }

    /** Waits until the send thread does not hold the mutex. */
    method AwaitMutexOfSender()
      requires Valid() && !state.producer.InMutex()
      modifies this`state, this`writeTriggered, this`mutex, this`packetCount, this`wire
      ensures Valid() && SenderRely(old(state), state) && state.mutex == Free
    {
      ghost var a := if state.sender.Testing? then TestFlag else Exit;
      if mutex == BySender {
        SenderStepRely(state, a);
        state := Next(state, a);
        mutex := Free;
      }
    }

    // The callback thread -----------------------------------------------------------------------

    /** `wr_trigger`: drops the frame if the flag is up, else copies it into the buffer and announces
        it. The flag is tested without the mutex; `up` is what the test saw. A flag that was down at the
        call is up then only if the sender has given up. */
    method WrTrigger(frame: seq<Byte>) returns (rc: int, ghost up: bool)
      requires Valid() && state.producer.Outside? && |frame| <= 65535
      modifies this, buffer
      ensures Valid() && state.producer.Outside? && old(state).sent <= state.sent
      ensures rc == if up then -1 else 0
      ensures up && !old(state).flag ==> state.sender.Lost()
      ensures up ==> SenderRely(old(state), state)
      ensures !up ==> state.accepted == old(state).accepted + [frame] && state.taken == old(state).taken + [frame]
      ensures !up && old(state).flag ==> old(state).sender.Calling? || old(state).sent < state.sent
    {
      hide Inv;
      SenderRuns();
      up := writeTriggered;
      if writeTriggered {
        return -1, up;
      }
      LoweredBehind(old(state), state);
      StepKeeps(state, Offer(frame));
      state := Next(state, Offer(frame));
      AwaitMutexOfSender() by { OutsideMutex(state); }
      TakeMutex(frame);
      CopyFrame(frame);
      Announce(frame);
      rc := 0;
    }

    /** The sender lowers the flag only behind the frame that raised it. */
    lemma LoweredBehind(s: State, t: State)
      requires Inv(s) && SenderRely(s, t)
      ensures s.flag && !t.flag ==> s.sender.Calling? || s.sent < t.sent
    {
    }

    lemma OutsideMutex(s: State)
      requires s.producer.Checked?
      ensures !s.producer.InMutex()
    {
    }

    method TakeMutex(ghost frame: seq<Byte>)
      requires Valid() && state.producer == Checked(frame) && state.mutex == Free
      modifies this`state, this`mutex
      ensures Valid() && state == Next(old(state), LockToCopy)
    {
      hide Inv;
      StepKeeps(state, LockToCopy);
      state := Next(state, LockToCopy);
      mutex := ByProducer;
    }

    /** The producer's side of the books while a frame is copied in. */
    ghost predicate Handing(s: State, t: State) {
      t.taken == s.taken && t.accepted == s.accepted && s.sent <= t.sent
    }

    /** `memcpy` and the length. */
    method CopyFrame(frame: seq<Byte>)
      requires Valid() && state.producer == Copying(frame, 0) && |frame| <= BUFFER_SIZE
      modifies this, buffer
      ensures Valid() && state.producer == LengthSet(frame) && Handing(old(state), state)
    {
      hide Inv;
      for i := 0 to |frame|
        invariant Valid() && state.producer == Copying(frame, i) && Handing(old(state), state)
      {
        SenderRuns();
        StepKeeps(state, DvbModel.CopyByte);
        buffer[i] := frame[i];
        state := Next(state, DvbModel.CopyByte);
      }
      SenderRuns();
      StepKeeps(state, SetLength);
      wrlen := |frame|;
      state := Next(state, SetLength);
    }

    /** Raises the flag, signals, and leaves the mutex. */
    method Announce(frame: seq<Byte>)
      requires Valid() && state.producer == LengthSet(frame)
      modifies this
      ensures Valid() && state.producer.Outside? && old(state).sent <= state.sent
      ensures state.accepted == old(state).accepted + [frame] && state.taken == old(state).taken
    {
      hide Inv;
      SenderRuns();
      StepKeeps(state, SetFlag);
      writeTriggered := true;
      state := Next(state, SetFlag);
      SenderRuns();
      StepKeeps(state, Signal);
      state := Next(state, Signal);
      SenderRuns();
      StepKeeps(state, UnlockCopied);
      mutex := Free;
      state := Next(state, UnlockCopied);
    }

    // The send thread ---------------------------------------------------------------------------

    /** The sender stands before the mutex: it has not tried, or the callback thread holds the mutex. */
    ghost predicate Barred(patience: nat)
      reads this`state
    {
      (state.sender.Entering? || state.sender.Waking?) && (patience == 0 || state.mutex == ByProducer)
    }

    /** Tries to take the mutex as often as `patience` says; `a` is the step that does it. It fails only
        if the callback thread holds the mutex each time. */
    method LockAsSender(patience: nat, ghost a: Action) returns (ok: bool)
      requires Valid() && ((a == LockToTest && state.sender.Entering?) || (a == Relock && state.sender.Waking?))
      modifies this`state, this`writeTriggered, this`mutex, this`wrlen, buffer
      ensures Valid() && state.sent == old(state).sent && old(state).accepted <= state.accepted
      ensures old(writeTriggered) ==> writeTriggered
      ensures if ok then state.sender.Testing? else state.sender == old(state).sender && Barred(patience)
    {
      hide Inv;
      for k := 0 to patience
        invariant Valid() && state.sent == old(state).sent && old(state).accepted <= state.accepted
        invariant old(writeTriggered) ==> writeTriggered
        invariant state.sender == old(state).sender && (k > 0 ==> state.mutex == ByProducer)
      {
        ProducerRuns();
        if mutex == Free {
          StepKeeps(state, a);
          mutex := BySender;
          state := Next(state, a);
          return true;
        }
        NotMine(state);
      }
      ok := false;
    }

    lemma NotMine(s: State)
      requires Inv(s) && (s.sender.Entering? || s.sender.Waking?)
      ensures s.mutex != BySender
    {
    }

    /** `pthread_cond_wait` without an error: sleeps, wakes up by a signal or without any reason, and
        takes the mutex again. */
    method CondWait(patience: nat) returns (ok: bool)
      requires Valid() && state.sender.Testing? && !writeTriggered
      modifies this`state, this`writeTriggered, this`mutex, this`wrlen, buffer
      ensures Valid() && state.sent == old(state).sent && old(state).accepted <= state.accepted
      ensures if ok then state.sender.Testing? else Barred(patience)
    {
      hide Inv;
      StepKeeps(state, TestFlag);
      mutex := Free;
      state := Next(state, TestFlag);
      ProducerRuns();
      if state.sender.Asleep? {
        StepKeeps(state, WakeUp);
        state := Next(state, WakeUp);
      }
      ok := LockAsSender(patience, Relock);
    }

    lemma TestingHolds(s: State)
      requires Inv(s) && s.sender.Testing?
      ensures s.mutex == BySender
    {
    }

    /** `wr_wait`: waits for the flag under the mutex. `errors` says which of the waits fail, and the
        result `returned` whether the flag was found up within those waits. A failed wait raises the
        flag itself and makes the thread end. Without a return all waits went well and the flag is still
        down, or the callback thread kept the mutex. */
    method WrWait(errors: seq<bool>, patience: nat) returns (rc: int, returned: bool)
      requires Valid() && state.sender.Entering?
      modifies this`state, this`writeTriggered, this`mutex, this`wrlen, buffer
      ensures Valid() && state.sent == old(state).sent && old(state).accepted <= state.accepted
      ensures returned && rc == 0 ==> state.sender.Ready? && writeTriggered
      ensures returned && rc != 0 ==> state.sender.Gone? && writeTriggered && true in errors
      ensures !returned ==> Barred(patience) || (state.sender.Testing? && !writeTriggered && true !in errors)
      ensures old(writeTriggered) ==> if returned then rc == 0 else Barred(patience)
    {
      hide Inv;
      rc := 0;
      returned := LockAsSender(patience, LockToTest);
      if !returned {
        return;
      }
      var k := 0;
      while !writeTriggered && k < |errors|
        invariant Valid() && state.sent == old(state).sent && old(state).accepted <= state.accepted
        invariant k <= |errors| && (old(writeTriggered) ==> writeTriggered && rc == 0)
        invariant if rc == 0 then state.sender.Testing? && true !in errors[..k]
                  else state.sender.Failed? && writeTriggered && true in errors
        decreases |errors| - k
      {
        assert errors[..k + 1] == errors[..k] + [errors[k]];
        if errors[k] {
          TestingHolds(state);
          StepKeeps(state, WaitFails);
          state := Next(state, WaitFails);
          writeTriggered := true;
          rc := -1;
        } else {
          returned := CondWait(patience);
          if !returned {
            return;
          }
        }
        k := k + 1;
      }
      if !writeTriggered {
        assert errors[..k] == errors;
        return rc, false;
      }
      ghost var a := if rc == 0 then TestFlag else Exit;
      StepKeeps(state, a);
      mutex := Free;
      state := Next(state, a);
      returned := true;
    }

    /** The frame that is being sent stays what it was, and nothing else is sent meanwhile. */
    ghost predicate Holding(s: State, t: State) {
      t.buffer == s.buffer && t.wrlen == s.wrlen && t.accepted == s.accepted && t.sent == s.sent
    }

    /** The next `seg` bytes of the buffer, read one by one while the callback thread runs. */
    method ReadSegment(offs: nat, seg: nat) returns (data: seq<Byte>)
      requires Valid() && state.sender.Sending? && |state.sender.out| == offs
      requires offs + seg <= state.sender.n <= BUFFER_SIZE
      modifies this`state, this`writeTriggered, this`mutex, this`wrlen, buffer
      ensures Valid() && Holding(old(state), state)
      ensures state.sender == Sending(old(state).sender.n, old(state).sender.out + data)
      ensures data == old(buffer[offs..offs + seg]) && |data| == seg
    {
      hide Inv;
      data := [];
      for j := 0 to seg
        invariant Valid() && Holding(old(state), state) && |data| == j
        invariant state.sender == Sending(old(state).sender.n, old(state).sender.out + data)
        invariant data == old(buffer[offs..offs + j])
      {
        ProducerRuns();
        StepKeeps(state, SendByte);
        data := data + [buffer[offs + j]];
        state := Next(state, SendByte);
      }
    }

    /** Whether the send loops end with a frame of this length, which is known beforehand. */
    method LoopsEnd(len: nat) returns (ends: bool)
      ensures ends <==> Ends(udpSize, len)
    {
      hide Ends;
      LoopEnds(udpSize, len);
      ends := if len > 0 then udpSize > 0 else udpSize >= 0;
    }

    /** `udp_send`: the frame in the buffer, in datagrams of at most `udpSize` bytes. A loop that does not
        end is not entered. */
    method UdpSend() returns (ends: bool, ghost frame: seq<Byte>)
      requires Valid() && state.sender == Sending(wrlen, [])
      modifies this`state, this`writeTriggered, this`mutex, this`wrlen, this`wire, buffer
      ensures Valid() && Holding(old(state), state) && state.sender.Sending?
      ensures frame == old(buffer[..wrlen]) && (ends <==> Ends(udpSize, |frame|))
      ensures ends ==> state.sender == Sending(|frame|, frame)
      ensures ends ==> wire == old(wire) + Cut(frame, Unit(udpSize))
    {
      hide Inv, Cut, CutSoFar, Ends, SegmentSize, Unit;
      var len := wrlen;
      SentBounds(state);
      frame := buffer[..len];
      ends := LoopsEnd(len);
      if !ends {
        return;
      }
      ghost var segs: seq<seq<Byte>> := [];
      var offs := 0;
      var first := true;
      CutStart(frame, Unit(udpSize));
      while first || offs < len
        invariant Valid() && Holding(old(state), state) && offs <= len && (first <==> segs == [])
        invariant state.sender == Sending(len, frame[..offs])
        invariant wire == old(wire) + segs
        invariant CutSoFar(frame, Unit(udpSize), offs, segs)
        decreases len - offs, first
      {
        SegmentIsMin(udpSize, len, offs);
        var seg := SegmentSize(udpSize, len, offs);
        CutMore(frame, Unit(udpSize), offs, segs, seg);
        var data := ReadSegment(offs, seg);
        wire := wire + [data];
        segs := segs + [data];
        offs := offs + seg;
        first := false;
      }
      CutDone(frame, Unit(udpSize), offs, segs);
    }

    lemma SentBounds(s: State)
      requires Inv(s) && s.sender.Sending?
      ensures s.sender.n == s.wrlen <= |s.buffer| == BUFFER_SIZE
    {
    }

    /** The parts of a packet header that stay the same within a frame. */
    ghost predicate Started(header: array<Byte>)
      reads header
    {
      header.Length == Rtp.HEADER_SIZE && header[..2] == [0x80, Rtp.TYPE_TS] && header[8..] == ssrc
    }

    method StartHeader() returns (header: array<Byte>)
      requires |ssrc| == 4
      ensures fresh(header) && Started(header)
    {
      header := new Byte[Rtp.HEADER_SIZE];
      Rtp.SetHdr(header);
      Rtp.SetType(header, Rtp.TYPE_TS);
      Rtp.FirstBytes();
      Rtp.SetSsrc(header, ssrc);
    }

    /** Numbers and stamps the header of the next packet. */
    method StampHeader(header: array<Byte>, n: Word, t: nat)
      requires Started(header) && |ssrc| == 4
      modifies header
      ensures Started(header) && header[..] == Rtp.Header(ssrc, n % 0x1_0000, Stamp(t))
    {
      hide Rtp.PairOf, Big, Stamp;
      Rtp.SetSeqnum(header, n % 0x1_0000);
      Rtp.SetTimestamp(header, Stamp(t));
      ghost var h := header[..];
      assert h == h[..2] + h[2..4] + h[4..8] + h[8..];
    }

    /** `rtp_send`: the frame in the buffer, each segment behind a header of its own. `now` is the time
        of the call in microseconds. */
    method RtpSend(now: nat) returns (ends: bool, ghost frame: seq<Byte>)
      requires Valid() && state.sender == Sending(wrlen, [])
      modifies this`state, this`writeTriggered, this`mutex, this`wrlen, this`wire, this`packetCount, buffer
      ensures Valid() && Holding(old(state), state) && state.sender.Sending?
      ensures frame == old(buffer[..wrlen]) && (ends <==> Ends(udpSize, |frame|))
      ensures ends ==> state.sender == Sending(|frame|, frame)
      ensures ends ==> wire == old(wire) + Packets(ssrc, Cut(frame, Unit(udpSize)), old(packetCount), now)
      ensures ends ==> packetCount == (old(packetCount) + |Cut(frame, Unit(udpSize))|) % WORD
    {
      hide Inv, Cut, CutSoFar, Packets, Stamp, Rtp.Header, U32, Started, Emitted, Ends, SegmentSize, Unit;
      var len := wrlen;
      SentBounds(state);
      frame := buffer[..len];
      ends := LoopsEnd(len);
      if !ends {
        return;
      }
      ghost var segs: seq<seq<Byte>> := [];
      var offs := 0;
      var first := true;
      var t := now;
      var header := StartHeader();
      EmittedNone(now);
      CutStart(frame, Unit(udpSize));
      while first || offs < len
        invariant Valid() && Holding(old(state), state) && offs <= len && (first <==> segs == [])
        invariant Started(header) && fresh(header) && t == now + 12 * |segs|
        invariant state.sender == Sending(len, frame[..offs])
        invariant Emitted(old(wire), old(packetCount), segs, now)
        invariant CutSoFar(frame, Unit(udpSize), offs, segs)
        decreases len - offs, first
      {
        SegmentIsMin(udpSize, len, offs);
        var seg := SegmentSize(udpSize, len, offs);
        CutMore(frame, Unit(udpSize), offs, segs, seg);
        var data := SendPacket(header, t, offs, seg, old(wire), old(packetCount), segs, now);
        t := t + 12;
        segs := segs + [data];
        offs := offs + seg;
        first := false;
      }
      CutDone(frame, Unit(udpSize), offs, segs);
      EmittedAll(old(wire), old(packetCount), segs, now);
    }

    /** The packets of these segments have been sent, after `sent` and with the counter at `n` before. */
    ghost predicate Emitted(sent: seq<seq<Byte>>, n: Word, segs: seq<seq<Byte>>, now: nat)
      requires |ssrc| == 4
      reads this`wire, this`packetCount
    {
      wire == sent + Packets(ssrc, segs, n, now) && packetCount == (n + |segs|) % WORD
    }

    lemma EmittedNone(now: nat)
      requires |ssrc| == 4
      ensures Emitted(wire, packetCount, [], now)
    {
    }

    lemma EmittedAll(sent: seq<seq<Byte>>, n: Word, segs: seq<seq<Byte>>, now: nat)
      requires |ssrc| == 4 && Emitted(sent, n, segs, now)
      ensures wire == sent + Packets(ssrc, segs, n, now) && packetCount == (n + |segs|) % WORD
    {
    }

    lemma CountStep(n: Word, k: nat)
      ensures (n + k) % WORD % 0x1_0000 == (n + k) % 0x1_0000
      ensures U32((n + k) % WORD + 1) == (n + k + 1) % WORD
    {
      CountAcross(n, k, k);
      StampAdds(n + k, 1);
    }

    /** One packet: its header, a segment of the buffer, and the counter moved on. */
    method SendPacket(header: array<Byte>, t: nat, offs: nat, seg: nat,
                      ghost sent: seq<seq<Byte>>, ghost n: Word, ghost segs: seq<seq<Byte>>, ghost now: nat)
      returns (data: seq<Byte>)
      requires Valid() && Started(header) && header != buffer
      requires state.sender.Sending? && |state.sender.out| == offs && offs + seg <= state.sender.n <= BUFFER_SIZE
      requires Emitted(sent, n, segs, now) && t == now + 12 * |segs|
      modifies this`state, this`writeTriggered, this`mutex, this`wrlen, this`wire, this`packetCount, buffer, header
      ensures Valid() && Started(header) && Holding(old(state), state)
      ensures state.sender == Sending(old(state).sender.n, old(state).sender.out + data)
      ensures data == old(buffer[offs..offs + seg]) && |data| == seg
      ensures Emitted(sent, n, segs + [data], now)
    {
      hide Inv, Started, Rtp.Header, Stamp, U32, Packets;
      StampHeader(header, packetCount, t);
      packetCount := U32(packetCount + 1);
      ghost var h := header[..];
      data := ReadSegment(offs, seg);
      wire := wire + [header[..] + data];
      CountStep(n, |segs|);
      PacketsSnoc(ssrc, segs, data, n, now);
    }

    /** One round of `send_thread` behind the wait: sends the announced frame the configured way, calls
        the original client, and lowers the flag without the mutex. In a loop that does not end the round
        never gets that far, and the flag stays up. */
    method SendPass(mode: Forward, now: nat) returns (ends: bool)
      requires Valid() && state.sender.Ready?
      modifies this, buffer
      ensures Valid() && old(state).sent <= state.sent
      ensures ends <==> mode.CableInfo? || Ends(udpSize, old(wrlen))
      ensures !ends ==> state.sender.Sending? && state.sent == old(state).sent && writeTriggered
      ensures ends ==> state.sender.Entering? && state.sent == old(state).accepted
      ensures ends ==> |state.sent| == |old(state).sent| + 1
      ensures ends ==>
                var s := Sent(Frame(state.sent[|state.sent| - 1], now), mode);
                && wire == old(wire) + Emission(ssrc, Unit(udpSize), s, old(packetCount))
                && packetCount == Advanced(Unit(udpSize), s, old(packetCount))
      ensures mode.CableInfo? ==> wire == old(wire)
      ensures !mode.RtpTs? ==> packetCount == old(packetCount)
    {
      hide Inv, Cut, Packets, Ends, Unit;
      ReadyHolds(state);
      var frame: seq<Byte> := buffer[..wrlen];
      ProducerRuns();
      StepKeeps(state, Begin);
      state := Next(state, Begin);
      match mode {
        case CableInfo =>
          frame := ReadSegment(0, wrlen);
          ends := true;
          assert [] + frame == frame && wire + [] == wire;
        case PlainTs =>
          ghost var sent;
          ends, sent := UdpSend();
        case RtpTs =>
          ghost var sent;
          ends, sent := RtpSend(now);
      }
      if !ends {
        StillUp(state);
        return;
      }
      assert state.sender == Sending(|frame|, frame);
      FinishPass();
    }

    lemma StillUp(s: State)
      requires Inv(s) && s.sender.Sending?
      ensures s.flag
    {
    }

    lemma ReadyHolds(s: State)
      requires Inv(s) && s.sender.Ready?
      ensures s.wrlen <= |s.buffer| == BUFFER_SIZE && s.flag
      ensures s.accepted == s.sent + [s.buffer[..s.wrlen]]
    {
    }

    /** The end of a round. */
    method FinishPass()
      requires Valid() && state.sender.Sending? && |state.sender.out| == state.sender.n
      modifies this`state, this`writeTriggered, this`mutex, this`wrlen, buffer
      ensures Valid() && state.sender.Entering? && state.sent == old(state).sent + [old(state).sender.out]
    {
      hide Inv;
      StepKeeps(state, EndFrame);
      state := Next(state, EndFrame);
      ProducerRuns();
      StepKeeps(state, ClearFlag);
      writeTriggered := false;
      state := Next(state, ClearFlag);
    }

    /** These are the frames that have been sent, and what they put on the wire is all there is. */
    ghost predicate OnWire(sents: seq<Sent>, n: Word)
      requires |ssrc| == 4
      reads this`wire, this`packetCount, this`state
    {
      && wire == Output(ssrc, Unit(udpSize), sents, n) && packetCount == Counter(Unit(udpSize), sents, n)
      && state.sent == SentData(sents)
    }

    /** Why a round is not completed: a wait fails and ends the thread, none of its waits finds the flag
        up, the callback thread keeps the mutex, or its frame is sent in a loop that does not end. */
    ghost predicate Unfinished(round: Round)
      reads this`state, this`writeTriggered
    {
      || (state.sender.Gone? && true in round.errors)
      || (state.sender.Testing? && !writeTriggered && true !in round.errors)
      || Barred(round.patience)
      || (state.sender.Sending? && writeTriggered && !round.mode.CableInfo? && udpSize <= 0)
    }

    /** `send_thread`, for as many rounds as are observed, each with its own way of forwarding. What is on
        the wire is at any time what the sent frames put there, in order. With RTP alone the packets are
        numbered without a gap and a receiver gets exactly the bytes of the frames; with plain datagrams
        alone these join to the frames; the original client alone puts nothing there. A loop that does not
        end keeps the thread, with the flag up. */
    method SendThread(rounds: seq<Round>, ghost before: seq<Sent>, ghost n: Word)
      returns (ends: bool, ghost sents: seq<Sent>)
      requires Valid() && state.sender.Entering? && OnWire(before, n)
      modifies this, buffer
      ensures Valid() && old(state).sent <= state.sent <= state.accepted
      ensures before <= sents && |sents| <= |before| + |rounds|
      ensures forall k | |before| <= k < |sents| :: sents[k].mode == rounds[k - |before|].mode
      ensures if |sents| == |before| + |rounds| then ends && state.sender.Entering?
              else Unfinished(rounds[|sents| - |before|]) && (ends <==> !state.sender.Sending?)
      ensures old(writeTriggered) && rounds != [] && sents == before ==> !ends || Barred(rounds[0].patience)
      ensures ends ==> OnWire(sents, n)
      ensures ends && (forall k | 0 <= k < |sents| :: sents[k].mode.RtpTs?) ==>
                && Counted(wire, n) && (forall k | 0 <= k < |wire| :: Rtp.Complete(wire[k]))
                && Received(wire) == Joined(state.sent)
      ensures ends && (forall k | 0 <= k < |sents| :: sents[k].mode.PlainTs?) ==> Joined(wire) == Joined(state.sent)
      ensures ends && (forall k | 0 <= k < |sents| :: sents[k].mode.CableInfo?) ==> wire == [] && packetCount == n
    {
      hide Inv, Output, Counter, Emission, Advanced, SentData, Cut, Counted, Received, Joined, Rtp.Complete, Unit, Ends;
      ends, sents := true, before;
      for k := 0 to |rounds|
        invariant Valid() && state.sender.Entering? && old(state).sent <= state.sent
        invariant before <= sents && |sents| == |before| + k && OnWire(sents, n) && ends
        invariant forall i | |before| <= i < |sents| :: sents[i].mode == rounds[i - |before|].mode
        invariant k == 0 ==> writeTriggered == old(writeTriggered)
      {
        var rc, returned := WrWait(rounds[k].errors, rounds[k].patience);
        if !returned || rc != 0 {
          break;
        }
        ghost var s;
        ends, s := SendRound(rounds[k].mode, rounds[k].now, sents, n);
        if !ends {
          break;
        }
        sents := sents + [s];
      }
      SentAccepted(state);
      if ends {
        OutputMeans(sents, n);
      }
    }

    /** One round, as part of a run. */
    method SendRound(mode: Forward, now: nat, ghost sents: seq<Sent>, ghost n: Word) returns (ends: bool, ghost s: Sent)
      requires Valid() && state.sender.Ready? && OnWire(sents, n)
      modifies this, buffer
      ensures Valid() && old(state).sent <= state.sent && s.mode == mode
      ensures !ends ==> state.sender.Sending? && writeTriggered && !mode.CableInfo? && udpSize <= 0
      ensures ends ==> state.sender.Entering? && OnWire(sents + [s], n)
    {
      hide Inv, Output, Counter, Emission, Advanced, SentData, Unit, Ends;
      ghost var len := wrlen;
      LoopEnds(udpSize, len);
      ends := SendPass(mode, now);
      s := Sent(Frame([], now), mode);
      if ends {
        s := Sent(Frame(state.sent[|state.sent| - 1], now), mode);
        assert state.sent == old(state).sent + [s.frame.data];
        OutputGrows(ssrc, Unit(udpSize), sents, s, n);
      }
    }

    lemma SentAccepted(s: State)
      requires Inv(s)
      ensures s.sent <= s.accepted
    {
    }

    lemma OutputMeans(sents: seq<Sent>, n: Word)
      requires |ssrc| == 4 && OnWire(sents, n)
      ensures (forall k | 0 <= k < |sents| :: sents[k].mode.RtpTs?) ==>
                && Counted(wire, n) && (forall k | 0 <= k < |wire| :: Rtp.Complete(wire[k]))
                && Received(wire) == Joined(state.sent)
      ensures (forall k | 0 <= k < |sents| :: sents[k].mode.PlainTs?) ==> Joined(wire) == Joined(state.sent)
      ensures (forall k | 0 <= k < |sents| :: sents[k].mode.CableInfo?) ==> wire == [] && packetCount == n
    {
      hide Output, Counter, Wire, Cut, Counted, Received, Joined, Rtp.Complete, Unit;
      if forall k | 0 <= k < |sents| :: sents[k].mode.RtpTs? {
        RtpOutput(ssrc, Unit(udpSize), sents, n);
        RunSent(ssrc, Unit(udpSize), SentFrames(sents), n);
        DatasJoined(SentFrames(sents));
        assert Contents(SentFrames(sents)) == SentData(sents);
      }
      if forall k | 0 <= k < |sents| :: sents[k].mode.PlainTs? {
        PlainOutput(ssrc, Unit(udpSize), sents, n);
      }
      if forall k | 0 <= k < |sents| :: sents[k].mode.CableInfo? {
        ClientOutput(ssrc, Unit(udpSize), sents, n);
      }
    }
  }
}
