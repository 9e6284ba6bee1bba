/** The stream engine of `libmaru.c` on its own thread: transfers updated in place, a fifo that the
    writing side keeps using, and the packet planning loop. Each method is proved against the steps
    of `StreamModel`. */
module Streams {
  import opened Ring
  import opened FifoModel
  import opened FifoRely
  import opened PoolModel
  import opened Rates
  import opened Fifos
  import Bits
  import StreamModel
  import opened StreamSteps
  import StreamRuns

  /** The requested buffer size, or 32 KiB. */
  function BufferRequest(bufferSize: nat): (n: nat)
    ensures n > 0 && (bufferSize <= HALF_WORD ==> n <= HALF_WORD) && (bufferSize < WORD ==> n < WORD)
  {
    if bufferSize == 0 then 1024 * 32 else bufferSize
  }

  /** The requested fragment size, or a quarter of the buffer. */
  function Fragment(size: nat, fragmentSize: nat): (n: nat)
    ensures size < WORD && fragmentSize < WORD ==> n < WORD
  {
    if fragmentSize == 0 then size / 4 else fragmentSize
  }

  /** Bytes of a sample of all channels. */
  function SampleBytes(channels: nat, bitDepth: nat): nat {
    channels * bitDepth / 8
  }

  /** A format descriptor gives channels and bits as bytes. */
  lemma SampleSmall(channels: nat, bitDepth: nat)
    requires channels < 256 && bitDepth < 256
    ensures 66 * SampleBytes(channels, bitDepth) < WORD
  {
    MulMonotone(channels, 255, bitDepth);
  }

  /** Bytes of a millisecond, in 32-bit arithmetic. */
  function Frame(sampleRate: nat, channels: nat, bitDepth: nat): nat {
    U32(sampleRate * channels * bitDepth) / 8 / 1000
  }

  /** The packets allowed per transfer: those that a fragment takes, and one more. */
  function PacketLimit(frag: nat, frame: nat): (n: nat)
    ensures n <= StreamModel.MAX_PACKETS && (frame > 0 ==> n > 0)
  {
    if frame == 0 then 0 else Min(frag / frame + 1, StreamModel.MAX_PACKETS)
  }

  /** Default and requested sizes: 32 KiB, and the largest fragment that fits four times. */
  lemma SetupSizes(bufferSize: nat, fragmentSize: nat)
    ensures BufferRequest(bufferSize) == bufferSize || (bufferSize == 0 && BufferRequest(bufferSize) == 32768)
    ensures fragmentSize > 0 ==> Fragment(bufferSize, fragmentSize) == fragmentSize
    ensures 4 * Fragment(bufferSize, 0) <= bufferSize < 4 * (Fragment(bufferSize, 0) + 1)
  {
  }

  /** Whole bytes per sample and per millisecond, the latter of a rate in bits cut to 32 bits. */
  lemma SetupBytes(sampleRate: nat, channels: nat, bitDepth: nat)
    ensures 8 * SampleBytes(channels, bitDepth) <= channels * bitDepth < 8 * (SampleBytes(channels, bitDepth) + 1)
    ensures var bits, n := sampleRate * channels * bitDepth, Frame(sampleRate, channels, bitDepth);
            && 8000 * n <= bits % 0x1_0000_0000 < 8000 * (n + 1)
            && (bits < 0x1_0000_0000 ==> 8000 * n <= bits < 8000 * (n + 1))
  {
    var bits := sampleRate * channels * bitDepth;
    EightThousandths(U32(bits));
  }

  lemma EightThousandths(x: nat)
    ensures 8000 * (x / 8 / 1000) <= x < 8000 * (x / 8 / 1000 + 1)
  {
  }

  /** The packet limit is the least number of milliseconds that take more than a fragment, but no more
      than 32. */
  lemma PacketLimitExact(frag: nat, frame: nat)
    requires frame > 0
    ensures var n := PacketLimit(frag, frame);
            0 < n <= 32 && (n - 1) * frame <= frag && (n < 32 ==> frag < n * frame)
  {
    var q := frag / frame;
    assert q * frame <= frag < q * frame + frame;
    assert (q + 1) * frame == q * frame + frame;
    if q > 31 {
      MulMonotone(31, q, frame);
    }
  }

  /** A stream as setup leaves it: nothing in it and no transfers, a rate and a packet limit, and one
      value for both triggers. */
  function SetUp(size: nat, rate: Rate, count: nat, trigger: nat): StreamModel.Stream {
    var s := StreamModel.Init(size, rate, count);
    s.(f := s.f.(readTrigger := trigger, writeTrigger := trigger))
  }

  class Transfer {
    var active: bool
    const capacity: nat
    var region: Region
    var packetLen: seq<nat>
    const embeddedData: array<Byte>
    /** The stream position of the region. */
    ghost var start: nat

    constructor (required: nat)
      ensures fresh(embeddedData) && embeddedData.Length == capacity == required
      ensures Value() == Xfer(false, required, Region(0, 0, Null, 0), seq(required, _ => 0), [], 0)
    {
      active := false;
      capacity := required;
      region := Region(0, 0, Null, 0);
      packetLen := [];
      embeddedData := new Byte[required](_ => 0);
      start := 0;
      new;
      assert embeddedData[..] == seq(required, _ => 0);
    }

    ghost function Value(): Xfer
      reads this, embeddedData
    {
      Xfer(active, capacity, region, embeddedData[..], packetLen, start)
    }
  }

  class Stream {
    const fifo: Fifo
    var transfers: seq<Transfer>
    var listCapacity: nat
    var transCount: nat
    /** Whether the read descriptor of the fifo is enabled in the event loop. */
    var fdEnabled: bool
    var transferSpeed: nat
    var transferSpeedFraction: nat
    var transferSpeedMult: nat
    var enqueueCount: nat

    /** The meaning of the fields and where the stream thread stands. */
    ghost var state: StreamModel.Stream

    ghost function Embedded(): set<array<Byte>>
      reads this`transfers
    {
      set t | t in transfers :: t.embeddedData
    }

    /** The pool of the model is the list of transfers, which share no memory. */
    ghost predicate PoolIs(pool: seq<Xfer>)
      reads this`transfers, transfers, Embedded()
    {
      && |pool| == |transfers|
      && (forall i | 0 <= i < |transfers| :: transfers[i].Value() == pool[i])
      && (forall i, j | 0 <= i < j < |transfers| ::
            transfers[i] != transfers[j] && transfers[i].embeddedData != transfers[j].embeddedData)
      && (forall t | t in transfers :: t.embeddedData != fifo.buffer)
    }

    ghost predicate PoolCoupled()
      reads this, transfers, Embedded()
    {
      PoolIs(state.pool)
    }

    ghost predicate FieldsCoupled()
      reads this
    {
      && transCount == state.transCount && fdEnabled == state.fdEnabled
      && CurrentRate() == state.rate
      && enqueueCount == state.enqueueCount
      && |transfers| <= listCapacity
    }

    ghost predicate Valid()
      reads this, fifo, fifo.buffer, transfers, Embedded()
    {
      && fifo.Valid() && state.f == fifo.state
      && PoolCoupled() && FieldsCoupled()
      && StreamModel.StreamInv(state)
    }

    constructor (size: nat, sampleRate: nat, mult: nat, count: nat)
      requires 0 < size <= HALF_WORD && 66 * mult < WORD && count <= StreamModel.MAX_PACKETS
      ensures Valid() && fresh(fifo) && fresh(fifo.buffer) && transfers == []
      ensures state == StreamModel.Init(Bits.NextPow2(size), Start(sampleRate, mult), count)
    {
      hide Fits, SpeedOf, Bits.NextPow2, Bits.Exponent, Pow2, StreamModel.StreamInv;
      RatesFit(sampleRate, mult);
      Bits.RoundUpUsable(size);
      fifo := new Fifo(size);
      transfers, listCapacity := [], 0;
      transCount, fdEnabled := 0, true;
      transferSpeed, transferSpeedFraction := SpeedOf(sampleRate), SpeedOf(sampleRate);
      transferSpeedMult := mult;
      enqueueCount := count;
      state := StreamModel.Init(Bits.NextPow2(size), Start(sampleRate, mult), count);
      new;
      StreamRuns.InitKeeps(fifo.bufferSize, Start(sampleRate, mult), count);
    }

    /** Setup of a stream, behind the format check: default sizes, the packet limit, the fifo with the
        fragment size as both triggers, and the rate. Setup divides by the bytes of a millisecond, and
        traps if there are none. A ring without cells accepts no trigger. */
    static method InitStream(bufferSize: nat, fragmentSize: nat, sampleRate: nat, channels: nat, bitDepth: nat)
      returns (stream: Stream?, trapped: bool)
      requires bufferSize < WORD && fragmentSize < WORD && channels < 256 && bitDepth < 256
      ensures trapped <==> Frame(sampleRate, channels, bitDepth) == 0
      ensures trapped ==> stream == null
      ensures var size := BufferRequest(bufferSize);
              var frag := Fragment(size, fragmentSize);
              && (!trapped ==> (stream != null <==> 2 * Trigger(frag) < Bits.NextPow2(size)))
              && (stream != null ==>
                    && fresh(stream) && fresh(stream.fifo) && stream.Valid()
                    && stream.state == SetUp(Bits.NextPow2(size), Start(sampleRate, SampleBytes(channels, bitDepth)),
                                             PacketLimit(frag, Frame(sampleRate, channels, bitDepth)), Trigger(frag)))
    {
      hide Frame, SampleBytes, BufferRequest, Fragment, PacketLimit, Fits, Start, SpeedOf, Bits.NextPow2, U32,
           StreamModel.StreamInv, Fifo.Valid, TriggerOk, Trigger;
      trapped := Frame(sampleRate, channels, bitDepth) == 0;
      if trapped {
        return null, trapped;
      }
      var size := BufferRequest(bufferSize);
      var frag := Fragment(size, fragmentSize);
      Bits.RoundUpUsable(size);
      if size > HALF_WORD {
        NothingFits(frag, 1);
        return null, trapped;
      }
      SampleSmall(channels, bitDepth);
      var count := PacketLimit(frag, Frame(sampleRate, channels, bitDepth));
      stream := new Stream(size, sampleRate, SampleBytes(channels, bitDepth), count);
      var accepted := stream.SetTriggers(frag);
      if !accepted {
        return null, trapped;
      }
    }

    static lemma NothingFits(t: nat, other: nat)
      ensures !TriggerOk(t, other, 0)
    {
    }

    /** Both triggers set to one value, which is accepted exactly if both fit into the ring together:
        the two overlap tests rule out that a sum wraps around. */
    method SetTriggers(frag: nat) returns (accepted: bool)
      requires Valid() && frag < WORD && state.f.readTrigger == state.f.writeTrigger == 1
      modifies this`state, fifo
      ensures Valid() && state.f.size == old(state).f.size && accepted == (2 * Trigger(frag) < state.f.size)
      ensures accepted ==>
                var g := old(state).f.(readTrigger := Trigger(frag), writeTrigger := Trigger(frag));
                state == old(state).(f := g)
    {
      hide Fifo.Valid, StreamModel.StreamInv, TriggerOk, Trigger, FieldsCoupled, PoolCoupled,
           FifoModel.SetReadTrigger, FifoModel.SetWriteTrigger;
      SetupTriggers(state, frag);
      var status := SetReadTrigger(frag);
      if status != Success {
        return false;
      }
      status := SetWriteTrigger(frag);
      accepted := status == Success;
    }

    method SetReadTrigger(frag: nat) returns (status: Status)
      requires Valid() && frag < WORD
      modifies this`state, fifo
      ensures Valid() && state == old(state).(f := FifoModel.SetReadTrigger(old(state).f, frag))
      ensures status == Success <==> TriggerOk(frag, old(state).f.writeTrigger, old(state).f.size)
    {
      hide Fifo.Valid, StreamModel.StreamInv, TriggerOk, FifoModel.SetReadTrigger;
      fifo.StateSize();
      TriggerRely(state, SetReadTriggerOp(frag));
      status := fifo.SetReadTrigger(frag);
      state := state.(f := fifo.state);
    }

    method SetWriteTrigger(frag: nat) returns (status: Status)
      requires Valid() && frag < WORD
      modifies this`state, fifo
      ensures Valid() && state == old(state).(f := FifoModel.SetWriteTrigger(old(state).f, frag))
      ensures status == Success <==> TriggerOk(frag, old(state).f.readTrigger, old(state).f.size)
    {
      hide Fifo.Valid, StreamModel.StreamInv, TriggerOk, FifoModel.SetWriteTrigger;
      fifo.StateSize();
      TriggerRely(state, SetWriteTriggerOp(frag));
      status := fifo.SetWriteTrigger(frag);
      state := state.(f := fifo.state);
    }

    // Rate --------------------------------------------------------------------------------------

    ghost function CurrentRate(): Rate
      reads this
    {
      Rate(transferSpeed, transferSpeedFraction, transferSpeedMult)
    }

    /** Bytes of the next packet. */
    method StreamChunkSize() returns (toWrite: nat)
      ensures toWrite == ChunkSize(CurrentRate())
    {
      var newFraction := U32(transferSpeedFraction + transferSpeed % HALF);
      toWrite := U32(newFraction / HALF * transferSpeedMult);
    }

    method StreamChunkSizeFinalize()
      modifies this`transferSpeedFraction
      ensures CurrentRate()
              == Finalize(old(CurrentRate()))
    {
      transferSpeedFraction := U32(transferSpeedFraction + transferSpeed % HALF);
      transferSpeedFraction := transferSpeed / HALF * HALF + transferSpeedFraction % HALF;
    }

    /** The planning loop: as many packets as allowed and covered by `avail`, each of its due size. */
    method PlanPackets(avail: nat) returns (packetLen: seq<nat>, totalWrite: nat)
      modifies this`transferSpeedFraction
      ensures packetLen == Chunks(old(CurrentRate()), |packetLen|) && totalWrite == Sum(packetLen)
      ensures StreamModel.PlanOk(old(CurrentRate()), avail, enqueueCount, |packetLen|)
      ensures CurrentRate() == After(old(CurrentRate()), |packetLen|)
    {
      hide Sum, ChunkSize, Finalize;
      ghost var r := CurrentRate();
      var rest: nat := avail;
      packetLen, totalWrite := [], 0;
      SumNil();
      var toWrite := StreamChunkSize();
      while rest >= toWrite && |packetLen| < enqueueCount
        invariant packetLen == Chunks(r, |packetLen|) && totalWrite == Sum(packetLen)
        invariant CurrentRate() == After(r, |packetLen|)
        invariant toWrite == ChunkSize(After(r, |packetLen|))
        invariant rest + totalWrite == avail && |packetLen| <= enqueueCount
        decreases enqueueCount - |packetLen|
      {
        SumConcat(packetLen, [toWrite]);
        SumOne(toWrite);
        totalWrite := totalWrite + toWrite;
        packetLen := packetLen + [toWrite];
        rest := rest - toWrite;
        StreamChunkSizeFinalize();
        toWrite := StreamChunkSize();
      }
      SumConcat(packetLen, [toWrite]);
      SumOne(toWrite);
      assert Chunks(r, |packetLen| + 1) == packetLen + [toWrite];
    }

    // Pool --------------------------------------------------------------------------------------

    /** The first transfer of the list that is free and large enough. */
    method FindVacantTransfer(requiredBuffer: nat) returns (transfer: Transfer?, ghost slot: nat)
      requires PoolCoupled()
      ensures slot == Vacant(state.pool, requiredBuffer)
      ensures transfer == if Vacant(state.pool, requiredBuffer) < |transfers|
                          then transfers[Vacant(state.pool, requiredBuffer)] else null
    {
      for i := 0 to |transfers|
        invariant forall j | 0 <= j < i :: state.pool[j].active || state.pool[j].capacity < requiredBuffer
      {
        assert transfers[i].Value() == state.pool[i];
        if !transfers[i].active && transfers[i].capacity >= requiredBuffer {
          return transfers[i], Vacant(state.pool, requiredBuffer);
        }
      }
      transfer, slot := null, Vacant(state.pool, requiredBuffer);
    }

    /** Adding to the list, which doubles its room when full. */
    method AppendTransfer(trans: Transfer)
      requires |transfers| <= listCapacity
      modifies this`transfers, this`listCapacity
      ensures transfers == old(transfers) + [trans] && |transfers| <= listCapacity
      ensures listCapacity
              == if |old(transfers)| < old(listCapacity) then old(listCapacity) else old(listCapacity) * 2 + 1
    {
      if |transfers| >= listCapacity {
        listCapacity := listCapacity * 2 + 1;
      }
      transfers := transfers + [trans];
    }

    /** A new transfer with room for exactly the required bytes, at the end of the list. */
    method CreateTransfer(requiredBuffer: nat) returns (transfer: Transfer)
      requires PoolCoupled() && |transfers| <= listCapacity
      modifies this`transfers, this`listCapacity, this`state
      ensures PoolCoupled() && |transfers| <= listCapacity
      ensures fresh(transfer) && fresh(transfer.embeddedData) && transfers == old(transfers) + [transfer]
      ensures var x := Xfer(false, requiredBuffer, Region(0, 0, Null, 0), seq(requiredBuffer, _ => 0), [], 0);
              state == old(state).(pool := old(state).pool + [x])
    {
      hide StreamModel.StreamInv;
      transfer := new Transfer(requiredBuffer);
      AppendTransfer(transfer);
      state := state.(pool := state.pool + [transfer.Value()]);
      assert forall i | 0 <= i < |old(transfers)| :: transfers[i] == old(transfers)[i];
    }

    /** A transfer taken from the list, or else created. */
    method ObtainTransfer(requiredBuffer: nat) returns (transfer: Transfer, ghost slot: nat)
      requires PoolCoupled() && |transfers| <= listCapacity
      modifies this`transfers, this`listCapacity, this`state
      ensures PoolCoupled() && |transfers| <= listCapacity
      ensures state == old(state).(pool := Obtain(old(state).pool, requiredBuffer).0)
      ensures slot == Obtain(old(state).pool, requiredBuffer).1 < |transfers| && transfer == transfers[slot]
      ensures transfer in old(transfers) || (fresh(transfer) && fresh(transfer.embeddedData))
    {
      hide Vacant;
      var t: Transfer?;
      t, slot := FindVacantTransfer(requiredBuffer);
      if t == null {
        transfer := CreateTransfer(requiredBuffer);
      } else {
        transfer := t;
      }
    }

    // The engine --------------------------------------------------------------------------------

    /** Any number of operations of the writing side may happen here. */
    method OtherSideRuns()
      requires Valid()
      modifies this`state, fifo, fifo.buffer
      ensures Valid() && state == old(state).(f := state.f) && SameBooks(old(state), state)
      ensures old(state).f.readFd <= state.f.readFd
      ensures state.f.re == old(state).f.re && old(state).f.ReadAvail() <= state.f.ReadAvail()
    {
      hide Inv, StreamModel.StreamInv;
      WriterRunsHere();
      WriterRunsKeep(old(state), fifo.state);
      state := state.(f := fifo.state);
    }

    method WriterRunsHere()
      requires fifo.Valid() && PoolCoupled()
      modifies fifo, fifo.buffer
      ensures fifo.Valid() && PoolCoupled() && WriterRely(old(fifo.state), fifo.state)
    {
      hide Inv;
      fifo.WriterRuns();
    }

    /** One byte of a copy from cell `k` of the ring into the transfer being filled. */
    method CopyByte(t: Transfer, k: nat, i: nat, ghost slot: nat)
      requires Valid() && state.pc == StreamModel.Filling(slot, i) && slot < |transfers| && t == transfers[slot]
      requires i < StreamModel.ToCopy(t.region) && k == StreamModel.SourceCell(t.region, i)
      modifies this`state, fifo, fifo.buffer, t.embeddedData
      ensures Valid() && state.pc == StreamModel.Filling(slot, i + 1) && SameBooks(old(state), state)
    {
      hide Fifo.Valid, StreamModel.StreamInv, StreamModel.ToCopy, StreamModel.SourceCell;
      OtherSideRuns();
      TakeByte(t, k, i, slot);
    }

    method TakeByte(t: Transfer, k: nat, i: nat, ghost slot: nat)
      requires Valid() && state.pc == StreamModel.Filling(slot, i) && slot < |transfers| && t == transfers[slot]
      requires i < StreamModel.ToCopy(t.region) && k == StreamModel.SourceCell(t.region, i)
      modifies this`state, t.embeddedData
      ensures Valid() && state.pc == StreamModel.Filling(slot, i + 1) && SameBooks(old(state), state)
    {
      hide Inv, StreamModel.StreamInv, StreamModel.Next, StreamModel.Can, StreamModel.SourceCell, StreamModel.ToCopy,
           Sum, Slot, SameBooks, Pow2;
      CopyStep(state);
      t.embeddedData[i] := fifo.buffer[k];
      state := StreamModel.Next(state, StreamModel.CopyByte);
      assert forall j | 0 <= j < |transfers| && j != slot :: transfers[j].Value() == state.pool[j];
    }

    /** The copies that a split region needs; a contiguous one is read from the ring as it is. */
    method FillTransfer(t: Transfer, ghost slot: nat)
      requires Valid() && state.pc == StreamModel.Filling(slot, 0) && slot < |transfers| && t == transfers[slot]
      modifies this`state, fifo, fifo.buffer, t.embeddedData
      ensures Valid() && SameBooks(old(state), state)
      ensures state.pc == StreamModel.Filling(slot, StreamModel.ToCopy(t.region))
    {
      hide Inv, StreamModel.StreamInv, WriterRely;
      if t.region.second != Null {
        for i := 0 to t.region.firstSize
          invariant Valid() && SameBooks(old(state), state) && state.pc == StreamModel.Filling(slot, i)
        {
          CopyByte(t, t.region.first + i, i, slot);
        }
        for i := 0 to t.region.secondSize
          invariant Valid() && SameBooks(old(state), state)
          invariant state.pc == StreamModel.Filling(slot, t.region.firstSize + i)
        {
          CopyByte(t, i, t.region.firstSize + i, slot);
        }
      }
    }

    /** Takes a transfer for the locked region into use. */
    method PrepareTransfer(region: Region, packetLen: seq<nat>) returns (transfer: Transfer, ghost slot: nat)
      requires Valid() && state.pc.Locked? && state.pc.lens == packetLen && state.pc.region == region
      modifies this`transfers, this`listCapacity, this`state, transfers
      ensures Valid() && SameBooks(old(state), state)
      ensures state.pc == StreamModel.Filling(slot, 0) && slot < |transfers| && transfer == transfers[slot]
      ensures state == StreamModel.Next(old(state), StreamModel.Enqueue)
      ensures transfer.active && transfer.region == region && transfer.packetLen == packetLen
      ensures transfer.start == old(state).pc.start
      ensures transfer in old(transfers) || (fresh(transfer) && fresh(transfer.embeddedData))
    {
      hide Fifo.Valid, StreamModel.StreamInv, StreamModel.Next, StreamModel.Can, Obtain, SameBooks;
      var requiredBuffer := if region.secondSize != 0 then region.firstSize + region.secondSize else 0;
      ghost var s := state;
      EnqueueStep(s);
      transfer, slot := ObtainTransfer(requiredBuffer);
      LoadTransfer(transfer, slot, region, packetLen, s.pc.start, StreamModel.Next(s, StreamModel.Enqueue));
    }

    /** Marks a transfer as in use and sets it up for a region. */
    method LoadTransfer(transfer: Transfer, ghost slot: nat, region: Region, packetLen: seq<nat>,
                        ghost start: nat, ghost next: StreamModel.Stream)
      requires PoolCoupled() && slot < |transfers| && transfer == transfers[slot]
      requires var x := state.pool[slot].(active := true, region := region, lens := packetLen, start := start);
               next.pool == state.pool[slot := x]
      modifies transfer, this`state
      ensures PoolCoupled() && state == next
      ensures transfer.active && transfer.region == region && transfer.packetLen == packetLen && transfer.start == start
    {
      assert transfer.Value() == state.pool[slot];
      transfer.active := true;
      transfer.packetLen := packetLen;
      transfer.region := region;
      transfer.start := start;
      state := next;
      assert forall j | 0 <= j < |transfers| && j != slot :: transfers[j].Value() == state.pool[j];
    }

    /** Hands the filled transfer to the hardware and stops listening when that makes four. */
    method SubmitTransfer(transfer: Transfer, ghost slot: nat)
      requires Valid() && slot < |transfers| && transfer == transfers[slot]
      requires state.pc == StreamModel.Filling(slot, StreamModel.ToCopy(transfer.region))
      modifies this`state, this`transCount, this`fdEnabled
      ensures Valid() && StreamModel.Can(old(state), StreamModel.Submit)
      ensures |old(state).f.cells| == old(state).f.size > 0
      ensures state == StreamModel.Next(old(state), StreamModel.Submit)
      ensures state.queue == old(state).queue + [slot] && state.pool == old(state).pool && state.f == old(state).f
      ensures state.packets == old(state).packets + |transfer.packetLen| && old(state).submitted <= state.submitted
      ensures state.rate == old(state).rate && state.enqueueCount == old(state).enqueueCount && state.pc.Acking?
    {
      hide Fifo.Valid, StreamModel.StreamInv, StreamModel.Next, StreamModel.Can;
      SubmitStep(state);
      assert transfer.Value() == state.pool[slot];
      transCount := transCount + 1;
      if transCount >= StreamModel.MAX_TRANSFERS {
        fdEnabled := false;
      }
      state := StreamModel.Next(state, StreamModel.Submit);
    }

    /** The newest transfer in flight has these packets, and its region begins at position `start`. */
    ghost predicate Newest(s: StreamModel.Stream, lens: seq<nat>, start: nat) {
      && s.queue != [] && s.queue[|s.queue| - 1] < |s.pool|
      && var x := s.pool[s.queue[|s.queue| - 1]]; x.active && x.lens == lens && x.start == start
    }

    /** Enqueues a transfer for the locked region. */
    method EnqueueTransfer(region: Region, packetLen: seq<nat>)
      requires Valid() && state.pc.Locked? && state.pc.lens == packetLen && state.pc.region == region
      modifies this`transfers, this`listCapacity, this`state, this`transCount, this`fdEnabled
      modifies fifo, fifo.buffer, transfers, Embedded()
      ensures Valid() && state.pc == StreamModel.Acking
      ensures |state.queue| == |old(state).queue| + 1 && state.queue[..|old(state).queue|] == old(state).queue
      ensures state.packets == old(state).packets + |packetLen| && old(state).submitted <= state.submitted
      ensures state.rate == old(state).rate && state.enqueueCount == old(state).enqueueCount
      ensures Newest(state, packetLen, old(state).pc.start) && old(state).f.log <= state.f.log
    {
      hide Fifo.Valid, StreamModel.StreamInv, StreamModel.Next, StreamModel.Can, StreamModel.ToCopy, Sum, Obtain;
      var transfer, slot := PrepareTransfer(region, packetLen);
      FillTransfer(transfer, slot);
      assert transfer.Value() == state.pool[slot];
      SubmitTransfer(transfer, slot);
    }

    /** Looks at what there is to read and plans the packets of the next transfer. */
    method PlanTransfer() returns (packetLen: seq<nat>, totalWrite: nat)
      requires Valid() && state.pc.Waiting? && fdEnabled && state.f.readFd > 0
      modifies this`state, this`transferSpeedFraction
      ensures Valid() && state.pc == if packetLen == [] then StreamModel.Acking else StreamModel.Planned(packetLen)
      ensures state == old(state).(pc := state.pc, rate := After(old(state).rate, |packetLen|))
      ensures totalWrite == Sum(packetLen) && |packetLen| <= enqueueCount
      ensures packetLen == Chunks(old(state).rate, |packetLen|)
      ensures StreamModel.PlanOk(old(state).rate, old(state).f.ReadAvail(), old(state).enqueueCount, |packetLen|)
    {
      hide Fifo.Valid, StreamModel.StreamInv, StreamModel.Next, StreamModel.Can, Sum, Chunks, After;
      var avail := fifo.ReadAvail();
      packetLen, totalWrite := PlanPackets(avail);
      WakeStep(state, |packetLen|);
      state := StreamModel.Next(state, StreamModel.Wake(|packetLen|));
    }

    /** Locks the region of a planned transfer. */
    method LockRegion(totalWrite: nat) returns (region: Region)
      requires Valid() && state.pc.Planned? && totalWrite == Sum(state.pc.lens)
      modifies this`state, fifo
      ensures Valid() && |old(state).f.cells| == old(state).f.size > 0
      ensures state == StreamModel.Next(old(state), StreamModel.Lock)
      ensures state.pc.Locked? && state.pc.lens == old(state).pc.lens && state.pc.region == region
      ensures state.pc.start == old(state).f.re && SameBooks(old(state), state)
    {
      hide Fifo.Valid, StreamModel.StreamInv, StreamModel.Next, StreamModel.Can, Sum, RegionAt, ReadRegion;
      fifo.StateSize();
      LockStep(state);
      region := fifo.ReadLock(totalWrite);
      state := StreamModel.Next(state, StreamModel.Lock);
    }

    /** Acknowledges the notification; fails once the fifo is dead. */
    method Acknowledge() returns (status: Status)
      requires Valid() && state.pc.Acking?
      modifies this`state, fifo`readFd, fifo`state
      ensures Valid() && status == if old(state).f.dead then ErrorDead else Success
      ensures if status == Success then StreamModel.Can(old(state), StreamModel.Ack)
                && |old(state).f.cells| == old(state).f.size > 0
                && state == StreamModel.Next(old(state), StreamModel.Ack)
              else state == old(state)
      ensures status == Success && state.f.ReadAvail() < state.f.readTrigger ==> state.f.readFd == 0
    {
      hide Fifo.Valid, StreamModel.StreamInv, StreamModel.Next, StreamModel.Can;
      AckStep(state);
      status := fifo.ReadNotifyAck();
      if status == Success {
        state := StreamModel.Next(state, StreamModel.Ack);
      }
    }

    /** What handling a notification adds, with `avail` bytes seen to be readable: the largest allowed
        number of due packets that they cover, and a transfer of exactly these from the next unread byte
        on, if there are any. */
    ghost predicate Handled(s: StreamModel.Stream, t: StreamModel.Stream, avail: int) {
      var k := t.packets - s.packets;
      && s.f.ReadAvail() <= avail <= |t.f.log| - s.f.re
      && 0 <= k && StreamModel.PlanOk(s.rate, avail, s.enqueueCount, k)
      && t.rate == After(s.rate, k) && t.enqueueCount == s.enqueueCount
      && s.submitted <= t.submitted
      && if k == 0 then t.queue == s.queue
         else |t.queue| == |s.queue| + 1 && t.queue[..|s.queue|] == s.queue && Newest(t, Chunks(s.rate, k), s.f.re)
    }

    /** The first part of `HandleStream`: planning, locking and enqueueing. */
    method HandlePackets() returns (ghost avail: int)
      requires Valid() && state.pc.Waiting? && fdEnabled && state.f.readFd > 0
      modifies this, fifo, fifo.buffer, transfers, Embedded()
      ensures Valid() && state.pc.Acking? && Handled(old(state), state, avail)
    {
      hide Fifo.Valid, StreamModel.StreamInv, Sum, Chunks, After, PoolCoupled, FieldsCoupled, StreamModel.PlanOk;
      OtherSideRuns();
      avail := state.f.ReadAvail();
      LogWritten(state);
      var packetLen, totalWrite := PlanTransfer();
      if |packetLen| > 0 {
        LockAndEnqueue(packetLen, totalWrite);
      }
    }

    lemma LogWritten(s: StreamModel.Stream)
      requires StreamModel.StreamInv(s)
      ensures |s.f.log| == s.f.wb
    {
    }

    method LockAndEnqueue(packetLen: seq<nat>, totalWrite: nat)
      requires Valid() && state.pc == StreamModel.Planned(packetLen) && totalWrite == Sum(packetLen)
      modifies this`transfers, this`listCapacity, this`state, this`transCount, this`fdEnabled
      modifies fifo, fifo.buffer, transfers, Embedded()
      ensures Valid() && state.pc == StreamModel.Acking
      ensures |state.queue| == |old(state).queue| + 1 && state.queue[..|old(state).queue|] == old(state).queue
      ensures state.packets == old(state).packets + |packetLen| && old(state).submitted <= state.submitted
      ensures state.rate == old(state).rate && state.enqueueCount == old(state).enqueueCount
      ensures Newest(state, packetLen, old(state).f.re) && old(state).f.log <= state.f.log
    {
      hide Fifo.Valid, StreamModel.StreamInv, Sum, PoolCoupled, FieldsCoupled, Newest;
      OtherSideRuns();
      var region := LockRegion(totalWrite);
      OtherSideRuns();
      EnqueueTransfer(region, packetLen);
    }

    /** What the stream thread does on a notification, while the writing side keeps running: it plans
        packets, locks and enqueues them, and acknowledges. On a killed fifo it ends in the state in
        which the stream is torn down. */
    method HandleStream() returns (status: Status, ghost avail: int)
      requires Valid() && state.pc.Waiting? && fdEnabled && state.f.readFd > 0
      modifies this, fifo, fifo.buffer, transfers, Embedded()
      ensures Valid() && Handled(old(state), state, avail)
      ensures if status == Success then state.pc.Waiting? && !state.f.dead else state.f.dead && state.pc.Acking?
      ensures status == Success && state.f.ReadAvail() < state.f.readTrigger ==> state.f.readFd == 0
    {
      hide Fifo.Valid, StreamModel.StreamInv, PoolCoupled, FieldsCoupled, After, Chunks, Sum, StreamModel.PlanOk;
      avail := HandlePackets();
      OtherSideRuns();
      status := Acknowledge();
    }

    /** The completion of the oldest transfer: it is free again, the stream listens again, and its
        region goes back to the writing side. */
    method TransferStreamCb(transfer: Transfer) returns (status: Status)
      requires Valid() && state.pc.Waiting? && state.queue != [] && state.queue[0] < |transfers|
      requires transfer == transfers[state.queue[0]]
      modifies this`state, this`transCount, this`fdEnabled, fifo, transfer`active
      ensures Valid() && status == Success
      ensures StreamModel.Can(old(state), StreamModel.Complete) && |old(state).f.cells| == old(state).f.size > 0
      ensures state == StreamModel.Next(old(state), StreamModel.Complete)
    {
      hide Fifo.Valid, StreamModel.StreamInv, StreamModel.Next, StreamModel.Can, ReadRegion, UnlockRead;
      StreamRuns.CompleteStep(state);
      ReleaseTransfer(transfer, state.queue[0], StreamModel.Next(state, StreamModel.Complete));
      transCount := transCount - 1;
      fdEnabled := true;
      status := fifo.ReadUnlock(transfer.region, 0);
    }

    /** Marks a transfer as free. */
    method ReleaseTransfer(transfer: Transfer, ghost slot: nat, ghost next: StreamModel.Stream)
      requires PoolCoupled() && slot < |transfers| && transfer == transfers[slot]
      requires next.pool == state.pool[slot := state.pool[slot].(active := false)]
      modifies transfer`active, this`state
      ensures PoolCoupled() && state == next
    {
      assert transfer.Value() == state.pool[slot];
      transfer.active := false;
      state := next;
      assert forall j | 0 <= j < |transfers| && j != slot :: transfers[j].Value() == state.pool[j];
    }
  }
}
