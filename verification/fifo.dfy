/** The fifo itself (`fifo.c`): wrapped 32-bit indices into a byte array, proved against
    `FifoModel`. Each method up to `Kill` is one critical section of the mutex. */
module Fifos {
  import opened Ring
  import opened FifoModel
  import opened FifoRely
  import Bits
  import FifoLayout

  /** The error codes of the fifo calls. */
  datatype Status = Success | ErrorInvalid | ErrorDead

  /** How a wait for a notification ends: with a positive counter, or in an error. */
  datatype Poll = PollIn | PollError

  /** Why a blocking transfer returns. */
  datatype Ending = Complete | Killed | PollFailed

  /** A transfer of a blocking call: the bytes still wanted, and the room or the bytes that it found. */
  datatype Transfer = Transfer(wanted: nat, seen: nat) {
    function Moves(): nat {
      Min(wanted, seen)
    }
  }

  function Moved(passes: seq<Transfer>): nat {
    if passes == [] then 0 else Moved(passes[..|passes| - 1]) + passes[|passes| - 1].Moves()
  }

  /** The transfers of a blocking call for `total` bytes that has moved `moved` of them: each wants what
      the ones before have left, and takes as much of it as it finds. */
  ghost predicate Passes(total: nat, moved: nat, passes: seq<Transfer>) {
    && moved == Moved(passes) <= total
    && forall k | 0 <= k < |passes| :: passes[k].wanted > 0 && Moved(passes[..k]) + passes[k].wanted == total
  }

  /** The last transfer found as much as was wanted. */
  predicate Sufficed(passes: seq<Transfer>) {
    passes != [] && passes[|passes| - 1].wanted <= passes[|passes| - 1].seen
  }

  /** The first `n` waits do not fail. */
  ghost predicate AllWell(waits: nat -> Poll, n: nat) {
    forall k: nat | k < n :: waits(k) == PollIn
  }

  /** Each of these transfers behind the first one moves something. */
  predicate AllMove(passes: seq<Transfer>) {
    forall k | 0 < k < |passes| :: passes[k].seen > 0
  }

  lemma AllMoveSnoc(passes: seq<Transfer>, t: Transfer)
    requires AllMove(passes) && (passes == [] || t.seen > 0)
    ensures AllMove(passes + [t])
  {
  }

  /** A blocking call with waits that end as `waits` says, one in front of each transfer. The first
      transfer finds at least what was at hand `before`, and what the last one found and did not take is
      still at hand `after` it. A transfer behind an acknowledged one moves something, unless the fifo
      died before it. A failed wait ends the call. */
  ghost predicate Served(total: nat, moved: nat, waits: nat -> Poll, ending: Ending, passes: seq<Transfer>,
                         before: int, after: int)
  {
    && Passes(total, moved, passes)
    && AllWell(waits, |passes|)
    && (if ending == Killed then passes != [] && AllMove(passes[..|passes| - 1]) else AllMove(passes))
    && (ending == PollFailed ==> waits(|passes|) == PollError)
    && (if passes == [] then before <= after
        else var last := passes[|passes| - 1]; before <= passes[0].seen && last.seen <= after + last.Moves())
  }

  lemma ServedNone(total: nat, waits: nat -> Poll, before: int)
    ensures Served(total, 0, waits, Complete, [], before, before)
  {
  }

  lemma ServedLater(total: nat, moved: nat, waits: nat -> Poll, passes: seq<Transfer>, before: int,
                    after: int, later: int)
    requires Served(total, moved, waits, Complete, passes, before, after) && after <= later
    ensures Served(total, moved, waits, Complete, passes, before, later)
    ensures waits(|passes|) == PollError ==> Served(total, moved, waits, PollFailed, passes, before, later)
  {
    hide Passes, AllMove, AllWell;
  }

  /** One more transfer, which finds at least what is at hand. */
  lemma ServedMore(total: nat, moved: nat, waits: nat -> Poll, passes: seq<Transfer>, before: int,
                   after: int, t: Transfer, later: int)
    requires Served(total, moved, waits, Complete, passes, before, after) && moved + t.wanted == total
    requires t.wanted > 0 && waits(|passes|) == PollIn && after <= t.seen <= later + t.Moves()
    ensures Served(total, moved + t.Moves(), waits, Killed, passes + [t], before, later)
    ensures passes == [] || t.seen > 0 ==>
              Served(total, moved + t.Moves(), waits, Complete, passes + [t], before, later)
    ensures moved + t.Moves() == total <==> Sufficed(passes + [t])
  {
    OneMorePass(total, moved, passes, t);
    AllWellSnoc(waits, |passes|);
    LastOf(passes, t);
    if passes == [] || t.seen > 0 {
      AllMoveSnoc(passes, t);
    }
    hide Passes, AllMove, AllWell;
  }

  lemma LastOf(passes: seq<Transfer>, t: Transfer)
    ensures var more := passes + [t];
            && more[..|more| - 1] == passes && more[|more| - 1] == t && more[0] == if passes == [] then t else passes[0]
  {
  }

  lemma AllWellSnoc(waits: nat -> Poll, n: nat)
    requires AllWell(waits, n) && waits(n) == PollIn
    ensures AllWell(waits, n + 1)
  {
  }

  lemma OneMorePass(total: nat, moved: nat, passes: seq<Transfer>, t: Transfer)
    requires Passes(total, moved, passes) && t.wanted > 0 && moved + t.wanted == total
    ensures Passes(total, moved + t.Moves(), passes + [t])
  {
    hide Moved;
    var all := passes + [t];
    forall k | 0 <= k <= |passes| ensures all[..k] == passes[..k] {
    }
    assert passes[..|passes|] == passes;
    MovedSnoc(passes, t);
  }

  lemma MovedSnoc(passes: seq<Transfer>, t: Transfer)
    ensures Moved(passes + [t]) == Moved(passes) + t.Moves()
  {
    assert (passes + [t])[..|passes|] == passes;
  }

  class Fifo {
    const buffer: array<Byte>
    const bufferSize: nat
    const bufferMask: nat
    var readLockBegin: nat
    var readLockEnd: nat
    var writeLockBegin: nat
    var writeLockEnd: nat
    var writeFd: nat
    var readFd: nat
    var readTrigger: nat
    var writeTrigger: nat
    var dead: bool

    /** The base-two logarithm of the buffer size. */
    ghost const bits: nat
    /** The meaning of the fields. */
    ghost var state: State

    ghost predicate Valid()
      reads this, buffer
    {
      && Inv(state)
      && bufferSize == state.size == Pow2(bits) == buffer.Length
      && bufferMask == bufferSize - 1
      && readLockBegin == Slot(state.rb, bufferSize)
      && readLockEnd == Slot(state.re, bufferSize)
      && writeLockBegin == Slot(state.wb, bufferSize)
      && writeLockEnd == Slot(state.we, bufferSize)
      && readFd == state.readFd && writeFd == state.writeFd
      && readTrigger == state.readTrigger && writeTrigger == state.writeTrigger
      && dead == state.dead
      && buffer[..] == state.cells
    }

    lemma StateSize()
      requires Valid()
      ensures bufferSize == state.size
    {
    }

    constructor (size: nat)
      requires 0 < size < WORD
      ensures fresh(buffer) && bufferSize == buffer.Length == Bits.NextPow2(size)
      ensures state == New(Bits.NextPow2(size))
      ensures size <= HALF_WORD ==> Valid()
    {
      Bits.RoundUpUsable(size);
      bits := Bits.Exponent(size);
      bufferSize := Bits.NextPow2(size);
      bufferMask := U32(Bits.NextPow2(size) - 1);
      readLockBegin, readLockEnd, writeLockBegin, writeLockEnd := 0, 0, 0, 0;
      readTrigger, writeTrigger := 1, 1;
      writeFd, readFd := 1, 0;
      dead := false;
      buffer := new Byte[Bits.NextPow2(size)](_ => 0);
      state := New(Bits.NextPow2(size));
      new;
      if size <= HALF_WORD {
        NewInv(bufferSize);
      }
      assert buffer[..] == state.cells;
    }

    /** `maru_fifo_new`: null for nothing, a ring without any cell beyond 2^31, and otherwise a fifo with
        at least the requested room. */
    static method Create(size: nat) returns (fifo: Fifo?)
      requires size < WORD
      ensures size == 0 <==> fifo == null
      ensures fifo != null ==> fresh(fifo) && fresh(fifo.buffer) && fifo.bufferSize == fifo.buffer.Length
      ensures fifo != null && size <= HALF_WORD ==>
                && fifo.Valid() && fifo.state == New(Pow2(Bits.Exponent(size)))
                && size <= fifo.state.size == fifo.bufferSize < 2 * size
      ensures size > HALF_WORD ==> fifo.bufferSize == 0 && !fifo.Valid()
    {
      if size == 0 {
        return null;
      }
      Bits.RoundUpUsable(size);
      fifo := new Fifo(size);
    }

    // Critical sections -------------------------------------------------------------------------

    /** The distance from one index to another, as both avail helpers compute it. */
    function Distance(x: int): nat
    {
      And(U32(x), bufferMask)
    }

    lemma DistanceExact(a: nat, b: nat, x: int)
      requires bufferSize == Pow2(bits) <= HALF_WORD && bufferMask == bufferSize - 1
      requires a <= b < a + bufferSize
      requires x == Slot(b, bufferSize) + bufferSize - Slot(a, bufferSize)
      ensures Distance(x) == b - a
    {
      SlotStep(a, b - a, bufferSize);
      MaskWraps(x, bits);
    }

    lemma WriteDistanceExact(x: int)
      requires bufferSize == Pow2(bits) == state.size <= HALF_WORD && bufferMask == bufferSize - 1 && Shape(state)
      requires x == Slot(state.rb, bufferSize) + bufferSize - Slot(state.we, bufferSize) - 1
      ensures Distance(x) == state.WriteAvail()
    {
      hide And, Pow2, Sum;
      SlotStep(state.rb, state.we - state.rb, bufferSize);
      MaskWraps(x, bits);
    }

    method ReadAvail() returns (n: nat)
      requires Valid()
      ensures n == state.ReadAvail()
    {
      DistanceExact(state.re, state.wb, writeLockBegin + bufferSize - readLockEnd);
      n := Distance(writeLockBegin + bufferSize - readLockEnd);
    }

    method WriteAvail() returns (n: nat)
      requires Valid()
      ensures n == state.WriteAvail()
    {
      WriteDistanceExact(readLockBegin + bufferSize - writeLockEnd - 1);
      n := Distance(readLockBegin + bufferSize - writeLockEnd - 1);
    }

    /** Bytes between the reader's oldest byte and the writer's newest. */
    method BufferedSize() returns (n: nat)
      requires Valid()
      ensures n == state.we - state.rb
    {
      var avail := WriteAvail();
      n := bufferSize - avail - 1;
    }

    method WriteLock(size: nat) returns (region: Region)
      requires Valid() && size <= state.WriteAvail()
      modifies this
      ensures Valid() && state == LockWrite(old(state), size)
      ensures region == RegionAt(old(state).we, size, bufferSize)
      ensures region == WriteRegion(state, |old(state).writeSizes|)
    {
      hide Slot, Sum, And, Pow2, U32;
      var availFirst := bufferSize - writeLockEnd;
      var writeFirst := size;
      if writeFirst > availFirst {
        writeFirst := availFirst;
      }
      var writeSecond := size - writeFirst;
      region := Region(writeLockEnd, writeFirst, if writeSecond != 0 then RingStart else Null, writeSecond);
      FifoLayout.LockMovesEnd(state.we, size, bufferSize, bits);
      if region.secondSize != 0 {
        writeLockEnd := region.secondSize;
      } else {
        writeLockEnd := Distance(writeLockEnd + region.firstSize);
      }
      LockWriteKeeps(state, size);
      state := LockWrite(state, size);
      assert state.writeSizes[..|old(state).writeSizes|] == old(state).writeSizes;
    }

    /** Succeeds exactly if only empty regions were locked before region `i` and are still
        outstanding; otherwise nothing changes. */
    method WriteUnlock(region: Region, ghost i: nat) returns (status: Status)
      requires Valid() && i < |state.writeSizes| && region == WriteRegion(state, i)
      modifies this
      ensures Valid() && state == UnlockWrite(old(state), i)
      ensures status == if Oldest(old(state).writeSizes, i) then Success else ErrorInvalid
      ensures status != Success ==> state == old(state)
    {
      hide Slot, Sum, And, Pow2, U32, Peek, Oldest, Stored, RegionAt;
      FifoLayout.UnlockArithmetic(state.wb, state.writeSizes, i, bufferSize, bits);
      if writeLockBegin != region.first {
        return ErrorInvalid;
      }
      var newBegin := Distance(writeLockBegin + region.firstSize);
      if region.secondSize != 0 && newBegin != 0 {
        return ErrorInvalid;
      }
      newBegin := newBegin + region.secondSize;
      writeLockBegin := newBegin;
      UnlockWriteKeeps(state, i);
      state := UnlockWrite(state, i);
      DistanceExact(state.re, state.wb, writeLockBegin + bufferSize - readLockEnd);
      if Distance(writeLockBegin + bufferSize - readLockEnd) >= readTrigger {
        readFd := readFd + 1;
      }
      status := Success;
    }

    method ReadLock(size: nat) returns (region: Region)
      requires Valid() && size <= state.ReadAvail()
      modifies this
      ensures Valid() && state == LockRead(old(state), size)
      ensures region == RegionAt(old(state).re, size, bufferSize)
      ensures region == ReadRegion(state, |old(state).readSizes|)
    {
      hide Slot, Sum, And, Pow2, U32;
      var availFirst := bufferSize - readLockEnd;
      var readFirst := size;
      if readFirst > availFirst {
        readFirst := availFirst;
      }
      var readSecond := size - readFirst;
      region := Region(readLockEnd, readFirst, if readSecond != 0 then RingStart else Null, readSecond);
      FifoLayout.LockMovesEnd(state.re, size, bufferSize, bits);
      if region.secondSize != 0 {
        readLockEnd := region.secondSize;
      } else {
        readLockEnd := Distance(readLockEnd + region.firstSize);
      }
      LockReadKeeps(state, size);
      state := LockRead(state, size);
      assert state.readSizes[..|old(state).readSizes|] == old(state).readSizes;
    }

    /** Succeeds exactly if only empty regions were locked before region `i` and are still
        outstanding; otherwise nothing changes. */
    method ReadUnlock(region: Region, ghost i: nat) returns (status: Status)
      requires Valid() && i < |state.readSizes| && region == ReadRegion(state, i)
      modifies this
      ensures Valid() && state == UnlockRead(old(state), i)
      ensures status == if Oldest(old(state).readSizes, i) then Success else ErrorInvalid
      ensures status != Success ==> state == old(state)
    {
      hide Slot, Sum, And, Pow2, U32, Peek, Oldest, Stored, RegionAt;
      FifoLayout.UnlockArithmetic(state.rb, state.readSizes, i, bufferSize, bits);
      if readLockBegin != region.first {
        return ErrorInvalid;
      }
      var newBegin := Distance(readLockBegin + region.firstSize);
      if region.secondSize != 0 && newBegin != 0 {
        return ErrorInvalid;
      }
      newBegin := newBegin + region.secondSize;
      readLockBegin := newBegin;
      UnlockReadKeeps(state, i);
      state := UnlockRead(state, i);
      WriteDistanceExact(readLockBegin + bufferSize - writeLockEnd - 1);
      if Distance(readLockBegin + bufferSize - writeLockEnd - 1) >= writeTrigger {
        writeFd := writeFd + 1;
      }
      status := Success;
    }

    /** Clears the reader's counter if there is too little to read, unless the fifo is dead. */
    method ReadNotifyAck() returns (status: Status)
      requires Valid() && state.readFd > 0
      modifies this`readFd, this`state
      ensures Valid() && state == AckRead(old(state))
      ensures status == if state.dead then ErrorDead else Success
      ensures ReadSettled(state)
      ensures !dead && state.ReadAvail() < readTrigger ==> readFd == 0
      ensures dead || state.ReadAvail() >= readTrigger ==> readFd == old(readFd)
    {
      hide Slot, Sum;
      status := if dead then ErrorDead else Success;
      DistanceExact(state.re, state.wb, writeLockBegin + bufferSize - readLockEnd);
      SameDataKeeps(state, AckRead(state));
      if !dead {
        if Distance(writeLockBegin + bufferSize - readLockEnd) < readTrigger {
          readFd := 0;
        }
      }
      state := AckRead(state);
    }

    method WriteNotifyAck() returns (status: Status)
      requires Valid() && state.writeFd > 0
      modifies this`writeFd, this`state
      ensures Valid() && state == AckWrite(old(state))
      ensures status == if state.dead then ErrorDead else Success
      ensures WriteSettled(state)
      ensures !dead && state.WriteAvail() < writeTrigger ==> writeFd == 0
      ensures dead || state.WriteAvail() >= writeTrigger ==> writeFd == old(writeFd)
    {
      hide Slot, Sum;
      status := if dead then ErrorDead else Success;
      WriteDistanceExact(readLockBegin + bufferSize - writeLockEnd - 1);
      SameDataKeeps(state, AckWrite(state));
      if !dead {
        if Distance(readLockBegin + bufferSize - writeLockEnd - 1) < writeTrigger {
          writeFd := 0;
        }
      }
      state := AckWrite(state);
    }

    method KillNotification()
      requires Valid()
      modifies this
      ensures Valid() && state == Kill(old(state))
    {
      hide Slot, Sum;
      dead := true;
      writeFd := writeFd + 1;
      readFd := readFd + 1;
      SameDataKeeps(state, Kill(state));
      state := Kill(state);
    }

    method SetWriteTrigger(size: nat) returns (status: Status)
      requires Valid() && size < WORD
      modifies this
      ensures Valid() && state == FifoModel.SetWriteTrigger(old(state), size)
      ensures status == Success <==> TriggerOk(size, old(state).readTrigger, bufferSize)
    {
      hide Slot, Sum, U32;
      var t := size;
      if t == 0 {
        t := 1;
      }
      if U32(t + readTrigger) >= bufferSize {
        return ErrorInvalid;
      }
      writeTrigger := t;
      SameDataKeeps(state, FifoModel.SetWriteTrigger(state, size));
      state := FifoModel.SetWriteTrigger(state, size);
      status := Success;
    }

    method SetReadTrigger(size: nat) returns (status: Status)
      requires Valid() && size < WORD
      modifies this
      ensures Valid() && state == FifoModel.SetReadTrigger(old(state), size)
      ensures status == Success <==> TriggerOk(size, old(state).writeTrigger, bufferSize)
    {
      hide Slot, Sum, U32;
      var t := size;
      if t == 0 {
        t := 1;
      }
      if U32(t + writeTrigger) >= bufferSize {
        return ErrorInvalid;
      }
      readTrigger := t;
      SameDataKeeps(state, FifoModel.SetReadTrigger(state, size));
      state := FifoModel.SetReadTrigger(state, size);
      status := Success;
    }

    // The other side ----------------------------------------------------------------------------

    /** Any number of operations of the reading side may happen here. */
    method ReaderRuns()
      requires Valid()
      modifies this
      ensures Valid() && ReaderRely(old(state), state)
    {
    }

    /** Any number of operations of the writing side may happen here. */
    method WriterRuns()
      requires Valid()
      modifies this, buffer
      ensures Valid() && WriterRely(old(state), state)
    {
    }

    /** A wait for the writer's counter, with the given outcome, while the reading side runs. A kill is
        one way in which that side can end the wait. */
    method PollWritable(outcome: Poll)
      requires Valid()
      modifies this
      ensures Valid() && ReaderRely(old(state), state)
      ensures outcome == PollIn ==> state.writeFd > 0
    {
      if outcome == PollIn && writeFd == 0 {
        KillNotification();
      }
    }

    /** A wait for the reader's counter. */
    method PollReadable(outcome: Poll)
      requires Valid()
      modifies this, buffer
      ensures Valid() && WriterRely(old(state), state)
      ensures outcome == PollIn ==> state.readFd > 0
    {
      if outcome == PollIn && readFd == 0 {
        KillNotification();
      }
    }

    // Transfers ---------------------------------------------------------------------------------

    /** One byte of a copy into cell `k`, which holds the locked position `p`. */
    method StoreByte(k: nat, b: Byte, ghost p: nat)
      requires Valid() && state.wb <= p < state.we && k == Slot(p, bufferSize)
      modifies this`state, buffer
      ensures Valid() && state == Store(old(state), p, b)
    {
      hide Slot, Sum;
      StoreKeeps(state, p, b);
      buffer[k] := b;
      state := Store(state, p, b);
      assert buffer[..] == state.cells;
    }

    /** `memcpy` into the cells from `cell` on, which hold the locked positions from `start` bytes
        into the write region on. The reader keeps running. */
    method CopyIn(cell: nat, data: seq<Byte>, ghost start: nat)
      requires Valid() && state.wb + start + |data| <= state.we
      requires |data| > 0 ==> cell == Slot(state.wb + start, bufferSize) && cell + |data| <= bufferSize
      modifies this, buffer
      ensures Valid() && WriteSideStill(old(state), state)
      ensures Peek(state, state.wb, start + |data|) == Peek(old(state), state.wb, start) + data
    {
      hide Slot, Sum, Peek, Stored, Store, RegionAt;
      for i := 0 to |data|
        invariant Valid() && WriteSideStill(old(state), state)
        invariant Peek(state, state.wb, start + i) == Peek(old(state), state.wb, start) + data[..i]
      {
        CopyByteIn(cell + i, data[i], start + i) by {
          SlotStep(state.wb + start, i, bufferSize);
        }
        assert data[..i + 1] == data[..i] + [data[i]];
      }
      assert data[..|data|] == data;
    }

    method CopyByteIn(k: nat, b: Byte, ghost i: nat)
      requires Valid() && state.wb + i < state.we && k == Slot(state.wb + i, bufferSize)
      modifies this, buffer
      ensures Valid() && WriteSideStill(old(state), state)
      ensures Peek(state, state.wb, i + 1) == Peek(old(state), state.wb, i) + [b]
    {
      hide Slot, Sum, Stored, And, Pow2;
      ReaderRuns();
      PeekSame(old(state), state, state.wb, i);
      StoreExtends(state, i, b);
      StoreByte(k, b, state.wb + i);
    }

    /** The two copies into the only outstanding write region. */
    method CopyRegionIn(region: Region, data: seq<Byte>)
      requires Valid() && state.writeSizes == [|data|] && region == WriteRegion(state, 0)
      modifies this, buffer
      ensures Valid() && WriteSideStill(old(state), state)
      ensures Peek(state, state.wb, |data|) == data
    {
      hide Slot, Sum, Stored, Peek, RegionAt, And, Pow2;
      FifoLayout.SoleWriteRegion(state, |data|);
      FifoLayout.PiecesOf(state.wb, |data|, bufferSize);
      CopyIn(region.first, data[..region.firstSize], 0);
      CopyIn(0, data[region.firstSize..], region.firstSize);
      assert Peek(old(state), old(state).wb, 0) == [];
      assert data[..region.firstSize] + data[region.firstSize..] == data;
    }

    /** The lock, copy and unlock steps of a write whose size was found to fit. */
    method WriteFitting(data: seq<Byte>) returns (status: Status)
      requires Valid() && state.writeSizes == [] && |data| <= state.WriteAvail()
      modifies this, buffer
      ensures Valid() && state.writeSizes == [] && state.size == old(state).size && status == Success
      ensures state.log == old(state).log + data && old(state).WriteAvail() <= state.WriteAvail() + |data|
      ensures old(state).rb <= state.rb && old(state).writeFd <= state.writeFd && (old(state).dead ==> state.dead)
      ensures ReaderTold(state)
    {
      hide Slot, Sum, Stored, Peek, RegionAt, And, Pow2, U32, Distance;
      ReaderRuns();
      var region := WriteLock(|data|);
      CopyRegionIn(region, data);
      ghost var filled := state;
      ReaderRuns();
      PeekSame(filled, state, state.wb, |data|);
      status := WriteUnlock(region, 0);
    }

    /** Commits a prefix of the data, whatever the reader does meanwhile: as much as there is room for
        at the moment `seen` is looked up. The contract is about the last critical section, where the
        reader is notified. */
    method Write(data: seq<Byte>) returns (ret: int, ghost seen: nat)
      requires Valid() && state.writeSizes == [] && |data| < WORD
      modifies this, buffer
      ensures Valid() && state.writeSizes == [] && state.size == old(state).size
      ensures ret == Min(|data|, seen) < HALF_WORD
      ensures old(state).WriteAvail() <= seen <= state.WriteAvail() + ret
      ensures state.log == old(state).log + data[..ret]
      ensures old(state).rb <= state.rb && old(state).writeFd <= state.writeFd && (old(state).dead ==> state.dead)
      ensures ReaderTold(state)
    {
      hide Slot, Sum, Stored, And, Pow2, U32, Distance;
      ReaderRuns();
      var writeAvail := WriteAvail();
      seen := writeAvail;
      var size := |data|;
      if size > writeAvail {
        size := writeAvail;
      }
      var status := WriteFitting(data[..size]);
      if status != Success {
        return -1, seen;
      }
      ret := size;
    }

    /** `memcpy` out of the cells from `cell` on, which hold the locked positions from `start` bytes
        into the read region on. The writer keeps running. */
    method CopyOut(dst: array<Byte>, at: nat, cell: nat, n: nat, ghost start: nat)
      requires Valid() && dst != buffer && at + n <= dst.Length && state.rb + start + n <= state.re <= |state.log|
      requires n > 0 ==> cell == Slot(state.rb + start, bufferSize) && cell + n <= bufferSize
      modifies this, buffer, dst
      ensures Valid() && ReadSideStill(old(state), state)
      ensures dst[..] == Patched(old(dst[..]), at, old(state).log[state.rb + start..state.rb + start + n])
    {
      hide Slot, Sum, Stored, And, Pow2, Patched;
      ghost var p := state.rb + start;
      ghost var log := state.log;
      ghost var was := dst[..];
      PatchedNone(was, at);
      assert log[p..p] == [];
      for i := 0 to n
        invariant Valid() && ReadSideStill(old(state), state)
        invariant dst[..] == Patched(was, at, log[p..p + i])
      {
        CopyByteOut(dst, at + i, cell + i, p + i) by {
          SlotStep(p, i, bufferSize);
        }
        PatchedTwice(was, at, log[p..p + i], [log[p + i]]);
        assert log[p..p + i] + [log[p + i]] == log[p..p + i + 1];
      }
    }

    method CopyByteOut(dst: array<Byte>, at: nat, k: nat, ghost p: nat)
      requires Valid() && dst != buffer && at < dst.Length
      requires state.rb <= p < state.re && k == Slot(p, bufferSize) && state.re <= |state.log|
      modifies this, buffer, dst
      ensures Valid() && ReadSideStill(old(state), state)
      ensures dst[..] == Patched(old(dst[..]), at, [old(state).log[p]])
    {
      hide Slot, Sum, And, Pow2;
      WriterRuns();
      PeekIsLog(state, p);
      dst[at] := buffer[k];
    }

    /** The two copies out of the only outstanding read region. */
    method CopyRegionOut(region: Region, dst: array<Byte>, at: nat, ghost n: nat)
      requires Valid() && state.readSizes == [n] && region == ReadRegion(state, 0)
      requires dst != buffer && at + n <= dst.Length && state.rb + n <= |state.log|
      modifies this, buffer, dst
      ensures Valid() && ReadSideStill(old(state), state)
      ensures dst[..] == Patched(old(dst[..]), at, old(state).log[state.rb..state.rb + n])
    {
      hide Slot, Sum, Stored, RegionAt, And, Pow2, Patched;
      FifoLayout.SoleReadRegion(state, n);
      FifoLayout.PiecesOf(state.rb, n, bufferSize);
      ghost var p, q, r := state.rb, state.rb + region.firstSize, state.rb + n;
      CopyOut(dst, at, region.first, region.firstSize, 0);
      ghost var log := state.log;
      CopyOut(dst, at + region.firstSize, 0, region.secondSize, region.firstSize);
      PatchedTwice(old(dst[..]), at, log[p..q], log[q..r]);
      SliceJoin(old(state).log, log, p, q, r);
      SliceJoin(old(state).log, log, p, r, r);
    }

    /** The lock, copy and unlock steps of a read whose size was found to be at hand. */
    method ReadFitting(dst: array<Byte>, at: nat, n: nat) returns (status: Status)
      requires Valid() && state.readSizes == [] && n <= state.ReadAvail() && state.rb + n <= |state.log|
      requires dst != buffer && at + n <= dst.Length
      modifies this, buffer, dst
      ensures Valid() && state.readSizes == [] && state.size == old(state).size && status == Success
      ensures old(state).log <= state.log && state.rb == old(state).rb + n
      ensures old(state).ReadAvail() <= state.ReadAvail() + n
      ensures dst[..] == Patched(old(dst[..]), at, old(state).log[old(state).rb..state.rb])
      ensures old(state).readFd <= state.readFd && (old(state).dead ==> state.dead)
      ensures WriterTold(state)
    {
      hide Slot, Sum, Stored, RegionAt, And, Pow2, U32, Distance, Patched;
      WriterRuns();
      SliceJoin(old(state).log, state.log, state.rb, state.rb + n, state.rb + n);
      var region := ReadLock(n);
      CopyRegionOut(region, dst, at, n);
      WriterRuns();
      status := ReadUnlock(region, 0);
    }

    /** Takes a prefix of the committed unread bytes, whatever the writer does meanwhile: as many as
        are at hand at the moment `seen` is looked up. The contract is about the last critical section,
        where the writer is notified. */
    method Read(dst: array<Byte>, at: nat, size: nat) returns (ret: int, ghost seen: nat)
      requires Valid() && state.readSizes == [] && dst != buffer && at + size <= dst.Length && size < WORD
      modifies this, buffer, dst
      ensures Valid() && state.readSizes == [] && state.size == old(state).size
      ensures ret == Min(size, seen) < HALF_WORD
      ensures old(state).ReadAvail() <= seen <= state.ReadAvail() + ret
      ensures old(state).log <= state.log && state.rb == old(state).rb + ret <= |state.log|
      ensures dst[..] == Patched(old(dst[..]), at, state.log[old(state).rb..state.rb])
      ensures old(state).readFd <= state.readFd && (old(state).dead ==> state.dead)
      ensures WriterTold(state)
    {
      hide Slot, Sum, Stored, And, Pow2, U32, Distance, Patched;
      WriterRuns();
      var readAvail := ReadAvail();
      seen := readAvail;
      var n := size;
      if n > readAvail {
        n := readAvail;
      }
      ghost var log := state.log;
      var status := ReadFitting(dst, at, n);
      if status != Success {
        return -1, seen;
      }
      ret := n;
      SliceJoin(log, state.log, old(state).rb, state.rb, state.rb);
    }

    /** One pass of the loop of a blocking write behind the wait: transfer and acknowledge. */
    method WriteAndAck(data: seq<Byte>) returns (ret: int, status: Status, ghost seen: nat)
      requires Valid() && state.writeSizes == [] && |data| < WORD && state.writeFd > 0
      modifies this, buffer
      ensures Valid() && state.writeSizes == []
      ensures ret == Min(|data|, seen) && state.log == old(state).log + data[..ret]
      ensures old(state).WriteAvail() <= seen <= state.WriteAvail() + ret
      ensures old(state).dead ==> state.dead
      ensures status == if state.dead then ErrorDead else Success
      ensures status == Success ==> WriteSettled(state)
      ensures status == Success && state.WriteAvail() < state.writeTrigger ==> state.writeFd == 0
    {
      hide Slot, Sum, Stored, Inv, And, Pow2, U32, Distance;
      ret, seen := Write(data);
      ReaderRuns();
      status := WriteNotifyAck();
    }

    /** Writes everything unless the fifo is killed or a wait fails, and in any case exactly the prefix
        that it reports. `waits` says how the waits end, and `passes` lists the transfers. `late` counts
        those started on a fifo already dead. A kill is noticed behind a transfer, so that the count is
        short exactly if that transfer finds too little room; on a fifo dead from the start it is the only
        one, and it does take place. The loop terminates because every wake-up but the first one moves at
        least a byte. */
    method BlockingWrite(data: seq<Byte>, waits: nat -> Poll)
      returns (written: nat, ghost ending: Ending, ghost late: nat, ghost passes: seq<Transfer>)
      requires Valid() && state.writeSizes == [] && |data| < WORD
      modifies this, buffer
      ensures Valid() && state.writeSizes == []
      ensures written <= |data| && state.log == old(state).log + data[..written]
      ensures Served(|data|, written, waits, ending, passes, old(state).WriteAvail(), state.WriteAvail())
      ensures written == |data| <==> ending == Complete || (ending == Killed && Sufficed(passes))
      ensures ending == Killed ==> state.dead
      ensures (forall k :: waits(k) == PollIn) && !state.dead ==> written == |data|
      ensures late <= 1
      ensures old(state).dead && |data| > 0 && waits(0) == PollIn ==> ending == Killed && late == |passes| == 1
    {
      hide Fifo.Valid, Inv, Served, Sufficed;
      written, ending, late, passes := 0, Complete, 0, [];
      var n: nat := 0;
      ServedNone(|data|, waits, state.WriteAvail());
      while written < |data|
        invariant Valid() && state.writeSizes == [] && n == |passes| && ending == Complete && late == 0
        invariant (n == 0 ==> written == 0) && written <= |data| && state.log == old(state).log + data[..written]
        invariant Served(|data|, written, waits, Complete, passes, old(state).WriteAvail(), state.WriteAvail())
        invariant n > 0 ==> WriteSettled(state)
        invariant old(state).dead ==> state.dead && n == 0
        decreases |data| - written, if n > 0 then 0 else 1
      {
        ghost var avail := state.WriteAvail();
        PollWritable(waits(n));
        ServedLater(|data|, written, waits, passes, old(state).WriteAvail(), avail, state.WriteAvail());
        if waits(n) != PollIn {
          ending := PollFailed;
          break;
        }
        ghost var dying := state.dead;
        avail := state.WriteAvail();
        var ret, status, seen := WriteAndAck(data[written..]);
        assert data[..written] + data[written..][..ret] == data[..written + ret];
        ghost var t := Transfer(|data| - written, seen);
        ServedMore(|data|, written, waits, passes, old(state).WriteAvail(), avail, t, state.WriteAvail());
        passes := passes + [t];
        n := n + 1;
        written := written + ret;
        late := late + if dying then 1 else 0;
        if status != Success {
          ending := Killed;
          break;
        }
      }
    }

    /** `dst`, which was `was` before, holds what the log has from position `begin` up to the reader. */
    ghost predicate Filled(dst: array<Byte>, was: seq<Byte>, begin: nat)
      reads this, dst
    {
      && begin <= state.rb <= |state.log| && state.rb - begin <= |was|
      && dst[..] == Patched(was, 0, state.log[begin..state.rb])
    }

    lemma FilledNone(dst: array<Byte>)
      requires Valid()
      ensures Filled(dst, dst[..], state.rb)
    {
      hide Slot, Sum, Stored;
      PatchedNone(dst[..], 0);
      assert state.log[state.rb..state.rb] == [];
    }

    /** One pass of the loop of a blocking read behind the wait: transfer and acknowledge. */
    method ReadAndAck(dst: array<Byte>, at: nat, ghost was: seq<Byte>, ghost begin: nat)
      returns (ret: int, status: Status, ghost seen: nat)
      requires Valid() && state.readSizes == [] && dst != buffer && at < dst.Length < WORD && state.readFd > 0
      requires Filled(dst, was, begin) && state.rb == begin + at && |was| == dst.Length
      modifies this, buffer, dst
      ensures Valid() && state.readSizes == []
      ensures ret == Min(dst.Length - at, seen)
      ensures old(state).ReadAvail() <= seen <= state.ReadAvail() + ret
      ensures old(state).log <= state.log && state.rb == old(state).rb + ret <= |state.log|
      ensures Filled(dst, was, begin)
      ensures old(state).dead ==> state.dead
      ensures status == if state.dead then ErrorDead else Success
      ensures status == Success ==> ReadSettled(state)
      ensures status == Success && state.ReadAvail() < state.readTrigger ==> state.readFd == 0
    {
      hide Slot, Sum, Stored, Inv, And, Pow2, U32, Distance, Patched;
      ghost var log := state.log;
      ret, seen := Read(dst, at, dst.Length - at);
      PatchExtends(was, log, state.log, begin, begin + at, state.rb);
      log := state.log;
      WriterRuns();
      PatchExtends(was, log, state.log, begin, state.rb, state.rb);
      status := ReadNotifyAck();
    }

    /** The wait in front of it. */
    method AwaitReadable(outcome: Poll, dst: array<Byte>, ghost was: seq<Byte>, ghost begin: nat)
      requires Valid() && dst != buffer && Filled(dst, was, begin)
      modifies this, buffer
      ensures Valid() && WriterRely(old(state), state) && Filled(dst, was, begin)
      ensures outcome == PollIn ==> state.readFd > 0
      ensures old(state).ReadAvail() <= state.ReadAvail()
    {
      hide Slot, Sum, Stored, Patched;
      ghost var log := state.log;
      PollReadable(outcome);
      PatchExtends(was, log, state.log, begin, state.rb, state.rb);
    }

    /** The reading counterpart. */
    method BlockingRead(dst: array<Byte>, waits: nat -> Poll)
      returns (hasRead: nat, ghost ending: Ending, ghost late: nat, ghost passes: seq<Transfer>)
      requires Valid() && state.readSizes == [] && dst != buffer && dst.Length < WORD
      modifies this, buffer, dst
      ensures Valid() && state.readSizes == []
      ensures old(state).log <= state.log && state.rb == old(state).rb + hasRead
      ensures hasRead <= dst.Length
      ensures Filled(dst, old(dst[..]), old(state).rb)
      ensures Served(dst.Length, hasRead, waits, ending, passes, old(state).ReadAvail(), state.ReadAvail())
      ensures hasRead == dst.Length <==> ending == Complete || (ending == Killed && Sufficed(passes))
      ensures ending == Killed ==> state.dead
      ensures (forall k :: waits(k) == PollIn) && !state.dead ==> hasRead == dst.Length
      ensures late <= 1
      ensures old(state).dead && dst.Length > 0 && waits(0) == PollIn ==> ending == Killed && late == |passes| == 1
    {
      hide Fifo.Valid, Inv, Filled, Served, Sufficed;
      hasRead, ending, late, passes := 0, Complete, 0, [];
      var n: nat := 0;
      ServedNone(dst.Length, waits, state.ReadAvail());
      FilledNone(dst);
      while hasRead < dst.Length
        invariant Valid() && state.readSizes == [] && n == |passes| && ending == Complete && late == 0
        invariant (n == 0 ==> hasRead == 0) && hasRead <= dst.Length
        invariant old(state).log <= state.log && state.rb == old(state).rb + hasRead
        invariant Filled(dst, old(dst[..]), old(state).rb)
        invariant Served(dst.Length, hasRead, waits, Complete, passes, old(state).ReadAvail(), state.ReadAvail())
        invariant n > 0 ==> ReadSettled(state)
        invariant old(state).dead ==> state.dead && n == 0
        decreases dst.Length - hasRead, if n > 0 then 0 else 1
      {
        ghost var avail := state.ReadAvail();
        AwaitReadable(waits(n), dst, old(dst[..]), old(state).rb);
        ServedLater(dst.Length, hasRead, waits, passes, old(state).ReadAvail(), avail, state.ReadAvail());
        if waits(n) != PollIn {
          ending := PollFailed;
          break;
        }
        ghost var dying := state.dead;
        avail := state.ReadAvail();
        var ret, status, seen := ReadAndAck(dst, hasRead, old(dst[..]), old(state).rb);
        ghost var t := Transfer(dst.Length - hasRead, seen);
        ServedMore(dst.Length, hasRead, waits, passes, old(state).ReadAvail(), avail, t, state.ReadAvail());
        passes := passes + [t];
        n := n + 1;
        hasRead := hasRead + ret;
        late := late + if dying then 1 else 0;
        if status != Success {
          ending := Killed;
          break;
        }
      }
    }
  }
}
