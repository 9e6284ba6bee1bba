/** One writer thread and one reader thread on a fifo, each running any number of non-blocking
    transfers, in every interleaving of their critical sections and of the single bytes of their
    unlocked copies. */
module FifoThreads {
  import opened Ring
  import opened FifoModel

  /** Where the writer stands in `maru_fifo_write`: outside, with the size clamped to the room it
      saw, or copying into its locked region with `i` bytes done. */
  datatype Writer =
    | WriterIdle
    | WriterSized(data: seq<Byte>, n: nat)
    | WriterCopying(data: seq<Byte>, n: nat, i: nat)

  /** Where the reader stands in `maru_fifo_read`; `copied` is what it has copied out so far. */
  datatype Reader =
    | ReaderIdle
    | ReaderSized(n: nat)
    | ReaderCopying(n: nat, copied: seq<Byte>)

  /** `wrote` joins what completed writes reported as written, `got` what completed reads returned. */
  datatype Sys = Sys(f: State, writer: Writer, reader: Reader, wrote: seq<Byte>, got: seq<Byte>)

  datatype Action =
    | StartWrite(data: seq<Byte>)
    | LockForWrite
    | CopyInByte
    | FinishWrite
    | StartRead(size: nat)
    | LockForRead
    | CopyOutByte
    | FinishRead
    | Other(op: Op)

  /** Operations that do not belong to a transfer. */
  predicate Aside(op: Op) {
    op.AckReadOp? || op.AckWriteOp? || op.KillOp? || op.SetReadTriggerOp? || op.SetWriteTriggerOp?
  }

  /** A thread can take a step when it stands in front of it; no step checks for space or data again. */
  predicate Can(s: Sys, a: Action) {
    match a
    case StartWrite(_) => s.writer.WriterIdle? && s.f.WriteAvail() >= 0
    case LockForWrite => s.writer.WriterSized?
    case CopyInByte => s.writer.WriterCopying? && s.writer.i < s.writer.n <= |s.writer.data|
    case FinishWrite => s.writer.WriterCopying? && s.writer.i == s.writer.n <= |s.writer.data| && |s.f.writeSizes| > 0
    case StartRead(_) => s.reader.ReaderIdle? && s.f.ReadAvail() >= 0
    case LockForRead => s.reader.ReaderSized?
    case CopyOutByte => s.reader.ReaderCopying? && |s.reader.copied| < s.reader.n
    case FinishRead => s.reader.ReaderCopying? && |s.reader.copied| == s.reader.n && |s.f.readSizes| > 0
    case Other(op) => Aside(op) && Enabled(s.f, op)
  }

  function Next(s: Sys, a: Action): Sys
    requires |s.f.cells| == s.f.size > 0 && Can(s, a)
  {
    match a
    case StartWrite(data) => s.(writer := WriterSized(data, Min(|data|, s.f.WriteAvail())))
    case LockForWrite =>
      s.(f := LockWrite(s.f, s.writer.n), writer := WriterCopying(s.writer.data, s.writer.n, 0))
    case CopyInByte =>
      s.(f := Store(s.f, s.f.wb + s.writer.i, s.writer.data[s.writer.i]),
         writer := s.writer.(i := s.writer.i + 1))
    case FinishWrite =>
      s.(f := UnlockWrite(s.f, 0), writer := WriterIdle, wrote := s.wrote + s.writer.data[..s.writer.n])
    case StartRead(size) => s.(reader := ReaderSized(Min(size, s.f.ReadAvail())))
    case LockForRead => s.(f := LockRead(s.f, s.reader.n), reader := ReaderCopying(s.reader.n, []))
    case CopyOutByte =>
      s.(reader := s.reader.(copied := s.reader.copied + [s.f.At(s.f.rb + |s.reader.copied|)]))
    case FinishRead => s.(f := UnlockRead(s.f, 0), reader := ReaderIdle, got := s.got + s.reader.copied)
    case Other(op) => s.(f := Apply(s.f, op))
  }

  ghost predicate WriterInv(s: Sys)
    requires Shape(s.f)
  {
    match s.writer
    case WriterIdle => s.f.writeSizes == []
    case WriterSized(data, n) => s.f.writeSizes == [] && n <= |data| && n <= s.f.WriteAvail()
    case WriterCopying(data, n, i) =>
      s.f.writeSizes == [n] && s.f.we == s.f.wb + n && i <= n <= |data| && Peek(s.f, s.f.wb, i) == data[..i]
  }

  ghost predicate ReaderInv(s: Sys)
    requires Shape(s.f)
  {
    match s.reader
    case ReaderIdle => s.f.readSizes == []
    case ReaderSized(n) => s.f.readSizes == [] && n <= s.f.ReadAvail()
    case ReaderCopying(n, copied) =>
      s.f.readSizes == [n] && s.f.re == s.f.rb + n && |copied| <= n
      && copied == s.f.log[s.f.rb..s.f.rb + |copied|]
  }

  ghost predicate SysInv(s: Sys) {
    && Inv(s.f)
    && WriterInv(s)
    && ReaderInv(s)
    && s.wrote == s.f.log
    && s.got == s.f.log[..s.f.rb]
  }

  function Init(size: nat): Sys {
    Sys(New(size), WriterIdle, ReaderIdle, [], [])
  }

  // Steps ---------------------------------------------------------------------------------------

  lemma LockForWriteKeeps(s: Sys)
    requires SysInv(s) && Can(s, LockForWrite)
    ensures SysInv(Next(s, LockForWrite))
  {
    SumNil();
    hide Slot, Sum, Stored, Store, Apply;
    LockWriteKeeps(s.f, s.writer.n);
    assert s.f.writeSizes + [s.writer.n] == [s.writer.n];
    assert Peek(Next(s, LockForWrite).f, s.f.wb, 0) == [];
  }

  lemma CopyInByteKeeps(s: Sys)
    requires SysInv(s) && Can(s, CopyInByte)
    ensures SysInv(Next(s, CopyInByte))
  {
    hide Slot, Sum, Stored, Peek, Apply;
    var i, data := s.writer.i, s.writer.data;
    StoreKeeps(s.f, s.f.wb + i, data[i]);
    StoreExtends(s.f, i, data[i]);
    assert data[..i + 1] == data[..i] + [data[i]];
  }

  lemma FinishWriteKeeps(s: Sys)
    requires SysInv(s) && Can(s, FinishWrite)
    ensures SysInv(Next(s, FinishWrite))
  {
    hide Slot, Sum, Stored, Peek, Apply, Store;
    UnlockWriteKeeps(s.f, 0);
    var log, log' := s.f.log, Next(s, FinishWrite).f.log;
    assert s.f.writeSizes[1..] == [];
    assert log' == log + s.writer.data[..s.writer.n];
    SliceJoin(log, log', 0, s.f.rb, s.f.rb);
    if s.reader.ReaderCopying? {
      SliceJoin(log, log', s.f.rb, s.f.rb + |s.reader.copied|, s.f.wb);
    }
  }

  lemma LockForReadKeeps(s: Sys)
    requires SysInv(s) && Can(s, LockForRead)
    ensures SysInv(Next(s, LockForRead))
  {
    SumNil();
    hide Slot, Sum, Stored, Peek, Apply, Store;
    LockReadKeeps(s.f, s.reader.n);
    assert s.f.readSizes + [s.reader.n] == [s.reader.n];
    CopyingStands(s, Next(s, LockForRead));
  }

  lemma FinishReadKeeps(s: Sys)
    requires SysInv(s) && Can(s, FinishRead)
    ensures SysInv(Next(s, FinishRead))
  {
    hide Slot, Sum, Stored, Peek, Apply, Store;
    UnlockReadKeeps(s.f, 0);
    assert s.f.readSizes[1..] == [];
    CopyingStands(s, Next(s, FinishRead));
  }

  /** What the writer has copied in so far does not change when nothing is stored. */
  lemma CopyingStands(s: Sys, t: Sys)
    requires |s.f.cells| == s.f.size > 0 && t.f.cells == s.f.cells && t.f.size == s.f.size
    ensures s.writer.WriterCopying? ==> Peek(t.f, s.f.wb, s.writer.i) == Peek(s.f, s.f.wb, s.writer.i)
  {
    if s.writer.WriterCopying? {
      PeekSame(s.f, t.f, s.f.wb, s.writer.i);
    }
  }

  lemma CopyOutByteKeeps(s: Sys)
    requires SysInv(s) && Can(s, CopyOutByte)
    ensures SysInv(Next(s, CopyOutByte))
  {
    hide Slot, Sum, Stored, Peek, Apply, Store;
    PeekIsLog(s.f, s.f.rb + |s.reader.copied|);
  }

  lemma AsideKeeps(s: Sys, op: Op)
    requires SysInv(s) && Aside(op) && Enabled(s.f, op)
    ensures SysInv(s.(f := Apply(s.f, op)))
  {
    hide Slot, Sum, Stored, Peek, Store;
    var g := Apply(s.f, op);
    SameDataKeeps(s.f, g);
    CopyingStands(s, s.(f := g));
  }

  lemma StepKeeps(s: Sys, a: Action)
    requires SysInv(s) && Can(s, a)
    ensures SysInv(Next(s, a))
  {
    hide Slot, Sum, Stored, Peek, Store;
    match a
    case StartWrite(_) =>
    case LockForWrite => LockForWriteKeeps(s);
    case CopyInByte => CopyInByteKeeps(s);
    case FinishWrite => FinishWriteKeeps(s);
    case StartRead(_) =>
    case LockForRead => LockForReadKeeps(s);
    case CopyOutByte => CopyOutByteKeeps(s);
    case FinishRead => FinishReadKeeps(s);
    case Other(op) => AsideKeeps(s, op);
  }

  // Runs ----------------------------------------------------------------------------------------

  ghost predicate Steps(s: Sys, t: Sys) {
    |s.f.cells| == s.f.size > 0 && exists a :: Can(s, a) && t == Next(s, a)
  }

  ghost predicate SysRun(ss: seq<Sys>, size: nat) {
    && |ss| > 0 && ss[0] == Init(size)
    && forall k | 0 <= k < |ss| - 1 :: Steps(ss[k], ss[k + 1])
  }

  lemma {:induction false} RunKeeps(ss: seq<Sys>, size: nat, k: nat)
    requires 0 < size <= HALF_WORD && SysRun(ss, size) && k < |ss|
    ensures SysInv(ss[k])
  {
    if k == 0 {
      NewInv(size);
    } else {
      RunKeeps(ss, size, k - 1);
      assert Steps(ss[k - 1], ss[k - 1 + 1]);
      var a :| Can(ss[k - 1], a) && ss[k] == Next(ss[k - 1], a);
      StepKeeps(ss[k - 1], a);
    }
  }

  /** In every interleaving, what completed reads returned, followed by the committed bytes that are
      still in the ring, is what completed writes wrote: nothing is lost, duplicated or reordered. */
  lemma StreamConserved(ss: seq<Sys>, size: nat, k: nat)
    requires 0 < size <= HALF_WORD && SysRun(ss, size) && k < |ss|
    ensures var s := ss[k];
            && 0 < s.f.size == |s.f.cells| && s.f.rb <= s.f.wb
            && s.got + Peek(s.f, s.f.rb, s.f.wb - s.f.rb) == s.wrote
  {
    hide Slot, Sum, Stored, Peek, SysRun;
    RunKeeps(ss, size, k);
    var s := ss[k];
    PeekIsLogSlice(s.f, s.f.rb, s.f.wb - s.f.rb);
    assert s.f.log == s.f.log[..s.f.rb] + s.f.log[s.f.rb..];
  }

  /** The room or the data that a thread saw in an earlier critical section is still there when it
      locks, and so are the bytes that it copies: each call's steps are safe to take. */
  lemma AvailStaysSafe(ss: seq<Sys>, size: nat, k: nat)
    requires 0 < size <= HALF_WORD && SysRun(ss, size) && k < |ss|
    ensures var s := ss[k];
            && (s.writer.WriterSized? ==> s.writer.n <= s.f.WriteAvail())
            && (s.writer.WriterCopying? ==> s.f.writeSizes == [s.writer.n] && s.f.we < s.f.rb + s.f.size)
            && (s.reader.ReaderSized? ==> s.reader.n <= s.f.ReadAvail())
            && (s.reader.ReaderCopying? ==> s.f.readSizes == [s.reader.n] && s.f.re <= s.f.wb)
  {
    RunKeeps(ss, size, k);
  }

  /** A thread inside a transfer can always take its next step, and an idle one can always start. */
  lemma ThreadsNeverStuck(ss: seq<Sys>, size: nat, k: nat, data: seq<Byte>, n: nat)
    requires 0 < size <= HALF_WORD && SysRun(ss, size) && k < |ss|
    ensures var s := ss[k];
            && (Can(s, StartWrite(data)) || Can(s, LockForWrite) || Can(s, CopyInByte) || Can(s, FinishWrite))
            && (Can(s, StartRead(n)) || Can(s, LockForRead) || Can(s, CopyOutByte) || Can(s, FinishRead))
  {
    RunKeeps(ss, size, k);
    hide SysRun, Slot, Sum, Stored, Peek;
  }

  // Whole transfers -----------------------------------------------------------------------------

  /** A run taken one step further. */
  lemma After(ss: seq<Sys>, size: nat, a: Action) returns (tt: seq<Sys>)
    requires 0 < size <= HALF_WORD && SysRun(ss, size) && Can(ss[|ss| - 1], a)
    ensures |ss[|ss| - 1].f.cells| == ss[|ss| - 1].f.size > 0
    ensures SysRun(tt, size) && ss <= tt && tt[|tt| - 1] == Next(ss[|ss| - 1], a)
    ensures SysInv(ss[|ss| - 1]) && SysInv(tt[|tt| - 1])
  {
    RunKeeps(ss, size, |ss| - 1);
    var s := ss[|ss| - 1];
    InvCells(s);
    StepKeeps(s, a);
    hide Next, Can, SysInv, Init;
    tt := ss + [Next(s, a)];
    assert Steps(s, tt[|ss|]);
    forall k | 0 <= k < |tt| - 1 ensures Steps(tt[k], tt[k + 1]) {
      if k < |ss| - 1 {
        assert tt[k] == ss[k] && tt[k + 1] == ss[k + 1];
      } else {
        assert tt[k] == s;
      }
    }
  }

  lemma InvCells(s: Sys)
    requires SysInv(s)
    ensures |s.f.cells| == s.f.size > 0
  {
  }

  /** The rest of the bytes of a write. */
  lemma {:induction false} CopyInRun(ss: seq<Sys>, size: nat) returns (tt: seq<Sys>)
    requires 0 < size <= HALF_WORD && |ss| > 0 && SysRun(ss, size)
    requires var w := ss[|ss| - 1].writer; w.WriterCopying? && w.i <= w.n <= |w.data|
    ensures SysRun(tt, size) && ss <= tt
    ensures var s, t := ss[|ss| - 1], tt[|tt| - 1];
            t == s.(f := t.f, writer := s.writer.(i := s.writer.n)) && t.f == s.f.(cells := t.f.cells)
    decreases ss[|ss| - 1].writer.n - ss[|ss| - 1].writer.i
  {
    hide SysRun, SysInv, Slot;
    tt := ss;
    if ss[|ss| - 1].writer.i < ss[|ss| - 1].writer.n {
      tt := After(ss, size, CopyInByte);
      tt := CopyInRun(tt, size);
    }
  }

  lemma Sized(ss: seq<Sys>, size: nat)
    requires 0 < size <= HALF_WORD && SysRun(ss, size)
    ensures var s := ss[|ss| - 1];
            && s.f.WriteAvail() >= 0 && s.f.ReadAvail() >= 0
            && (s.writer.WriterIdle? ==> s.f.writeSizes == []) && (s.reader.ReaderIdle? ==> s.f.readSizes == [])
  {
    RunKeeps(ss, size, |ss| - 1);
    hide SysRun;
  }

  /** In any reachable state an idle writer can write: on its own it gets through, and has then written
      as much as there was room for. */
  lemma WriteGoesThrough(ss: seq<Sys>, size: nat, data: seq<Byte>) returns (tt: seq<Sys>)
    requires 0 < size <= HALF_WORD && SysRun(ss, size) && ss[|ss| - 1].writer.WriterIdle?
    ensures SysRun(tt, size) && ss <= tt && ss[|ss| - 1].f.WriteAvail() >= 0
    ensures var s, t := ss[|ss| - 1], tt[|tt| - 1];
            && t.writer.WriterIdle? && t.reader == s.reader && t.got == s.got
            && t.wrote == s.wrote + data[..Min(|data|, s.f.WriteAvail())]
  {
    hide SysRun, SysInv, Slot, Peek;
    Sized(ss, size);
    tt := After(ss, size, StartWrite(data));
    tt := After(tt, size, LockForWrite);
    tt := CopyInRun(tt, size);
    assert tt[|tt| - 1].f.writeSizes == [tt[|tt| - 1].writer.n];
    tt := After(tt, size, FinishWrite);
  }

  /** The rest of the bytes of a read. */
  lemma {:induction false} CopyOutRun(ss: seq<Sys>, size: nat) returns (tt: seq<Sys>)
    requires 0 < size <= HALF_WORD && |ss| > 0 && SysRun(ss, size)
    requires var r := ss[|ss| - 1].reader; r.ReaderCopying? && |r.copied| <= r.n
    ensures SysRun(tt, size) && ss <= tt
    ensures var s, t := ss[|ss| - 1], tt[|tt| - 1];
            t == s.(reader := t.reader) && t.reader.ReaderCopying? && t.reader.n == s.reader.n == |t.reader.copied|
    decreases ss[|ss| - 1].reader.n - |ss[|ss| - 1].reader.copied|
  {
    hide SysRun, SysInv, Slot;
    tt := ss;
    if |ss[|ss| - 1].reader.copied| < ss[|ss| - 1].reader.n {
      tt := After(ss, size, CopyOutByte);
      tt := CopyOutRun(tt, size);
    }
  }

  /** The same for an idle reader, which gets as much as there was to read. */
  lemma ReadGoesThrough(ss: seq<Sys>, size: nat, n: nat) returns (tt: seq<Sys>)
    requires 0 < size <= HALF_WORD && SysRun(ss, size) && ss[|ss| - 1].reader.ReaderIdle?
    ensures SysRun(tt, size) && ss <= tt && ss[|ss| - 1].f.ReadAvail() >= 0
    ensures var s, t := ss[|ss| - 1], tt[|tt| - 1];
            && t.reader.ReaderIdle? && t.writer == s.writer && t.wrote == s.wrote
            && s.got <= t.got && |t.got| == |s.got| + Min(n, s.f.ReadAvail())
  {
    hide SysRun, SysInv, Slot;
    Sized(ss, size);
    tt := After(ss, size, StartRead(n));
    tt := After(tt, size, LockForRead);
    tt := CopyOutRun(tt, size);
    assert tt[|tt| - 1].f.readSizes == [tt[|tt| - 1].reader.n];
    tt := After(tt, size, FinishRead);
  }
}
