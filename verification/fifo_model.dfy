/** What a fifo means: four positions in an endless byte stream, the ring cells that hold the
    stretch between them, and the notification counters. `Fifo` keeps the wrapped indices of the
    implementation in step with this model. */
module FifoModel {
  import opened Ring

  /** `rb <= re <= wb <= we` are the stream positions at which the locked read region begins and
      ends, and at which the locked write region begins and ends. `readSizes` and `writeSizes` are the
      sizes of the outstanding regions, oldest first, and `log` is every byte committed so far. */
  datatype State = State(
    size: nat,
    rb: nat, re: nat, wb: nat, we: nat,
    readSizes: seq<nat>, writeSizes: seq<nat>,
    cells: seq<Byte>, log: seq<Byte>,
    readTrigger: nat, writeTrigger: nat,
    readFd: nat, writeFd: nat,
    dead: bool)
  {
    /** Bytes that can still be locked for reading. */
    function ReadAvail(): int {
      wb - re
    }

    /** Bytes that can still be locked for writing; one cell always stays free. */
    function WriteAvail(): int {
      rb + size - we - 1
    }

    /** The byte at a stream position, as found in the ring. */
    function At(p: nat): Byte
      requires |cells| == size > 0
    {
      cells[Slot(p, size)]
    }
  }

  /** The bytes that the ring holds from position `p` on. */
  function Peek(f: State, p: nat, n: nat): (s: seq<Byte>)
    requires |f.cells| == f.size > 0
    ensures |s| == n
  {
    seq(n, i requires 0 <= i < n => f.At(p + i))
  }

  ghost predicate Inv(f: State) {
    && Shape(f)
    && Stored(f)
    && f.readTrigger > 0 && f.writeTrigger > 0
  }

  ghost predicate Shape(f: State) {
    && 0 < f.size <= HALF_WORD
    && |f.cells| == f.size
    && |f.log| == f.wb
    && f.rb <= f.re <= f.wb <= f.we < f.rb + f.size
    && Sum(f.readSizes) == f.re - f.rb
    && Sum(f.writeSizes) == f.we - f.wb
  }

  /** Committed bytes stay in the ring until the reader gives them back. */
  ghost predicate Stored(f: State)
    requires |f.cells| == f.size > 0 && |f.log| == f.wb
  {
    forall p: nat | f.rb <= p < f.wb :: f.At(p) == f.log[p]
  }

  /** A side with enough bytes at hand is notified, and a killed fifo notifies both sides. */
  ghost predicate Awake(f: State) {
    && (f.ReadAvail() >= f.readTrigger ==> f.readFd > 0)
    && (f.WriteAvail() >= f.writeTrigger ==> f.writeFd > 0)
    && (f.dead ==> f.readFd > 0 && f.writeFd > 0)
  }

  function New(size: nat): State {
    State(size, 0, 0, 0, 0, [], [], seq(size, _ => 0), [], 1, 1, 0, 1, false)
  }

  // Outstanding regions -------------------------------------------------------------------------

  /** A locked region as handed to the caller: an offset into the ring and a size, and a second
      piece at the start of the ring if the region wraps around. */
  datatype Region = Region(first: nat, firstSize: nat, second: Piece, secondSize: nat) {
    function Size(): nat {
      firstSize + secondSize
    }
  }

  /** The second pointer of a region. */
  datatype Piece = Null | RingStart

  function RegionAt(p: nat, n: nat, size: nat): Region
    requires size > 0
  {
    var first := Slot(p, size);
    var k := Min(n, size - first);
    Region(first, k, if n == k then Null else RingStart, n - k)
  }

  function ReadStart(f: State, i: nat): nat
    requires i < |f.readSizes|
  {
    f.rb + Sum(f.readSizes[..i])
  }

  function WriteStart(f: State, i: nat): nat
    requires i < |f.writeSizes|
  {
    f.wb + Sum(f.writeSizes[..i])
  }

  function ReadRegion(f: State, i: nat): Region
    requires i < |f.readSizes| && f.size > 0
  {
    RegionAt(ReadStart(f, i), f.readSizes[i], f.size)
  }

  function WriteRegion(f: State, i: nat): Region
    requires i < |f.writeSizes| && f.size > 0
  {
    RegionAt(WriteStart(f, i), f.writeSizes[i], f.size)
  }

  /** The order check of both unlock calls, against the index where the locked region begins. */
  predicate Accepts(begin: nat, r: Region, size: nat)
    requires begin < size
  {
    && begin == r.first
    && (r.secondSize == 0 || Slot(begin + r.firstSize, size) == 0)
  }

  /** The outstanding region `i` is preceded by empty regions only. */
  predicate Oldest(sizes: seq<nat>, i: nat)
    requires i < |sizes|
  {
    forall j | 0 <= j < i :: sizes[j] == 0
  }

  // Critical sections ---------------------------------------------------------------------------

  function LockRead(f: State, n: nat): State {
    f.(re := f.re + n, readSizes := f.readSizes + [n])
  }

  function LockWrite(f: State, n: nat): State {
    f.(we := f.we + n, writeSizes := f.writeSizes + [n])
  }

  /** Giving back read region `i` and the empty ones before it. */
  function UnlockRead(f: State, i: nat): State
    requires i < |f.readSizes|
  {
    if !Oldest(f.readSizes, i) then f
    else
      var g := f.(rb := f.rb + f.readSizes[i], readSizes := f.readSizes[i + 1..]);
      if g.WriteAvail() >= g.writeTrigger then g.(writeFd := g.writeFd + 1) else g
  }

  /** Committing write region `i`, with whatever its cells hold now. */
  function UnlockWrite(f: State, i: nat): State
    requires |f.cells| == f.size > 0
    requires i < |f.writeSizes|
  {
    if !Oldest(f.writeSizes, i) then f
    else
      var n := f.writeSizes[i];
      var g := f.(wb := f.wb + n, writeSizes := f.writeSizes[i + 1..], log := f.log + Peek(f, f.wb, n));
      if g.ReadAvail() >= g.readTrigger then g.(readFd := g.readFd + 1) else g
  }

  /** One byte of a copy into the ring. */
  function Store(f: State, p: nat, b: Byte): State
    requires |f.cells| == f.size > 0
  {
    f.(cells := f.cells[Slot(p, f.size) := b])
  }

  function AckRead(f: State): State {
    if !f.dead && f.ReadAvail() < f.readTrigger then f.(readFd := 0) else f
  }

  function AckWrite(f: State): State {
    if !f.dead && f.WriteAvail() < f.writeTrigger then f.(writeFd := 0) else f
  }

  function Kill(f: State): State {
    f.(dead := true, readFd := f.readFd + 1, writeFd := f.writeFd + 1)
  }

  /** Zero bytes is treated as one. */
  function Trigger(t: nat): nat {
    if t == 0 then 1 else t
  }

  /** The overlap test of both trigger calls, in 32-bit arithmetic. */
  predicate TriggerOk(t: nat, other: nat, size: nat) {
    U32(Trigger(t) + other) < size
  }

  function SetReadTrigger(f: State, t: nat): State {
    if TriggerOk(t, f.writeTrigger, f.size) then f.(readTrigger := Trigger(t)) else f
  }

  function SetWriteTrigger(f: State, t: nat): State {
    if TriggerOk(t, f.readTrigger, f.size) then f.(writeTrigger := Trigger(t)) else f
  }

  // Runs ----------------------------------------------------------------------------------------

  /** One critical section, or one byte of an unlocked copy into a locked write region. */
  datatype Op =
    | LockReadOp(n: nat)
    | UnlockReadOp(i: nat)
    | AckReadOp
    | LockWriteOp(n: nat)
    | StoreOp(p: nat, b: Byte)
    | UnlockWriteOp(i: nat)
    | AckWriteOp
    | KillOp
    | SetReadTriggerOp(t: nat)
    | SetWriteTriggerOp(t: nat)

  /** What the fifo demands of its callers: lock sizes within the reported space, unlocks of
      outstanding regions, stores into locked cells, and acks after a notification. */
  predicate Enabled(f: State, op: Op) {
    match op
    case LockReadOp(n) => n <= f.ReadAvail()
    case UnlockReadOp(i) => i < |f.readSizes|
    case AckReadOp => f.readFd > 0
    case LockWriteOp(n) => n <= f.WriteAvail()
    case StoreOp(p, _) => f.wb <= p < f.we
    case UnlockWriteOp(i) => i < |f.writeSizes|
    case AckWriteOp => f.writeFd > 0
    case KillOp => true
    case SetReadTriggerOp(t) => t < WORD
    case SetWriteTriggerOp(t) => t < WORD
  }

  function Apply(f: State, op: Op): State
    requires |f.cells| == f.size > 0 && Enabled(f, op)
  {
    match op
    case LockReadOp(n) => LockRead(f, n)
    case UnlockReadOp(i) => UnlockRead(f, i)
    case AckReadOp => AckRead(f)
    case LockWriteOp(n) => LockWrite(f, n)
    case StoreOp(p, b) => Store(f, p, b)
    case UnlockWriteOp(i) => UnlockWrite(f, i)
    case AckWriteOp => AckWrite(f)
    case KillOp => Kill(f)
    case SetReadTriggerOp(t) => SetReadTrigger(f, t)
    case SetWriteTriggerOp(t) => SetWriteTrigger(f, t)
  }

  /** `fs` is a run: every state follows from the one before by an enabled operation. */
  ghost predicate Run(fs: seq<State>) {
    && (forall k | 0 <= k < |fs| :: |fs[k].cells| == fs[k].size > 0)
    && (forall k | 0 <= k < |fs| - 1 :: Step(fs[k], fs[k + 1]))
  }

  ghost predicate Step(f: State, g: State)
    requires |f.cells| == f.size > 0
  {
    exists op :: Enabled(f, op) && g == Apply(f, op)
  }

  // Preservation --------------------------------------------------------------------------------

  lemma LockReadKeeps(f: State, n: nat)
    requires Inv(f) && n <= f.ReadAvail()
    ensures Inv(LockRead(f, n))
  {
    SumConcat(f.readSizes, [n]);
    var g := LockRead(f, n);
    forall p: nat | g.rb <= p < g.wb ensures g.At(p) == g.log[p] {
      assert f.At(p) == f.log[p];
    }
  }

  lemma LockWriteKeeps(f: State, n: nat)
    requires Inv(f) && n <= f.WriteAvail()
    ensures Inv(LockWrite(f, n))
  {
    SumConcat(f.writeSizes, [n]);
    var g := LockWrite(f, n);
    forall p: nat | g.rb <= p < g.wb ensures g.At(p) == g.log[p] {
      assert f.At(p) == f.log[p];
    }
  }

  lemma UnlockReadKeeps(f: State, i: nat)
    requires Inv(f) && i < |f.readSizes|
    ensures Inv(UnlockRead(f, i))
  {
    if Oldest(f.readSizes, i) {
      SumSplit(f.readSizes, i);
      SumZero(f.readSizes[..i]);
      var g := UnlockRead(f, i);
      forall p: nat | g.rb <= p < g.wb ensures g.At(p) == g.log[p] {
        assert f.At(p) == f.log[p];
      }
    }
  }

  lemma UnlockWriteKeeps(f: State, i: nat)
    requires Inv(f) && i < |f.writeSizes|
    ensures Inv(UnlockWrite(f, i))
  {
    if Oldest(f.writeSizes, i) {
      SumSplit(f.writeSizes, i);
      SumZero(f.writeSizes[..i]);
      hide Slot, Sum;
      var n := f.writeSizes[i];
      CommitStored(f, n);
    }
  }

  /** Appending what the ring holds to the log keeps log and ring in agreement. */
  lemma CommitStored(f: State, n: nat)
    requires |f.cells| == f.size > 0 && |f.log| == f.wb && Stored(f)
    ensures forall p: nat | f.rb <= p < f.wb + n :: f.At(p) == (f.log + Peek(f, f.wb, n))[p]
  {
    hide Slot;
    forall p: nat | f.rb <= p < f.wb + n ensures f.At(p) == (f.log + Peek(f, f.wb, n))[p] {
      if p < f.wb {
        assert f.At(p) == f.log[p];
      } else {
        assert Peek(f, f.wb, n)[p - f.wb] == f.At(f.wb + (p - f.wb));
      }
    }
  }

  /** A store into a locked write region touches no other position within a turn of the reader. */
  lemma StoreElsewhere(f: State, p: nat, b: Byte, q: nat)
    requires Shape(f) && f.wb <= p < f.we && f.rb <= q < f.rb + f.size
    ensures Store(f, p, b).At(q) == if q == p then b else f.At(q)
  {
    if q < p {
      SlotDistinct(q, p, f.size);
    } else if p < q {
      SlotDistinct(p, q, f.size);
    }
  }

  lemma StoreKeeps(f: State, p: nat, b: Byte)
    requires Inv(f) && f.wb <= p < f.we
    ensures Inv(Store(f, p, b))
  {
    var g := Store(f, p, b);
    forall q: nat | g.rb <= q < g.wb ensures g.At(q) == g.log[q] {
      StoreElsewhere(f, p, b, q);
      assert f.At(q) == f.log[q];
    }
  }

  /** Operations that leave the data alone keep it. */
  lemma SameDataKeeps(f: State, g: State)
    requires Inv(f)
    requires g == f.(readTrigger := g.readTrigger, writeTrigger := g.writeTrigger,
                     readFd := g.readFd, writeFd := g.writeFd, dead := g.dead)
    requires g.readTrigger > 0 && g.writeTrigger > 0
    ensures Inv(g)
  {
    forall q: nat | g.rb <= q < g.wb ensures g.At(q) == g.log[q] {
      assert f.At(q) == f.log[q];
    }
  }

  /** Every operation keeps the layout and the committed bytes. */
  lemma ApplyKeeps(f: State, op: Op)
    requires Inv(f) && Enabled(f, op)
    ensures Inv(Apply(f, op))
  {
    match op
    case LockReadOp(n) => LockReadKeeps(f, n);
    case UnlockReadOp(i) => UnlockReadKeeps(f, i);
    case LockWriteOp(n) => LockWriteKeeps(f, n);
    case UnlockWriteOp(i) => UnlockWriteKeeps(f, i);
    case StoreOp(p, b) => StoreKeeps(f, p, b);
    case _ => SameDataKeeps(f, Apply(f, op));
  }

  lemma NewInv(size: nat)
    requires 0 < size <= HALF_WORD
    ensures Inv(New(size)) && Awake(New(size))
  {
  }

  /** A run from a new fifo. */
  ghost predicate NewRun(fs: seq<State>, size: nat) {
    0 < size <= HALF_WORD && Run(fs) && |fs| > 0 && fs[0] == New(size)
  }

  /** Every state of every run from a new fifo has the layout and holds the committed bytes. */
  lemma {:induction false} RunKeeps(fs: seq<State>, size: nat, k: nat)
    requires NewRun(fs, size) && k < |fs|
    ensures Inv(fs[k]) && fs[k].size == size
  {
    hide Inv, Apply, Enabled;
    if k == 0 {
      NewInv(size);
    } else {
      RunKeeps(fs, size, k - 1);
      assert Step(fs[k - 1], fs[k - 1 + 1]);
      var op :| Enabled(fs[k - 1], op) && fs[k] == Apply(fs[k - 1], op);
      ApplyKeeps(fs[k - 1], op);
      ApplySize(fs[k - 1], op);
    }
  }

  lemma ApplySize(f: State, op: Op)
    requires |f.cells| == f.size > 0 && Enabled(f, op)
    ensures Apply(f, op).size == f.size
  {
    hide Slot, Sum, Peek, Oldest;
  }

  /** Copying one more byte into a locked write region extends what has been copied so far. */
  lemma StoreExtends(f: State, i: nat, b: Byte)
    requires Shape(f) && f.wb + i < f.we
    ensures Peek(Store(f, f.wb + i, b), f.wb, i + 1) == Peek(f, f.wb, i) + [b]
  {
    hide Slot, Sum;
    var g := Store(f, f.wb + i, b);
    forall j | 0 <= j <= i ensures Peek(g, f.wb, i + 1)[j] == (Peek(f, f.wb, i) + [b])[j] {
      StoreElsewhere(f, f.wb + i, b, f.wb + j);
    }
  }

  /** Bytes locked for reading are found in the ring as they were committed. */
  lemma PeekIsLog(f: State, i: nat)
    requires Inv(f) && f.rb <= i < f.wb
    ensures f.At(i) == f.log[i]
  {
  }

  lemma PeekSame(f: State, g: State, p: nat, n: nat)
    requires |f.cells| == f.size > 0 && g.cells == f.cells && g.size == f.size
    ensures Peek(g, p, n) == Peek(f, p, n)
  {
    hide Slot;
    forall i | 0 <= i < n ensures Peek(g, p, n)[i] == Peek(f, p, n)[i] {
      assert Peek(g, p, n)[i] == g.At(p + i) && Peek(f, p, n)[i] == f.At(p + i);
    }
  }

  /** A stretch of committed unread bytes. */
  lemma PeekIsLogSlice(f: State, p: nat, n: nat)
    requires Inv(f) && f.rb <= p && p + n <= f.wb
    ensures Peek(f, p, n) == f.log[p..p + n]
  {
    hide Slot, Sum;
    forall i | 0 <= i < n ensures Peek(f, p, n)[i] == f.log[p..p + n][i] {
      PeekIsLog(f, p + i);
    }
  }
}
