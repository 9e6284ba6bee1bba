/** The stream engine on top of a fifo, as a step system: `handle_stream`, `enqueue_transfer`,
    `fill_transfer` and `transfer_stream_cb` on one thread, interleaved with any operations of the
    writing side and with completions by the hardware, until the stream is closed. */
module StreamModel {
  import opened Ring
  import opened FifoModel
  import opened FifoRely
  import opened PoolModel
  import opened Rates

  const MAX_TRANSFERS: nat := 4
  const MAX_PACKETS: nat := 32

  /** Where the stream thread stands: waiting for events; about to lock, with the packets planned;
      about to enqueue, with the region locked; filling transfer `slot`, with `done` bytes copied;
      about to acknowledge the notification. */
  datatype Pc =
    | Waiting
    | Planned(lens: seq<nat>)
    | Locked(lens: seq<nat>, region: Region, start: nat)
    | Filling(slot: nat, done: nat)
    | Acking

  /** `queue` lists the transfers submitted and not yet completed, oldest first; `submitted` joins
      the bytes of all transfers at their submission and `packets` counts their packets. */
  datatype Stream = Stream(
    f: State,
    pool: seq<Xfer>, queue: seq<nat>,
    transCount: nat, fdEnabled: bool,
    rate: Rate, enqueueCount: nat,
    pc: Pc,
    submitted: seq<Byte>, packets: nat)

  datatype Action =
    | Wake(k: nat)
    | Lock
    | Enqueue
    | CopyByte
    | Submit
    | Ack
    | Complete
    | WriterSide(op: Op)

  /** The number of packets that the planning loop settles on: as many as are allowed and at hand. */
  predicate PlanOk(r: Rate, avail: int, allowed: nat, k: nat) {
    && k <= allowed
    && Sum(Chunks(r, k)) <= avail
    && (k == allowed || Sum(Chunks(r, k + 1)) > avail)
  }

  /** The memory that the hardware reads for a transfer: its region of the ring if contiguous, else
      its embedded buffer. */
  function Payload(x: Xfer, cells: seq<Byte>): seq<Byte>
    requires x.region.first + x.region.firstSize <= |cells|
    requires x.region.second == RingStart ==> x.region.Size() <= |x.data|
  {
    if x.region.second == RingStart then x.data[..x.region.Size()]
    else cells[x.region.first..x.region.first + x.region.firstSize]
  }

  /** Bytes to copy before a transfer can be submitted. */
  function ToCopy(r: Region): nat {
    if r.second == RingStart then r.Size() else 0
  }

  /** The cell that the two copies of a split region read for byte `i`. */
  function SourceCell(r: Region, i: nat): nat {
    if i < r.firstSize then r.first + i else i - r.firstSize
  }

  predicate Can(s: Stream, a: Action) {
    match a
    case Wake(k) =>
      s.pc.Waiting? && s.fdEnabled && s.f.readFd > 0 && PlanOk(s.rate, s.f.ReadAvail(), s.enqueueCount, k)
    case Lock => s.pc.Planned?
    case Enqueue => s.pc.Locked?
    case CopyByte =>
      s.pc.Filling? && s.pc.slot < |s.pool| && var x := s.pool[s.pc.slot];
      s.pc.done < ToCopy(x.region) <= |x.data| && SourceCell(x.region, s.pc.done) < |s.f.cells|
    case Submit =>
      s.pc.Filling? && s.pc.slot < |s.pool| && var x := s.pool[s.pc.slot];
      s.pc.done == ToCopy(x.region) <= |x.data| && x.region.first + x.region.firstSize <= |s.f.cells|
    case Ack => s.pc.Acking? && s.f.readFd > 0 && !s.f.dead
    case Complete => s.pc.Waiting? && s.queue != [] && s.queue[0] < |s.pool| && s.f.readSizes != [] && s.transCount > 0
    case WriterSide(op) => WriterOp(op) && Enabled(s.f, op)
  }

  function Next(s: Stream, a: Action): Stream
    requires |s.f.cells| == s.f.size > 0 && Can(s, a)
  {
    match a
    case Wake(k) =>
      s.(rate := After(s.rate, k), pc := if k == 0 then Acking else Planned(Chunks(s.rate, k)))
    case Lock =>
      var n := Sum(s.pc.lens);
      s.(f := LockRead(s.f, n), pc := Locked(s.pc.lens, RegionAt(s.f.re, n, s.f.size), s.f.re))
    case Enqueue =>
      var (pool, slot) := Obtain(s.pool, Required(s.pc.region));
      var x := pool[slot].(active := true, region := s.pc.region, lens := s.pc.lens, start := s.pc.start);
      s.(pool := pool[slot := x], pc := Filling(slot, 0))
    case CopyByte =>
      var x := s.pool[s.pc.slot];
      var b := s.f.cells[SourceCell(x.region, s.pc.done)];
      s.(pool := s.pool[s.pc.slot := x.(data := x.data[s.pc.done := b])], pc := s.pc.(done := s.pc.done + 1))
    case Submit =>
      var x := s.pool[s.pc.slot];
      s.(queue := s.queue + [s.pc.slot],
         transCount := s.transCount + 1,
         fdEnabled := s.fdEnabled && s.transCount + 1 < MAX_TRANSFERS,
         pc := Acking,
         submitted := s.submitted + Payload(x, s.f.cells),
         packets := s.packets + |x.lens|)
    case Ack => s.(f := AckRead(s.f), pc := Waiting)
    case Complete =>
      var i := s.queue[0];
      s.(pool := s.pool[i := s.pool[i].(active := false)], queue := s.queue[1..],
         transCount := s.transCount - 1, fdEnabled := true, f := UnlockRead(s.f, 0))
    case WriterSide(op) => s.(f := Apply(s.f, op))
  }

  function Init(size: nat, rate: Rate, enqueueCount: nat): Stream {
    Stream(New(size), [], [], 0, true, rate, enqueueCount, Waiting, [], 0)
  }

  // Bookkeeping ---------------------------------------------------------------------------------

  /** Transfers in use: those in flight, and one that is being filled. */
  ghost predicate PoolInv(s: Stream) {
    && (forall k | 0 <= k < |s.queue| :: s.queue[k] < |s.pool| && s.pool[s.queue[k]].active)
    && (forall j, k | 0 <= j < k < |s.queue| :: s.queue[j] != s.queue[k])
    && (s.pc.Filling? ==> s.pc.slot < |s.pool| && s.pool[s.pc.slot].active && s.pc.slot !in s.queue)
    && CountActive(s.pool) == |s.queue| + (if s.pc.Filling? then 1 else 0)
    && Bounded(s.pool, s.f.size, MAX_TRANSFERS)
    && (forall i | 0 <= i < |s.pool| :: |s.pool[i].data| == s.pool[i].capacity)
  }

  /** Back-pressure: the count is that of the transfers in flight, at most four, and the stream
      listens for data exactly while it could enqueue one more. */
  ghost predicate PressureInv(s: Stream) {
    && s.transCount == |s.queue| <= MAX_TRANSFERS
    && (s.fdEnabled <==> s.transCount < MAX_TRANSFERS)
    && (s.pc.Planned? || s.pc.Locked? || s.pc.Filling? ==> s.transCount < MAX_TRANSFERS)
    && (!s.pc.Waiting? ==> s.f.readFd > 0)
  }

  // Data ----------------------------------------------------------------------------------------

  /** The transfers in flight, oldest first. */
  function Flight(s: Stream): seq<Xfer>
    requires forall k | 0 <= k < |s.queue| :: s.queue[k] < |s.pool|
  {
    seq(|s.queue|, k requires 0 <= k < |s.queue| => s.pool[s.queue[k]])
  }

  function Sizes(xs: seq<Xfer>): seq<nat> {
    seq(|xs|, k requires 0 <= k < |xs| => Sum(xs[k].lens))
  }

  /** A transfer whose region lies at its stream position, with the first `done` bytes copied. */
  ghost predicate Filled(f: State, x: Xfer, done: nat) {
    var n := Sum(x.lens);
    && f.size > 0 && n < f.size
    && x.region == RegionAt(x.start, n, f.size)
    && x.start + n <= |f.log|
    && (x.region.second == RingStart ==>
          done <= n <= |x.data| && x.data[..done] == f.log[x.start..x.start + done])
  }

  /** A transfer ready for the hardware. */
  ghost predicate Loaded(f: State, x: Xfer) {
    Filled(f, x, Sum(x.lens)) && |x.lens| <= MAX_PACKETS
  }

  /** Laid end to end from the beginning of the locked read region, and all loaded. */
  ghost predicate InFlight(f: State, xs: seq<Xfer>) {
    && (forall k | 0 <= k < |xs| :: Loaded(f, xs[k]))
    && (forall k | 0 <= k < |xs| :: xs[k].start == f.rb + Sum(Sizes(xs)[..k]))
  }

  /** The region locked for a transfer that is not submitted yet. */
  ghost predicate PendingOk(s: Stream) {
    match s.pc
    case Locked(lens, region, start) =>
      && 0 < |lens| <= MAX_PACKETS && start + Sum(lens) == s.f.re && Sum(lens) < s.f.size
      && region == RegionAt(start, Sum(lens), s.f.size)
    case Filling(slot, done) =>
      slot < |s.pool| && var x := s.pool[slot];
      && 0 < |x.lens| <= MAX_PACKETS && x.start + Sum(x.lens) == s.f.re
      && Filled(s.f, x, done) && done <= ToCopy(x.region)
    case Planned(lens) => 0 < |lens| <= MAX_PACKETS && Sum(lens) <= s.f.ReadAvail()
    case _ => true
  }

  /** The packet lengths of a planned or pending transfer. */
  function Pending(s: Stream): seq<nat>
    requires s.pc.Filling? ==> s.pc.slot < |s.pool|
  {
    match s.pc
    case Planned(lens) => lens
    case Locked(lens, _, _) => lens
    case Filling(slot, _) => s.pool[slot].lens
    case _ => []
  }

  ghost predicate DataInv(s: Stream)
    requires PoolInv(s)
  {
    && Inv(s.f)
    && PendingOk(s)
    && InFlight(s.f, Flight(s))
    && s.f.readSizes == Sizes(Flight(s)) + (if s.pc.Locked? || s.pc.Filling? then [Sum(Pending(s))] else [])
    && s.submitted == s.f.log[..if s.pc.Locked? || s.pc.Filling? then s.f.re - Sum(Pending(s)) else s.f.re]
  }

  /** The rate accumulator is in step with the packets planned so far. */
  ghost predicate RateInv(s: Stream)
    requires s.pc.Filling? ==> s.pc.slot < |s.pool|
  {
    && Fits(s.rate) && s.enqueueCount <= MAX_PACKETS
    && InStep(s.rate, s.packets + |Pending(s)|)
    && |s.submitted| == Due(s.rate, s.packets)
    && |s.submitted| + Sum(Pending(s)) == Due(s.rate, s.packets + |Pending(s)|)
  }

  ghost predicate StreamInv(s: Stream) {
    PoolInv(s) && PressureInv(s) && DataInv(s) && RateInv(s)
  }
}
