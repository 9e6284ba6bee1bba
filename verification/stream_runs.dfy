/** What holds all along the runs of a stream, from its setup until it is closed. */
module StreamRuns {
  import opened Ring
  import opened FifoModel
  import opened FifoRely
  import opened PoolModel
  import opened Rates
  import opened StreamModel
  import opened StreamSteps
  import FifoLayout

  ghost predicate Steps(s: Stream, t: Stream) {
    |s.f.cells| == s.f.size > 0 && exists a :: Can(s, a) && t == Next(s, a)
  }

  /** Setup leaves a fifo of one of the possible sizes, a rate without overflow whose fraction
      starts at the speed, and a packet limit per transfer. */
  ghost predicate Setup(size: nat, rate: Rate, enqueueCount: nat) {
    0 < size <= HALF_WORD && Fits(rate) && rate.fraction == rate.speed && enqueueCount <= MAX_PACKETS
  }

  ghost predicate StreamRun(ss: seq<Stream>, size: nat, rate: Rate, enqueueCount: nat) {
    && Setup(size, rate, enqueueCount)
    && |ss| > 0 && ss[0] == Init(size, rate, enqueueCount)
    && forall k | 0 <= k < |ss| - 1 :: Steps(ss[k], ss[k + 1])
  }

  lemma InitKeeps(size: nat, rate: Rate, enqueueCount: nat)
    requires Setup(size, rate, enqueueCount)
    ensures StreamInv(Init(size, rate, enqueueCount))
  {
    hide Inv, Due, InStep, Fits, Sum, New, Bounded, CountActive, Filled, PoolInv, DataInv;
    var s := Init(size, rate, enqueueCount);
    NewInv(size);
    InitRate(rate);
    SumNil();
    InitFifo(size);
    InitPool(s);
    InitData(s);
  }

  lemma InitPool(s: Stream)
    requires s.pool == [] && s.queue == [] && s.pc.Waiting?
    ensures PoolInv(s)
  {
  }

  lemma InitData(s: Stream)
    requires PoolInv(s) && s.queue == [] && s.pc.Waiting? && Inv(s.f) && s.f.readSizes == [] && s.f.re == 0
    requires s.submitted == []
    ensures DataInv(s)
  {
    hide Inv, Sum, Bounded, CountActive, Filled;
    assert Flight(s) == [] && Sizes(Flight(s)) == [];
  }

  lemma InitRate(rate: Rate)
    requires rate.fraction == rate.speed
    ensures InStep(rate, 0) && Due(rate, 0) == 0
  {
    var zero := 0;
    assert rate.speed % HALF + zero * rate.speed == rate.speed % HALF;
  }

  lemma InitFifo(size: nat)
    ensures var f := New(size); f.size == size && f.readSizes == [] && f.log == [] && f.re == 0
  {
  }

  lemma NextRate(s: Stream, a: Action)
    requires |s.f.cells| == s.f.size > 0 && Can(s, a)
    ensures Next(s, a).rate.speed == s.rate.speed && Next(s, a).rate.mult == s.rate.mult
    ensures Next(s, a).f.size == s.f.size && |Next(s, a).pool| >= |s.pool|
  {
    hide Obtain, Payload, Sum, Slot, Peek, After;
    if a.Wake? {
      AfterSpeed(s.rate, a.k);
    }
    if a.Enqueue? {
      ObtainGrows(s.pool, Required(s.pc.region));
    }
  }

  lemma {:induction false} AfterSpeed(r: Rate, n: nat)
    ensures After(r, n).speed == r.speed && After(r, n).mult == r.mult
  {
    if n > 0 {
      AfterSpeed(r, n - 1);
    }
  }

  lemma ObtainGrows(pool: seq<Xfer>, required: nat)
    ensures |pool| <= |Obtain(pool, required).0| <= |pool| + 1
  {
  }

  lemma {:induction false} RunKeeps(ss: seq<Stream>, size: nat, rate: Rate, enqueueCount: nat, k: nat)
    requires StreamRun(ss, size, rate, enqueueCount) && k < |ss|
    ensures StreamInv(ss[k]) && ss[k].f.size == size
    ensures ss[k].rate.speed == rate.speed && ss[k].rate.mult == rate.mult
  {
    if k == 0 {
      InitKeeps(size, rate, enqueueCount);
    } else {
      RunKeeps(ss, size, rate, enqueueCount, k - 1);
      hide StreamInv, Next, Can;
      assert Steps(ss[k - 1], ss[k - 1 + 1]);
      var a :| Can(ss[k - 1], a) && ss[k] == Next(ss[k - 1], a);
      StepKeeps(ss[k - 1], a);
      NextRate(ss[k - 1], a);
    }
  }

  /** The number of transfers counted is that of the transfers in use (while one is being filled, it
      is in use but not yet counted), never exceeds four, and the stream listens for data exactly
      while it is below four. */
  lemma BackPressure(ss: seq<Stream>, size: nat, rate: Rate, enqueueCount: nat, k: nat)
    requires StreamRun(ss, size, rate, enqueueCount) && k < |ss|
    ensures var s := ss[k];
            && CountActive(s.pool) == s.transCount + (if s.pc.Filling? then 1 else 0) <= 4
            && s.transCount == |s.queue|
            && (s.fdEnabled <==> s.transCount < 4)
  {
    RunKeeps(ss, size, rate, enqueueCount, k);
    hide StreamRun, CountActive, Bounded, DataInv, RateInv;
  }

  /** The pool never holds more than four transfers of any capacity, and no more than four times the
      buffer size in all. */
  lemma PoolStaysSmall(ss: seq<Stream>, size: nat, rate: Rate, enqueueCount: nat, k: nat)
    requires StreamRun(ss, size, rate, enqueueCount) && k < |ss|
    ensures forall c: nat :: CountOf(ss[k].pool, c) <= 4
    ensures |ss[k].pool| <= 4 * size
  {
    RunKeeps(ss, size, rate, enqueueCount, k);
    hide StreamRun, CountActive, DataInv, RateInv;
    PoolSize(ss[k].pool, size, MAX_TRANSFERS);
  }

  /** How many of the first `n` steps of a run allocate a transfer. */
  ghost function Allocations(ss: seq<Stream>, n: nat): nat
    requires n < |ss|
  {
    if n == 0 then 0
    else Allocations(ss, n - 1) + if |ss[n].pool| > |ss[n - 1].pool| then 1 else 0
  }

  lemma {:induction false} AllocationsInPool(ss: seq<Stream>, size: nat, rate: Rate, enqueueCount: nat, n: nat)
    requires StreamRun(ss, size, rate, enqueueCount) && n < |ss|
    ensures Allocations(ss, n) <= |ss[n].pool|
  {
    if n > 0 {
      AllocationsInPool(ss, size, rate, enqueueCount, n - 1);
      hide Next, Can;
      assert Steps(ss[n - 1], ss[n - 1 + 1]);
      var a :| Can(ss[n - 1], a) && ss[n] == Next(ss[n - 1], a);
      NextRate(ss[n - 1], a);
    }
  }

  /** Allocation eventually stops: no run, however long, allocates more often than that. */
  lemma AllocationStops(ss: seq<Stream>, size: nat, rate: Rate, enqueueCount: nat, n: nat)
    requires StreamRun(ss, size, rate, enqueueCount) && n < |ss|
    ensures Allocations(ss, n) <= 4 * size
  {
    hide Allocations, StreamRun;
    PoolStaysSmall(ss, size, rate, enqueueCount, n);
    AllocationsInPool(ss, size, rate, enqueueCount, n);
  }

  /** End to end: the bytes of all transfers, in submission order, are the bytes first written to the
      stream, as many as the rate makes due for the packets sent. */
  lemma EndToEnd(ss: seq<Stream>, size: nat, rate: Rate, enqueueCount: nat, k: nat)
    requires StreamRun(ss, size, rate, enqueueCount) && k < |ss|
    ensures ss[k].submitted <= ss[k].f.log
    ensures |ss[k].submitted| == Due(rate, ss[k].packets)
  {
    RunKeeps(ss, size, rate, enqueueCount, k);
    hide StreamRun, PressureInv, InFlight, Stored, Sum, Sizes, Filled, Bounded, CountActive, Due, InStep, Flight;
    DueSame(rate, ss[k].rate, ss[k].packets);
    var s := ss[k];
    assert Sum(Pending(s)) <= s.f.re || !(s.pc.Locked? || s.pc.Filling?);
  }

  /** Any transfer in flight, at any time: its packet lengths sum to its region, and what the hardware
      finds in its memory is its stretch of the bytes written, for a contiguous region in the ring
      itself and for a split one in the copy. */
  lemma PayloadInFlight(ss: seq<Stream>, size: nat, rate: Rate, enqueueCount: nat, k: nat, i: nat)
    requires StreamRun(ss, size, rate, enqueueCount) && k < |ss| && i < |ss[k].queue|
    ensures ss[k].queue[i] < |ss[k].pool|
    ensures var s := ss[k]; var x := s.pool[s.queue[i]];
            && x.active && Sum(x.lens) == x.region.Size() && |x.lens| <= 32
            && x.region.first + x.region.firstSize <= |s.f.cells|
            && (x.region.second == RingStart ==> x.region.Size() <= |x.data|)
            && x.start + Sum(x.lens) <= |s.f.log|
            && Payload(x, s.f.cells) == s.f.log[x.start..x.start + Sum(x.lens)]
  {
    RunKeeps(ss, size, rate, enqueueCount, k);
    InFlightPayload(ss[k], i);
  }

  lemma InFlightPayload(s: Stream, i: nat)
    requires StreamInv(s) && i < |s.queue|
    ensures var x := s.pool[s.queue[i]];
            && x.active && Sum(x.lens) == x.region.Size() && |x.lens| <= 32
            && x.region.first + x.region.firstSize <= |s.f.cells|
            && (x.region.second == RingStart ==> x.region.Size() <= |x.data|)
            && x.start + Sum(x.lens) <= |s.f.log|
            && Payload(x, s.f.cells) == s.f.log[x.start..x.start + Sum(x.lens)]
            && x.start == s.f.rb + Sum(Sizes(Flight(s))[..i])
  {
    hide Stored, Bounded, CountActive, RateInv, PressureInv, Slot, Sum, Payload, Sizes;
    var x := s.pool[s.queue[i]];
    assert Flight(s)[i] == x && |Flight(s)| == |s.queue|;
    FlightFits(s, i);
    PayloadIsLog(s.f, x);
  }

  /** A transfer in flight lies within the locked read region. */
  lemma FlightFits(s: Stream, i: nat)
    requires StreamInv(s) && i < |s.queue|
    ensures |Sizes(Flight(s))| == |s.queue| && Sizes(Flight(s))[i] == Sum(s.pool[s.queue[i]].lens)
    ensures Sum(Sizes(Flight(s))[..i]) + Sizes(Flight(s))[i] <= s.f.re - s.f.rb
  {
    hide Stored, Bounded, CountActive, RateInv, PressureInv, Slot, Sum, InFlight;
    var sizes := Sizes(Flight(s));
    FifoLayout.PrefixFits(sizes, i);
    SumConcat(sizes, s.f.readSizes[|sizes|..]);
    assert s.f.readSizes == sizes + s.f.readSizes[|sizes|..];
  }

  /** Completions in submission order unlock successfully: the region of the oldest transfer is the
      oldest outstanding region, and the order check accepts it. */
  lemma CompletionUnlocks(ss: seq<Stream>, size: nat, rate: Rate, enqueueCount: nat, k: nat)
    requires StreamRun(ss, size, rate, enqueueCount) && k < |ss| && Can(ss[k], Complete)
    ensures var s := ss[k];
            && s.f.size > 0
            && s.pool[s.queue[0]].region == ReadRegion(s.f, 0)
            && Accepts(Slot(s.f.rb, s.f.size), ReadRegion(s.f, 0), s.f.size)
  {
    RunKeeps(ss, size, rate, enqueueCount, k);
    var s := ss[k];
    OldestRegion(s);
    FifoLayout.ReadUnlockExact(s.f, 0);
  }

  lemma OldestRegion(s: Stream)
    requires StreamInv(s) && |s.queue| > 0
    ensures |s.f.readSizes| > 0 && s.f.size > 0 && s.pool[s.queue[0]].region == ReadRegion(s.f, 0)
  {
    hide Stored, Bounded, CountActive, RateInv, PressureInv, Slot, Sum, RegionAt;
    FlightFits(s, 0);
    SumNil();
    assert Flight(s)[0] == s.pool[s.queue[0]];
    assert Sizes(Flight(s))[..0] == [] && s.f.readSizes[..0] == [];
  }

  lemma WaitingCan(s: Stream)
    requires StreamInv(s) && s.pc.Waiting? && s.queue != []
    ensures Can(s, Complete)
  {
    OldestRegion(s);
    hide Stored, Sum, Sizes, Filled, Bounded, CountActive, Flight, InFlight, Payload, RateInv;
  }

  lemma CompleteStep(s: Stream)
    requires StreamInv(s) && s.pc.Waiting? && s.queue != []
    ensures |s.f.cells| == s.f.size > 0 && Can(s, Complete) && StreamInv(Next(s, Complete))
    ensures var i := s.queue[0];
            && |s.f.readSizes| > 0 && Oldest(s.f.readSizes, 0) && s.pool[i].region == ReadRegion(s.f, 0)
            && s.transCount > 0
            && Next(s, Complete)
               == s.(pool := s.pool[i := s.pool[i].(active := false)], queue := s.queue[1..],
                     transCount := s.transCount - 1, fdEnabled := true, f := UnlockRead(s.f, 0))
  {
    hide StreamInv, ReadRegion, UnlockRead;
    InvCells(s);
    WaitingCan(s);
    OldestRegion(s);
    StepKeeps(s, Complete);
  }

  /** The thread of a stream that is not being closed can always go on, and a stream that waits with
      nothing in flight listens for data. */
  lemma ThreadNeverStuck(ss: seq<Stream>, size: nat, rate: Rate, enqueueCount: nat, k: nat)
    requires StreamRun(ss, size, rate, enqueueCount) && k < |ss|
    ensures var s := ss[k];
            match s.pc
            case Waiting => if s.queue == [] then s.fdEnabled else Can(s, Complete)
            case Planned(_) => Can(s, Lock)
            case Locked(_, _, _) => Can(s, Enqueue)
            case Filling(_, _) => Can(s, CopyByte) || Can(s, Submit)
            case Acking => s.f.dead || Can(s, Ack)
  {
    RunKeeps(ss, size, rate, enqueueCount, k);
    var s := ss[k];
    if s.pc.Waiting? && s.queue != [] {
      WaitingCan(s);
    }
    if s.pc.Filling? {
      FillingBounds(s);
    }
    hide StreamRun, Stored, Sum, Sizes, Filled, Bounded, CountActive, Flight, InFlight, Payload, RateInv;
  }

  // Memory of a transfer in flight --------------------------------------------------------------

  /** No step but its own completion touches a transfer in flight. */
  lemma StepLeavesFlight(s: Stream, a: Action, x: nat)
    requires StreamInv(s) && |s.f.cells| == s.f.size > 0 && Can(s, a)
    requires x in s.queue && x in Next(s, a).queue
    ensures Next(s, a).pool[x] == s.pool[x] && s.f.log <= Next(s, a).f.log
  {
    hide Stored, Sizes, Bounded, CountActive, Flight, InFlight, RateInv, PressureInv, Sum, Slot, Payload, Obtain;
    if a.WriterSide? {
      WriterOpRely(s.f, a.op);
    } else if a.Enqueue? {
      EnqueueLeaves(s);
    } else if a.Complete? {
      assert s.queue[0] !in Next(s, a).queue;
    }
  }

  lemma EnqueueLeaves(s: Stream)
    requires StreamInv(s) && |s.f.cells| == s.f.size > 0 && s.pc.Locked?
    ensures var (pool, slot) := Obtain(s.pool, Required(s.pc.region)); slot !in s.queue && s.pool <= pool
  {
    hide Bounded, CountActive, Flight, RateInv, Obtain;
    LockedRegion(s);
    EnqueuePool(s);
  }

  lemma QueuedPayload(s: Stream, x: nat, y: Xfer)
    requires StreamInv(s) && x in s.queue && x < |s.pool| && y == s.pool[x]
    ensures y.region.first + y.region.firstSize <= |s.f.cells|
    ensures y.region.second == RingStart ==> y.region.Size() <= |y.data|
    ensures y.start + Sum(y.lens) <= |s.f.log|
    ensures Payload(y, s.f.cells) == s.f.log[y.start..y.start + Sum(y.lens)]
  {
    hide StreamInv, Payload, Sizes, Flight, Sum;
    var i :| 0 <= i < |s.queue| && s.queue[i] == x;
    InFlightPayload(s, i);
  }

  /** From submission to completion, whatever the writing side does meanwhile, the memory that the
      hardware reads for a transfer does not change. */
  lemma PayloadStands(ss: seq<Stream>, size: nat, rate: Rate, enqueueCount: nat, j: nat, k: nat, x: nat)
    requires StreamRun(ss, size, rate, enqueueCount) && j <= k < |ss|
    requires forall m | j <= m <= k :: x in ss[m].queue
    ensures x < |ss[j].pool| && x < |ss[k].pool| && ss[k].pool[x] == ss[j].pool[x]
    ensures var y := ss[j].pool[x];
            && y.region.first + y.region.firstSize <= |ss[j].f.cells|
            && y.region.first + y.region.firstSize <= |ss[k].f.cells|
            && (y.region.second == RingStart ==> y.region.Size() <= |y.data|)
            && Payload(y, ss[k].f.cells) == Payload(y, ss[j].f.cells)
  {
    assert x in ss[j].queue && x in ss[k].queue;
    FlightPersists(ss, size, rate, enqueueCount, j, k, x);
    var y := ss[j].pool[x];
    hide *;
    QueuedPayload(ss[j], x, y);
    QueuedPayload(ss[k], x, y);
    SliceJoin(ss[j].f.log, ss[k].f.log, y.start, y.start + Sum(y.lens), |ss[k].f.log|);
  }

  lemma {:induction false} FlightPersists(ss: seq<Stream>, size: nat, rate: Rate, enqueueCount: nat,
                                         j: nat, k: nat, x: nat)
    requires StreamRun(ss, size, rate, enqueueCount) && j <= k < |ss|
    requires forall m | j <= m <= k :: x in ss[m].queue
    ensures StreamInv(ss[j]) && StreamInv(ss[k])
    ensures ss[k].pool[x] == ss[j].pool[x] && ss[j].f.log <= ss[k].f.log
    decreases k
  {
    RunKeeps(ss, size, rate, enqueueCount, k);
    if j < k {
      FlightPersists(ss, size, rate, enqueueCount, j, k - 1, x);
      hide StreamInv, Next, Can;
      assert Steps(ss[k - 1], ss[k - 1 + 1]);
      var a :| Can(ss[k - 1], a) && ss[k] == Next(ss[k - 1], a);
      assert x in ss[k - 1].queue && x in ss[k].queue;
      StepLeavesFlight(ss[k - 1], a, x);
    }
  }
}
