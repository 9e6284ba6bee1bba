/** Every step of the stream engine keeps its invariants. */
module StreamSteps {
  import opened Ring
  import opened FifoModel
  import opened FifoRely
  import opened PoolModel
  import opened Rates
  import opened StreamModel
  import FifoLayout

  // Data lemmas ---------------------------------------------------------------------------------

  lemma FilledRely(f: State, g: State, x: Xfer, done: nat)
    requires Filled(f, x, done) && g.size == f.size && f.log <= g.log
    ensures Filled(g, x, done)
  {
    hide RegionAt, Sum;
    if x.region.second == RingStart {
      SliceJoin(f.log, g.log, x.start, x.start + done, |g.log|);
    }
  }

  lemma InFlightRely(f: State, g: State, xs: seq<Xfer>)
    requires InFlight(f, xs) && g.size == f.size && g.rb == f.rb && f.log <= g.log
    ensures InFlight(g, xs)
  {
    hide Filled, Sum, Sizes;
    forall k | 0 <= k < |xs| ensures Loaded(g, xs[k]) {
      FilledRely(f, g, xs[k], Sum(xs[k].lens));
    }
  }

  /** Completing the oldest transfer leaves the others where they are. */
  lemma InFlightRest(f: State, g: State, xs: seq<Xfer>)
    requires InFlight(f, xs) && |xs| > 0
    requires g.size == f.size && g.log == f.log && g.rb == f.rb + Sum(xs[0].lens)
    ensures InFlight(g, xs[1..]) && Sizes(xs[1..]) == Sizes(xs)[1..]
  {
    hide Sum, RegionAt;
    var rest := xs[1..];
    assert Sizes(rest) == Sizes(xs)[1..];
    forall k | 0 <= k < |rest| ensures rest[k].start == g.rb + Sum(Sizes(rest)[..k]) {
      assert Sizes(xs)[..k + 1] == [Sizes(xs)[0]] + Sizes(rest)[..k];
      SumConcat([Sizes(xs)[0]], Sizes(rest)[..k]);
      SumOne(Sizes(xs)[0]);
    }
    forall k | 0 <= k < |rest| ensures Loaded(g, rest[k]) {
      assert Loaded(f, xs[k + 1]);
    }
  }

  lemma InFlightMore(f: State, xs: seq<Xfer>, x: Xfer)
    requires InFlight(f, xs) && Loaded(f, x) && x.start == f.rb + Sum(Sizes(xs))
    ensures InFlight(f, xs + [x]) && Sizes(xs + [x]) == Sizes(xs) + [Sum(x.lens)]
  {
    hide Sum, Loaded;
    var ys := xs + [x];
    assert Sizes(ys) == Sizes(xs) + [Sum(x.lens)];
    forall k | 0 <= k < |ys| ensures ys[k].start == f.rb + Sum(Sizes(ys)[..k]) {
      if k < |xs| {
        assert Sizes(ys)[..k] == Sizes(xs)[..k];
      } else {
        assert Sizes(ys)[..k] == Sizes(xs);
      }
    }
  }

  /** What the hardware reads for a loaded transfer is its stretch of the stream, both for a
      contiguous region and for a copied one. */
  lemma PayloadIsLog(f: State, x: Xfer)
    requires Inv(f) && Loaded(f, x) && f.rb <= x.start && x.start + Sum(x.lens) <= f.wb
    ensures x.region.first + x.region.firstSize <= |f.cells| && ToCopy(x.region) <= |x.data|
    ensures x.region.second == RingStart ==> x.region.Size() <= |x.data|
    ensures Payload(x, f.cells) == f.log[x.start..x.start + Sum(x.lens)]
  {
    hide Sum, Slot, Stored;
    var n := Sum(x.lens);
    FifoLayout.PiecesOf(x.start, n, f.size);
    if x.region.second != RingStart {
      ContiguousPayload(f, x.start, n, x.region);
    }
  }

  lemma ContiguousPayload(f: State, p: nat, n: nat, r: Region)
    requires Inv(f) && f.rb <= p && p + n <= f.wb && n < f.size
    requires r == RegionAt(p, n, f.size) && r.second != RingStart
    ensures r.first + r.firstSize <= |f.cells| && r.firstSize == n
    ensures f.cells[r.first..r.first + r.firstSize] == f.log[p..p + n]
  {
    hide Sum;
    FifoLayout.PiecesOf(p, n, f.size);
    var u, v := f.cells[r.first..r.first + n], f.log[p..p + n];
    forall i | 0 <= i < n ensures u[i] == v[i] {
      SlotStep(p, i, f.size);
      PeekIsLog(f, p + i);
    }
  }

  /** The copy loops of a split region read its stretch of the stream. */
  lemma SourceIsLog(f: State, p: nat, n: nat, i: nat)
    requires Inv(f) && f.rb <= p && p + n <= f.wb && i < n < f.size
    ensures var c := SourceCell(RegionAt(p, n, f.size), i);
            c < |f.cells| && f.cells[c] == f.log[p + i]
  {
    hide Sum;
    SlotStep(p, i, f.size);
    PeekIsLog(f, p + i);
  }

  // The pool ------------------------------------------------------------------------------------

  lemma EnqueuePool(s: Stream)
    requires PoolInv(s) && PressureInv(s) && s.pc.Locked? && Required(s.pc.region) < s.f.size
    ensures var (pool, slot) := Obtain(s.pool, Required(s.pc.region));
            slot !in s.queue && slot < |pool| && s.pool <= pool
    ensures |s.f.cells| == s.f.size > 0 ==> PoolInv(Next(s, Enqueue))
  {
    hide CountActive, Bounded, Vacant, Obtain;
    var (pool, slot) := Obtain(s.pool, Required(s.pc.region));
    ObtainBounded(s.pool, Required(s.pc.region), s.f.size, MAX_TRANSFERS);
    ObtainData(s.pool, Required(s.pc.region));
    assert slot < |s.pool| ==> !s.pool[slot].active;
    var x := pool[slot].(active := true, region := s.pc.region, lens := s.pc.lens, start := s.pc.start);
    CountActiveUpdate(pool, slot, x);
    BoundedUpdate(pool, slot, x, s.f.size, MAX_TRANSFERS);
  }

  lemma ObtainData(pool: seq<Xfer>, required: nat)
    requires forall i | 0 <= i < |pool| :: |pool[i].data| == pool[i].capacity
    ensures var (p, i) := Obtain(pool, required);
            forall i | 0 <= i < |p| :: |p[i].data| == p[i].capacity
  {
  }

  lemma BoundedUpdate(pool: seq<Xfer>, i: nat, x: Xfer, size: nat, k: nat)
    requires Bounded(pool, size, k) && i < |pool| && x.capacity == pool[i].capacity
    ensures Bounded(pool[i := x], size, k)
  {
    var p := pool[i := x];
    forall c: nat ensures CountOf(p, c) <= k {
      CountOfUpdate(pool, i, x, c);
    }
  }

  lemma CopyBytePool(s: Stream)
    requires PoolInv(s) && Can(s, CopyByte) && |s.f.cells| == s.f.size > 0
    ensures PoolInv(Next(s, CopyByte))
  {
    var t := Next(s, CopyByte);
    hide CountActive, Bounded;
    CountActiveUpdate(s.pool, s.pc.slot, t.pool[s.pc.slot]);
    BoundedUpdate(s.pool, s.pc.slot, t.pool[s.pc.slot], s.f.size, MAX_TRANSFERS);
  }

  lemma SubmitPool(s: Stream)
    requires PoolInv(s) && Can(s, Submit) && |s.f.cells| == s.f.size > 0
    ensures PoolInv(Next(s, Submit))
  {
    hide CountActive, Bounded, Payload;
  }

  lemma CompletePool(s: Stream)
    requires PoolInv(s) && Can(s, Complete) && |s.f.cells| == s.f.size > 0
    ensures PoolInv(Next(s, Complete))
  {
    hide CountActive, Bounded;
    var t := Next(s, Complete);
    var i := s.queue[0];
    CountActiveUpdate(s.pool, i, t.pool[i]);
    BoundedUpdate(s.pool, i, t.pool[i], s.f.size, MAX_TRANSFERS);
    assert forall k | 0 <= k < |t.queue| :: t.queue[k] == s.queue[k + 1];
  }

  // Data ----------------------------------------------------------------------------------------

  lemma FlightSame(s: Stream, t: Stream)
    requires forall k | 0 <= k < |s.queue| :: s.queue[k] < |s.pool|
    requires t.queue == s.queue && |t.pool| >= |s.pool|
    requires forall i | i in s.queue :: t.pool[i] == s.pool[i]
    ensures Flight(t) == Flight(s)
  {
  }

  /** A fifo that only the writing side, or an ack, has changed. */
  ghost predicate ReadSideSame(f: State, g: State) {
    && Inv(g) && g.size == f.size && g.rb == f.rb && g.re == f.re && g.readSizes == f.readSizes
    && f.wb <= g.wb && f.log <= g.log && f.re <= |f.log|
  }

  lemma DataFifoChanges(s: Stream, g: State)
    requires PoolInv(s) && DataInv(s) && ReadSideSame(s.f, g) && PoolInv(s.(f := g))
    ensures DataInv(s.(f := g))
  {
    hide Inv, Sum, Sizes, Filled, RegionAt, Flight, Bounded, CountActive;
    var t := s.(f := g);
    FlightSame(s, t);
    InFlightRely(s.f, g, Flight(s));
    if s.pc.Filling? {
      FilledRely(s.f, g, s.pool[s.pc.slot], s.pc.done);
    }
    SliceJoin(s.f.log, g.log, 0, |s.submitted|, |s.submitted|);
  }

  /** The region of a pending transfer lies right behind those in flight. */
  lemma PendingStart(s: Stream)
    requires PoolInv(s) && DataInv(s) && (s.pc.Locked? || s.pc.Filling?)
    ensures s.f.re - Sum(Pending(s)) == s.f.rb + Sum(Sizes(Flight(s)))
  {
    var n := Sum(Pending(s));
    SumConcat(Sizes(Flight(s)), [n]);
    SumOne(n);
  }

  /** Where the region of the transfer being filled lies. */
  lemma FillingFacts(s: Stream)
    requires PoolInv(s) && DataInv(s) && s.pc.Filling?
    ensures var x := s.pool[s.pc.slot];
            && s.f.rb <= x.start && x.start + Sum(x.lens) == s.f.re <= s.f.wb == |s.f.log|
            && x.start == s.f.rb + Sum(Sizes(Flight(s)))
            && Filled(s.f, x, s.pc.done)
  {
    hide Sum, Sizes, RegionAt, Bounded, CountActive, InFlight, Stored, Filled;
    PendingStart(s);
  }

  lemma CopySource(s: Stream)
    requires PoolInv(s) && DataInv(s) && Can(s, CopyByte)
    ensures var x := s.pool[s.pc.slot];
            && s.pc.done < Sum(x.lens) && s.pc.done < ToCopy(x.region)
            && s.f.cells[SourceCell(x.region, s.pc.done)] == s.f.log[x.start + s.pc.done]
  {
    hide Sum, Sizes, Bounded, CountActive, InFlight, Inv, Flight, Slot, SourceCell;
    FillingFacts(s);
    var x := s.pool[s.pc.slot];
    SourceIsLog(s.f, x.start, Sum(x.lens), s.pc.done);
  }

  lemma WakeData(s: Stream, k: nat)
    requires PoolInv(s) && DataInv(s) && Can(s, Wake(k)) && |s.f.cells| == s.f.size > 0 && s.enqueueCount <= MAX_PACKETS
    ensures PoolInv(Next(s, Wake(k))) && DataInv(Next(s, Wake(k)))
  {
    hide Inv, Sum, Sizes, Filled, RegionAt, Flight, Bounded, CountActive, InFlight, After;
    FlightSame(s, Next(s, Wake(k)));
  }

  lemma LockData(s: Stream)
    requires PoolInv(s) && DataInv(s) && Can(s, Lock) && |s.f.cells| == s.f.size > 0
    ensures PoolInv(Next(s, Lock)) && DataInv(Next(s, Lock))
  {
    hide Stored, Sum, Sizes, Filled, RegionAt, Flight, Bounded, CountActive, InFlight, Slot;
    var t := Next(s, Lock);
    LockReadKeeps(s.f, Sum(s.pc.lens));
    FlightSame(s, t);
    InFlightRely(s.f, t.f, Flight(s));
  }

  lemma LockedRegion(s: Stream)
    requires PoolInv(s) && DataInv(s) && s.pc.Locked?
    ensures Required(s.pc.region) < s.f.size && ToCopy(s.pc.region) == Required(s.pc.region) <= Sum(s.pc.lens)
    ensures s.pc.region.second == RingStart ==> Required(s.pc.region) == Sum(s.pc.lens)
  {
    hide Sum, Sizes, Flight, Bounded, CountActive, InFlight, Inv, Slot;
  }

  lemma EnqueueData(s: Stream)
    requires PoolInv(s) && PressureInv(s) && DataInv(s) && Can(s, Enqueue) && |s.f.cells| == s.f.size > 0
    ensures PoolInv(Next(s, Enqueue)) && DataInv(Next(s, Enqueue))
  {
    hide Stored, Sum, Sizes, RegionAt, Flight, Bounded, CountActive, InFlight, Obtain, Slot;
    LockedRegion(s);
    EnqueuePool(s);
    var t := Next(s, Enqueue);
    ObtainBounded(s.pool, Required(s.pc.region), s.f.size, MAX_TRANSFERS);
    FlightSame(s, t);
  }

  lemma CopyByteData(s: Stream)
    requires PoolInv(s) && DataInv(s) && Can(s, CopyByte) && |s.f.cells| == s.f.size > 0
    ensures PoolInv(Next(s, CopyByte)) && DataInv(Next(s, CopyByte))
  {
    hide Inv, Sum, Sizes, RegionAt, Flight, Bounded, CountActive, InFlight, SourceCell, ToCopy, Filled;
    CopyBytePool(s);
    FillingFacts(s);
    CopySource(s);
    FilledMore(s.f, s.pool[s.pc.slot], s.pc.done);
    FlightSame(s, Next(s, CopyByte));
  }

  lemma FilledMore(f: State, x: Xfer, i: nat)
    requires Filled(f, x, i) && i < ToCopy(x.region) && i < |x.data| && x.start + i < |f.log|
    ensures Filled(f, x.(data := x.data[i := f.log[x.start + i]]), i + 1)
  {
    hide Sum, Slot;
    var b := f.log[x.start + i];
    assert x.data[i := b][..i + 1] == x.data[..i] + [b];
  }

  lemma FilledLoaded(f: State, x: Xfer, done: nat)
    requires Filled(f, x, done) && done == ToCopy(x.region) && |x.lens| <= MAX_PACKETS
    ensures Loaded(f, x)
  {
    hide Sum, Slot;
  }

  /** A transfer with everything copied that must be copied is ready for the hardware. */
  lemma SubmitLoaded(s: Stream)
    requires PoolInv(s) && DataInv(s) && Can(s, Submit)
    ensures var x := s.pool[s.pc.slot];
            && Loaded(s.f, x) && Payload(x, s.f.cells) == s.f.log[x.start..s.f.re]
  {
    hide Sum, Sizes, Bounded, CountActive, InFlight, Flight, Payload, Filled, Inv, Loaded;
    FillingFacts(s);
    var x := s.pool[s.pc.slot];
    FilledLoaded(s.f, x, s.pc.done);
    PayloadIsLog(s.f, x);
  }

  lemma SubmitData(s: Stream)
    requires PoolInv(s) && DataInv(s) && Can(s, Submit) && |s.f.cells| == s.f.size > 0
    ensures PoolInv(Next(s, Submit)) && DataInv(Next(s, Submit))
  {
    hide Inv, Sum, Sizes, RegionAt, Bounded, CountActive, InFlight, Payload, Filled, Flight;
    SubmitPool(s);
    FillingFacts(s);
    SubmitLoaded(s);
    var x := s.pool[s.pc.slot];
    var t := Next(s, Submit);
    InFlightMore(s.f, Flight(s), x);
    FlightMore(s, t);
    SliceJoin(s.f.log, s.f.log, 0, x.start, s.f.re);
  }

  lemma FlightMore(s: Stream, t: Stream)
    requires PoolInv(s) && s.pc.Filling? && t.pool == s.pool && t.queue == s.queue + [s.pc.slot]
    ensures Flight(t) == Flight(s) + [s.pool[s.pc.slot]]
  {
    hide CountActive, Bounded;
  }

  lemma CompleteData(s: Stream)
    requires PoolInv(s) && DataInv(s) && Can(s, Complete) && |s.f.cells| == s.f.size > 0
    ensures PoolInv(Next(s, Complete)) && DataInv(Next(s, Complete))
  {
    hide Stored, Sum, RegionAt, Bounded, CountActive, Flight, InFlight, Slot;
    var t := Next(s, Complete);
    CompletePool(s);
    UnlockReadKeeps(s.f, 0);
    FlightRest(s, t);
    FlightLength(s);
    assert s.f.readSizes[0] == Sum(Flight(s)[0].lens);
    InFlightRest(s.f, t.f, Flight(s));
  }

  lemma FlightLength(s: Stream)
    requires PoolInv(s)
    ensures |Flight(s)| == |s.queue|
  {
  }

  lemma FlightRest(s: Stream, t: Stream)
    requires PoolInv(s) && |s.queue| > 0 && t.queue == s.queue[1..] && |t.pool| == |s.pool|
    requires forall i | 0 <= i < |s.pool| && i != s.queue[0] :: t.pool[i] == s.pool[i]
    ensures Flight(t) == Flight(s)[1..]
  {
    hide CountActive, Bounded;
    assert forall k | 0 <= k < |t.queue| :: t.queue[k] == s.queue[k + 1];
  }

  lemma AckData(s: Stream)
    requires PoolInv(s) && DataInv(s) && Can(s, Ack) && |s.f.cells| == s.f.size > 0
    ensures PoolInv(Next(s, Ack)) && DataInv(Next(s, Ack))
  {
    hide Stored, Sum, Sizes, RegionAt, Bounded, CountActive, InFlight, Flight, Slot;
    var g := AckRead(s.f);
    SameDataKeeps(s.f, g);
    DataFifoChanges(s, g);
    FlightSame(s, s.(f := g));
    FlightSame(s, Next(s, Ack));
  }

  lemma WriterSideData(s: Stream, op: Op)
    requires PoolInv(s) && DataInv(s) && Can(s, WriterSide(op)) && |s.f.cells| == s.f.size > 0
    ensures PoolInv(Next(s, WriterSide(op))) && DataInv(Next(s, WriterSide(op)))
  {
    WriterOpRely(s.f, op);
    hide Stored, Sum, Sizes, RegionAt, Bounded, CountActive, InFlight, Flight, Apply;
    DataFifoChanges(s, Apply(s.f, op));
  }

  // Back-pressure and rate ----------------------------------------------------------------------

  lemma PressureStep(s: Stream, a: Action)
    requires PoolInv(s) && PressureInv(s) && DataInv(s) && Can(s, a) && |s.f.cells| == s.f.size > 0
    ensures PressureInv(Next(s, a))
  {
    hide Stored, Sum, Sizes, RegionAt, Bounded, CountActive, InFlight, Flight, Slot, Payload, After, Obtain, Chunks;
    if a.WriterSide? {
      WriterOpRely(s.f, a.op);
    }
  }

  lemma WakeRate(s: Stream, k: nat)
    requires Can(s, Wake(k)) && RateInv(s) && |s.f.cells| == s.f.size > 0
    ensures RateInv(Next(s, Wake(k)))
  {
    hide Sum, Due, InStep, Fits, Chunks, After;
    SumNil();
    AfterInStep(s.rate, s.packets, k);
    TotalExact(s.rate, s.packets, k);
    DueSame(s.rate, After(s.rate, k), s.packets);
    DueSame(s.rate, After(s.rate, k), s.packets + k);
  }

  lemma DueSame(r: Rate, t: Rate, n: nat)
    requires t.speed == r.speed && t.mult == r.mult
    ensures Due(t, n) == Due(r, n)
  {
  }

  lemma SubmitRate(s: Stream)
    requires PoolInv(s) && DataInv(s) && RateInv(s) && Can(s, Submit) && |s.f.cells| == s.f.size > 0
    ensures RateInv(Next(s, Submit))
  {
    hide Inv, Sum, Sizes, RegionAt, Bounded, CountActive, InFlight, Payload, Filled, Flight, Due, InStep, Fits;
    SumNil();
    FillingFacts(s);
    SubmitLoaded(s);
  }

  lemma RateStep(s: Stream, a: Action)
    requires PoolInv(s) && DataInv(s) && RateInv(s) && Can(s, a) && |s.f.cells| == s.f.size > 0
    requires PoolInv(Next(s, a))
    ensures RateInv(Next(s, a))
  {
    hide Inv, Sum, Sizes, RegionAt, Bounded, CountActive, InFlight, Payload, Flight, Due, InStep, Fits;
    match a
    case Wake(k) => WakeRate(s, k);
    case Submit => SubmitRate(s);
    case _ =>
  }

  /** Every step keeps the whole invariant. */
  lemma StepKeeps(s: Stream, a: Action)
    requires StreamInv(s) && |s.f.cells| == s.f.size > 0 && Can(s, a)
    ensures StreamInv(Next(s, a))
  {
    assert s.enqueueCount <= MAX_PACKETS;
    hide PressureInv, RateInv, DataInv, PoolInv, Next, Can;
    PressureStep(s, a);
    match a
    case Wake(k) => WakeData(s, k); RateStep(s, a);
    case Lock => LockData(s); RateStep(s, a);
    case Enqueue => EnqueueData(s); RateStep(s, a);
    case CopyByte => CopyByteData(s); RateStep(s, a);
    case Submit => SubmitData(s); RateStep(s, a);
    case Ack => AckData(s); RateStep(s, a);
    case Complete => CompleteData(s); RateStep(s, a);
    case WriterSide(op) => WriterSideData(s, op); RateStep(s, a);
  }

  /** Any number of operations of the writing side keep the whole invariant. */
  lemma WriterRunsKeep(s: Stream, g: State)
    requires StreamInv(s) && WriterRely(s.f, g)
    ensures StreamInv(s.(f := g))
  {
    hide Sum, Sizes, RegionAt, Bounded, CountActive, InFlight, Flight, Stored, Slot, Due, InStep, Fits, Filled;
    DataFifoChanges(s, g);
  }

  /** What a step of the stream thread on a pending transfer leaves alone. */
  ghost predicate SameBooks(s: Stream, t: Stream) {
    && t.queue == s.queue && t.submitted == s.submitted && t.packets == s.packets
    && t.rate == s.rate && t.enqueueCount == s.enqueueCount
    && t.transCount == s.transCount && t.fdEnabled == s.fdEnabled
    && s.f.log <= t.f.log && (s.f.dead ==> t.f.dead)
  }

  /** The source and target of the copies into the transfer being filled. */
  lemma FillingBounds(s: Stream)
    requires StreamInv(s) && s.pc.Filling?
    ensures s.pc.slot < |s.pool| && |s.f.cells| == s.f.size > 0
    ensures var x := s.pool[s.pc.slot];
            && ToCopy(x.region) <= |x.data|
            && x.region.first + x.region.firstSize <= |s.f.cells| && x.region.secondSize <= |s.f.cells|
            && (s.pc.done < ToCopy(x.region) ==> Can(s, CopyByte))
            && (s.pc.done == ToCopy(x.region) ==> Can(s, Submit))
  {
    hide Stored, Sizes, Bounded, CountActive, Flight, InFlight, RateInv, PressureInv, Sum, Slot;
    FillingFacts(s);
    var x := s.pool[s.pc.slot];
    FifoLayout.PiecesOf(x.start, Sum(x.lens), s.f.size);
  }

  // The steps of the stream thread, one by one --------------------------------------------------

  lemma InvCells(s: Stream)
    requires StreamInv(s)
    ensures |s.f.cells| == s.f.size > 0
  {
  }

  lemma WakeStep(s: Stream, k: nat)
    requires StreamInv(s) && s.pc.Waiting? && s.fdEnabled && s.f.readFd > 0
    requires PlanOk(s.rate, s.f.ReadAvail(), s.enqueueCount, k)
    ensures |s.f.cells| == s.f.size > 0 && Can(s, Wake(k)) && StreamInv(Next(s, Wake(k)))
    ensures Next(s, Wake(k))
            == s.(rate := After(s.rate, k), pc := if k == 0 then Acking else Planned(Chunks(s.rate, k)))
  {
    InvCells(s);
    StepKeeps(s, Wake(k));
  }

  lemma LockStep(s: Stream)
    requires StreamInv(s) && s.pc.Planned?
    ensures |s.f.cells| == s.f.size > 0 && Can(s, Lock) && StreamInv(Next(s, Lock))
    ensures var n := Sum(s.pc.lens);
            && n <= s.f.ReadAvail()
            && Next(s, Lock)
               == s.(f := LockRead(s.f, n), pc := Locked(s.pc.lens, RegionAt(s.f.re, n, s.f.size), s.f.re))
  {
    InvCells(s);
    StepKeeps(s, Lock);
  }

  lemma EnqueueStep(s: Stream)
    requires StreamInv(s) && s.pc.Locked?
    ensures |s.f.cells| == s.f.size > 0 && Can(s, Enqueue) && StreamInv(Next(s, Enqueue))
    ensures var (pool, slot) := Obtain(s.pool, Required(s.pc.region));
            var x := pool[slot].(active := true, region := s.pc.region, lens := s.pc.lens, start := s.pc.start);
            Next(s, Enqueue) == s.(pool := pool[slot := x], pc := Filling(slot, 0))
    ensures SameBooks(s, Next(s, Enqueue))
  {
    InvCells(s);
    StepKeeps(s, Enqueue);
  }

  lemma CopyStep(s: Stream)
    requires StreamInv(s) && s.pc.Filling? && s.pc.slot < |s.pool| && s.pc.done < ToCopy(s.pool[s.pc.slot].region)
    ensures |s.f.cells| == s.f.size > 0 && Can(s, CopyByte) && StreamInv(Next(s, CopyByte))
    ensures var x := s.pool[s.pc.slot];
            && s.pc.done < |x.data| && SourceCell(x.region, s.pc.done) < |s.f.cells|
            && var b := s.f.cells[SourceCell(x.region, s.pc.done)];
            Next(s, CopyByte) == s.(pool := s.pool[s.pc.slot := x.(data := x.data[s.pc.done := b])],
                                    pc := s.pc.(done := s.pc.done + 1))
    ensures SameBooks(s, Next(s, CopyByte))
  {
    FillingBounds(s);
    StepKeeps(s, CopyByte);
  }

  lemma SubmitStep(s: Stream)
    requires StreamInv(s) && s.pc.Filling? && s.pc.slot < |s.pool| && s.pc.done == ToCopy(s.pool[s.pc.slot].region)
    ensures |s.f.cells| == s.f.size > 0 && Can(s, Submit) && StreamInv(Next(s, Submit))
    ensures var t := Next(s, Submit);
            && t == s.(queue := s.queue + [s.pc.slot], transCount := s.transCount + 1, pc := Acking,
                       fdEnabled := s.fdEnabled && s.transCount + 1 < MAX_TRANSFERS,
                       submitted := t.submitted, packets := s.packets + |s.pool[s.pc.slot].lens|)
            && s.submitted <= t.submitted
  {
    hide StreamInv, Payload, ToCopy;
    FillingBounds(s);
    StepKeeps(s, Submit);
  }

  lemma AckStep(s: Stream)
    requires StreamInv(s) && s.pc.Acking?
    ensures s.f.readFd > 0 && |s.f.cells| == s.f.size > 0
    ensures !s.f.dead ==> Can(s, Ack) && StreamInv(Next(s, Ack)) && Next(s, Ack) == s.(f := AckRead(s.f), pc := Waiting)
  {
    InvCells(s);
    if !s.f.dead {
      AckCan(s);
      StepKeeps(s, Ack);
    }
  }

  lemma AckCan(s: Stream)
    requires StreamInv(s) && s.pc.Acking?
    ensures s.f.readFd > 0
  {
  }

  // Setup ---------------------------------------------------------------------------------------

  /** Setting both triggers of a fifo to the same value. */
  lemma SetupTriggers(s: Stream, frag: nat)
    requires StreamInv(s) && frag < WORD && s.f.readTrigger == s.f.writeTrigger == 1
    ensures var g := SetReadTrigger(s.f, frag);
            var h := SetWriteTrigger(g, frag);
            && StreamInv(s.(f := g)) && StreamInv(s.(f := h)) && g.size == h.size == s.f.size
            && (TriggerOk(frag, 1, s.f.size) ==> g == s.f.(readTrigger := Trigger(frag)))
            && (TriggerOk(frag, 1, s.f.size) && TriggerOk(frag, Trigger(frag), s.f.size)
                ==> h == s.f.(readTrigger := Trigger(frag), writeTrigger := Trigger(frag)))
            && (TriggerOk(frag, 1, s.f.size) && TriggerOk(frag, Trigger(frag), s.f.size)
                <==> 2 * Trigger(frag) < s.f.size)
  {
    TriggerTwice(frag, s.f.size);
    hide TriggerOk, StreamInv, Apply;
    var g := SetReadTrigger(s.f, frag);
    TriggerRely(s, SetReadTriggerOp(frag));
    TriggerRely(s.(f := g), SetWriteTriggerOp(frag));
  }

  lemma TriggerRely(s: Stream, op: Op)
    requires StreamInv(s) && Enabled(s.f, op) && (op.SetReadTriggerOp? || op.SetWriteTriggerOp?)
    ensures |s.f.cells| == s.f.size > 0 && StreamInv(s.(f := Apply(s.f, op)))
    ensures Apply(s.f, op) == if op.SetReadTriggerOp? then SetReadTrigger(s.f, op.t) else SetWriteTrigger(s.f, op.t)
  {
    InvCells(s);
    WriterOpRely(s.f, op);
    hide StreamInv;
    WriterRunsKeep(s, Apply(s.f, op));
  }

  /** The two overlap tests of stream setup leave no room for a sum that wraps around. */
  lemma TriggerTwice(frag: nat, size: nat)
    requires frag < WORD && 0 < size <= HALF_WORD
    ensures TriggerOk(frag, 1, size) && TriggerOk(frag, Trigger(frag), size) <==> 2 * Trigger(frag) < size
  {
  }
}
