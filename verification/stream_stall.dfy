/** When a stream can come to a halt for good: the writer has too little room to be notified, and nothing
    that the stream thread and the hardware do ever changes that. */
module StreamStall {
  import opened Ring
  import opened FifoModel
  import FifoRely
  import opened PoolModel
  import opened Rates
  import opened StreamModel
  import opened StreamSteps
  import opened StreamRuns
  import Bits
  import Streams

  /** What stream setup fixes: buffer size, rate, packet limit, and the value of both triggers. */
  datatype Config = Config(size: nat, rate: Rate, count: nat, trigger: nat)

  /** A setup that the trigger calls accept. */
  ghost predicate Sound(c: Config) {
    Setup(c.size, c.rate, c.count) && c.count > 0 && c.trigger > 0 && 2 * c.trigger < c.size
  }

  predicate Triggered(c: Config, f: State) {
    f.readTrigger == f.writeTrigger == c.trigger
  }

  /** A stream as setup leaves it, behind the two trigger calls. */
  function Fresh(c: Config): Stream {
    Streams.SetUp(c.size, c.rate, c.count, c.trigger)
  }

  /** A run that begins with the two trigger calls and leaves the triggers as they are from then on. */
  ghost predicate SetUpRun(ss: seq<Stream>, c: Config) {
    && StreamRun(ss, c.size, c.rate, c.count) && |ss| >= 3 && ss[2] == Fresh(c)
    && forall k | 2 <= k < |ss| :: Triggered(c, ss[k].f)
  }

  ghost predicate Reached(c: Config, s: Stream) {
    exists ss :: SetUpRun(ss, c) && ss[|ss| - 1] == s
  }

  /** A run of the stream thread and the hardware alone. */
  ghost predicate OwnRun(ss: seq<Stream>) {
    |ss| > 0 && forall k | 0 <= k < |ss| - 1 :: OwnStep(ss[k], ss[k + 1])
  }

  ghost predicate OwnStep(s: Stream, t: Stream) {
    |s.f.cells| == s.f.size > 0 && exists a :: Can(s, a) && !a.WriterSide? && t == Next(s, a)
  }

  ghost predicate Own(s: Stream, t: Stream) {
    exists ss :: OwnRun(ss) && ss[0] == s && ss[|ss| - 1] == t
  }

  /** The writer of a live stream has nothing locked, is not notified, and has too little room to be. */
  predicate WriterWaits(s: Stream) {
    !s.f.dead && s.f.writeSizes == [] && s.f.writeFd == 0 && s.f.WriteAvail() < s.f.writeTrigger
  }

  /** And so it stays, whatever thread and hardware do. */
  ghost predicate Halted(c: Config, s: Stream) {
    Reached(c, s) && WriterWaits(s) && forall t :: Own(s, t) ==> WriterWaits(t)
  }

  /** The size of the largest packets of a stream. */
  function Biggest(r: Rate): nat {
    (r.speed / HALF + if r.speed % HALF == 0 then 0 else 1) * r.mult
  }

  // Thread and hardware alone -------------------------------------------------------------------

  /** A reader with enough to read is notified. */
  predicate ReadAwake(f: State) {
    f.ReadAvail() >= f.readTrigger ==> f.readFd > 0
  }

  /** The fifo as thread and hardware change it: they leave the writer's side alone and only make room,
      with a notification if it is enough, and leave a reader with enough to read notified. */
  predicate Released(f: State, g: State) {
    && g.size == f.size && g.wb == f.wb && g.we == f.we && g.writeSizes == f.writeSizes && g.dead == f.dead
    && g.readTrigger == f.readTrigger && g.writeTrigger == f.writeTrigger
    && f.rb <= g.rb && f.writeFd <= g.writeFd
    && (g.writeFd > f.writeFd ==> g.WriteAvail() >= g.writeTrigger)
    && (g.WriteAvail() >= g.writeTrigger && g.writeFd == 0 ==> f.WriteAvail() >= f.writeTrigger)
    && (ReadAwake(f) ==> ReadAwake(g))
  }

  ghost predicate OwnRely(s: Stream, t: Stream) {
    && StreamInv(t) && Released(s.f, t.f)
    && t.rate.speed == s.rate.speed && t.rate.mult == s.rate.mult && t.enqueueCount == s.enqueueCount
    && s.packets <= t.packets
  }

  lemma OwnStepRely(s: Stream, a: Action)
    requires StreamInv(s) && |s.f.cells| == s.f.size > 0 && Can(s, a) && !a.WriterSide?
    ensures OwnRely(s, Next(s, a))
  {
    StepKeeps(s, a);
    NextRate(s, a);
    hide StreamInv, Released;
    OwnFifo(s, a);
  }

  lemma OwnFifo(s: Stream, a: Action)
    requires |s.f.cells| == s.f.size > 0 && Can(s, a) && !a.WriterSide?
    ensures Released(s.f, Next(s, a).f) && s.packets <= Next(s, a).packets
    ensures Next(s, a).enqueueCount == s.enqueueCount
  {
    hide Obtain, Payload, Slot, Sum, Peek, After, Chunks, PlanOk, RegionAt, Released, LockRead, AckRead, UnlockRead;
    match a {
      case Lock => LockReleases(s.f, Sum(s.pc.lens));
      case Ack => AckReleases(s.f);
      case Complete => UnlockReleases(s.f);
      case _ => SameReleases(s.f);
    }
  }

  lemma SameReleases(f: State)
    ensures Released(f, f)
  {
  }

  lemma LockReleases(f: State, n: nat)
    ensures Released(f, LockRead(f, n))
  {
  }

  lemma AckReleases(f: State)
    ensures Released(f, AckRead(f))
  {
  }

  lemma UnlockReleases(f: State)
    requires |f.readSizes| > 0
    ensures Released(f, UnlockRead(f, 0))
  {
    hide Oldest;
  }

  lemma OwnRelyJoins(s: Stream, t: Stream, u: Stream)
    requires OwnRely(s, t) && OwnRely(t, u)
    ensures OwnRely(s, u)
  {
    hide StreamInv;
  }

  lemma OwnRelySame(s: Stream)
    requires StreamInv(s)
    ensures OwnRely(s, s)
  {
    hide StreamInv;
  }

  lemma {:induction false} OwnRunRely(ss: seq<Stream>, k: nat)
    requires OwnRun(ss) && StreamInv(ss[0]) && k < |ss|
    ensures OwnRely(ss[0], ss[k])
  {
    hide StreamInv, OwnRely, Can, Next;
    if k == 0 {
      OwnRelySame(ss[0]);
    } else {
      OwnRunRely(ss, k - 1);
      assert OwnStep(ss[k - 1], ss[k - 1 + 1]);
      var a :| Can(ss[k - 1], a) && !a.WriterSide? && ss[k] == Next(ss[k - 1], a);
      OwnRelyInv(ss[0], ss[k - 1]);
      OwnStepRely(ss[k - 1], a);
      OwnRelyJoins(ss[0], ss[k - 1], ss[k]);
    }
  }

  lemma OwnRelyInv(s: Stream, t: Stream)
    requires OwnRely(s, t)
    ensures StreamInv(t)
  {
    hide StreamInv;
  }

  /** Whatever thread and hardware do, and for however long. */
  lemma OwnKeeps(s: Stream, t: Stream)
    requires Own(s, t) && StreamInv(s)
    ensures OwnRely(s, t)
  {
    hide StreamInv, OwnRely;
    var ss :| OwnRun(ss) && ss[0] == s && ss[|ss| - 1] == t;
    OwnRunRely(ss, |ss| - 1);
  }

  lemma OwnNone(s: Stream)
    ensures Own(s, s)
  {
    assert OwnRun([s]) && [s][0] == s && [s][|[s]| - 1] == s;
  }

  lemma OwnOne(s: Stream, a: Action)
    requires |s.f.cells| == s.f.size > 0 && Can(s, a) && !a.WriterSide?
    ensures Own(s, Next(s, a))
  {
    hide Can, Next;
    var ss := [s, Next(s, a)];
    assert OwnStep(ss[0], ss[1]);
    assert OwnRun(ss);
  }

  lemma OwnJoins(s: Stream, t: Stream, u: Stream)
    requires Own(s, t) && Own(t, u)
    ensures Own(s, u)
  {
    hide OwnStep;
    var ss :| OwnRun(ss) && ss[0] == s && ss[|ss| - 1] == t;
    var tt :| OwnRun(tt) && tt[0] == t && tt[|tt| - 1] == u;
    var all := ss + tt[1..];
    forall k | 0 <= k < |all| - 1 ensures OwnStep(all[k], all[k + 1]) {
      if k < |ss| - 1 {
        assert all[k] == ss[k] && all[k + 1] == ss[k + 1];
      } else {
        assert all[k] == tt[k - (|ss| - 1)] && all[k + 1] == tt[k - (|ss| - 1) + 1];
      }
    }
    assert OwnRun(all) && all[0] == s && all[|all| - 1] == u;
  }

  // Reached states ------------------------------------------------------------------------------

  ghost predicate Sane(c: Config, s: Stream) {
    && StreamInv(s) && |s.f.cells| == s.f.size == c.size > 0 && Triggered(c, s.f) && ReadAwake(s.f)
    && s.rate.speed == c.rate.speed && s.rate.mult == c.rate.mult && s.enqueueCount == c.count
  }

  lemma FreshSane(c: Config)
    requires Sound(c)
    ensures Sane(c, Fresh(c))
  {
    InitKeeps(c.size, c.rate, c.count);
    var s := Init(c.size, c.rate, c.count);
    NewInv(c.size);
    SameDataKeeps(s.f, Fresh(c).f);
    hide StreamInv, Inv;
    WriterRunsKeep(s, Fresh(c).f);
  }

  lemma StepSane(c: Config, s: Stream, a: Action)
    requires Sane(c, s) && Can(s, a) && Triggered(c, Next(s, a).f)
    ensures Sane(c, Next(s, a))
  {
    hide StreamInv, OwnRely;
    StepKeeps(s, a);
    InvCells(Next(s, a));
    NextRate(s, a);
    if a.WriterSide? {
      WriterAwake(s, a.op);
    } else {
      OwnStepRely(s, a);
      OwnAwake(s, Next(s, a));
    }
  }

  lemma OwnAwake(s: Stream, t: Stream)
    requires OwnRely(s, t)
    ensures (ReadAwake(s.f) ==> ReadAwake(t.f)) && t.enqueueCount == s.enqueueCount
    ensures t.rate.speed == s.rate.speed && t.rate.mult == s.rate.mult && t.f.size == s.f.size
    ensures t.f.readTrigger == s.f.readTrigger && t.f.writeTrigger == s.f.writeTrigger
  {
    hide StreamInv;
  }

  lemma WriterAwake(s: Stream, op: Op)
    requires StreamInv(s) && |s.f.cells| == s.f.size > 0 && Can(s, WriterSide(op)) && ReadAwake(s.f)
    requires Apply(s.f, op).readTrigger == s.f.readTrigger
    ensures ReadAwake(Next(s, WriterSide(op)).f) && Next(s, WriterSide(op)).enqueueCount == s.enqueueCount
  {
    hide StreamInv, Slot, Sum, Peek, Oldest, Obtain, Payload;
  }

  lemma {:induction false} SetUpSane(ss: seq<Stream>, c: Config, k: nat)
    requires Sound(c) && SetUpRun(ss, c) && 2 <= k < |ss|
    ensures Sane(c, ss[k])
  {
    hide Sane, Can, Next, Fresh;
    if k == 2 {
      FreshSane(c);
    } else {
      SetUpSane(ss, c, k - 1);
      assert Steps(ss[k - 1], ss[k - 1 + 1]);
      var a :| Can(ss[k - 1], a) && ss[k] == Next(ss[k - 1], a);
      StepSane(c, ss[k - 1], a);
    }
  }

  lemma ReachedSane(c: Config, s: Stream)
    requires Sound(c) && Reached(c, s)
    ensures Sane(c, s)
  {
    hide Sane, Sound;
    var ss :| SetUpRun(ss, c) && ss[|ss| - 1] == s;
    SetUpSane(ss, c, |ss| - 1);
  }

  /** A reached state and an enabled step that leaves the triggers alone. */
  lemma Reach(c: Config, s: Stream, a: Action)
    requires Reached(c, s) && |s.f.cells| == s.f.size > 0 && Can(s, a) && Triggered(c, Next(s, a).f)
    ensures Reached(c, Next(s, a))
  {
    hide Next, Can, Triggered, Fresh;
    var ss :| SetUpRun(ss, c) && ss[|ss| - 1] == s;
    var t := Next(s, a);
    var tt := ss + [t];
    assert Steps(s, t);
    forall k | 0 <= k < |tt| - 1 ensures Steps(tt[k], tt[k + 1]) {
      if k < |ss| - 1 {
        assert tt[k] == ss[k] && tt[k + 1] == ss[k + 1];
      } else {
        assert tt[k] == s && tt[k + 1] == t;
      }
    }
    assert tt[|tt| - 1] == t && tt[2] == ss[2] && SetUpRun(tt, c);
  }

  lemma {:induction false} OwnRunReached(c: Config, ss: seq<Stream>, k: nat)
    requires Sound(c) && OwnRun(ss) && Reached(c, ss[0]) && k < |ss|
    ensures Reached(c, ss[k])
  {
    hide Reached, Can, Next, Sane, Sound, Triggered;
    if k > 0 {
      OwnRunReached(c, ss, k - 1);
      assert OwnStep(ss[k - 1], ss[k - 1 + 1]);
      var a :| Can(ss[k - 1], a) && !a.WriterSide? && ss[k] == Next(ss[k - 1], a);
      OwnTriggered(c, ss[k - 1], a);
      Reach(c, ss[k - 1], a);
    }
  }

  lemma OwnTriggered(c: Config, s: Stream, a: Action)
    requires Sound(c) && Reached(c, s) && |s.f.cells| == s.f.size > 0 && Can(s, a) && !a.WriterSide?
    ensures Triggered(c, Next(s, a).f)
  {
    hide Reached, Can, Next, OwnRely, StreamInv, Sound;
    ReachedSane(c, s);
    OwnStepRely(s, a);
    OwnAwake(s, Next(s, a));
  }

  /** What thread and hardware reach from a reached state is reached. */
  lemma OwnReached(c: Config, s: Stream, t: Stream)
    requires Sound(c) && Reached(c, s) && Own(s, t)
    ensures Reached(c, t)
  {
    hide Reached, Sound, OwnStep;
    var ss :| OwnRun(ss) && ss[0] == s && ss[|ss| - 1] == t;
    OwnRunReached(c, ss, |ss| - 1);
  }

  // What the thread gets done -------------------------------------------------------------------

  /** One step more. */
  lemma Onward(s: Stream, t: Stream, a: Action)
    requires Own(s, t) && StreamInv(t) && |t.f.cells| == t.f.size > 0 && Can(t, a) && !a.WriterSide?
    ensures Own(s, Next(t, a)) && StreamInv(Next(t, a))
  {
    hide StreamInv, Own, Can, Next;
    OwnOne(t, a);
    OwnJoins(s, t, Next(t, a));
    StepKeeps(t, a);
  }

  /** Everything that is to be copied gets copied. */
  lemma {:induction false} CopyAll(s: Stream) returns (t: Stream)
    requires StreamInv(s) && s.pc.Filling? && s.pc.slot < |s.pool| && s.pc.done <= ToCopy(s.pool[s.pc.slot].region)
    ensures Own(s, t) && StreamInv(t) && t.packets == s.packets && t.f.dead == s.f.dead
    ensures |t.pool| == |s.pool| && t.pc == Filling(s.pc.slot, ToCopy(t.pool[s.pc.slot].region))
    ensures t.pool[s.pc.slot].lens == s.pool[s.pc.slot].lens
    decreases ToCopy(s.pool[s.pc.slot].region) - s.pc.done
  {
    hide StreamInv, Own, Can, Next, SourceCell, ToCopy;
    OwnNone(s);
    if s.pc.done == ToCopy(s.pool[s.pc.slot].region) {
      t := s;
    } else {
      CopyStep(s);
      Onward(s, s, CopyByte);
      t := CopyAll(Next(s, CopyByte));
      OwnJoins(s, Next(s, CopyByte), t);
    }
  }

  lemma FillingFits(s: Stream)
    requires StreamInv(s) && s.pc.Filling?
    ensures s.pc.slot < |s.pool| && s.pc.done <= ToCopy(s.pool[s.pc.slot].region)
  {
    hide Inv, Sum, Sizes, Filled, Bounded, CountActive, InFlight, Flight, RateInv, PressureInv;
  }

  lemma Submitted(s: Stream) returns (t: Stream)
    requires StreamInv(s) && s.pc.Filling? && s.pc.slot < |s.pool| && !s.f.dead
    ensures Own(s, t) && StreamInv(t) && t.pc.Waiting? && !t.f.dead
    ensures t.packets == s.packets + |s.pool[s.pc.slot].lens|
  {
    hide StreamInv, Own, Can, Next, ToCopy;
    FillingFits(s);
    t := CopyAll(s);
    SubmitStep(t);
    Onward(s, t, Submit);
    t := Next(t, Submit);
    var u := Acked(t);
    OwnJoins(s, t, u);
    t := u;
  }

  lemma Acked(s: Stream) returns (t: Stream)
    requires StreamInv(s) && s.pc.Acking? && !s.f.dead
    ensures Own(s, t) && StreamInv(t) && t.pc.Waiting? && !t.f.dead && t.packets == s.packets
  {
    hide StreamInv, Own, Can, Next;
    OwnNone(s);
    AckStep(s);
    Onward(s, s, Ack);
    t := Next(s, Ack);
  }

  lemma Enqueued(s: Stream) returns (t: Stream)
    requires StreamInv(s) && s.pc.Locked? && !s.f.dead
    ensures Own(s, t) && StreamInv(t) && t.pc.Waiting? && !t.f.dead
    ensures t.packets == s.packets + |s.pc.lens|
  {
    hide StreamInv, Own, Can, Next, Obtain, SameBooks;
    OwnNone(s);
    EnqueueStep(s);
    Onward(s, s, Enqueue);
    var u := Next(s, Enqueue);
    t := Submitted(u);
    OwnJoins(s, u, t);
  }

  lemma Delivered(s: Stream) returns (t: Stream)
    requires StreamInv(s) && s.pc.Planned? && !s.f.dead
    ensures Own(s, t) && StreamInv(t) && t.pc.Waiting? && !t.f.dead
    ensures t.packets == s.packets + |s.pc.lens|
  {
    hide StreamInv, Own, Can, Next, RegionAt, Sum;
    OwnNone(s);
    LockStep(s);
    Onward(s, s, Lock);
    var u := Next(s, Lock);
    t := Enqueued(u);
    OwnJoins(s, u, t);
  }

  /** Wherever the thread of a live stream stands, it gets back to waiting. */
  lemma BackToWaiting(s: Stream) returns (t: Stream)
    requires StreamInv(s) && !s.f.dead
    ensures Own(s, t) && StreamInv(t) && t.pc.Waiting? && !t.f.dead
  {
    hide StreamInv, Own;
    match s.pc {
      case Waiting => OwnNone(s); t := s;
      case Planned(_) => t := Delivered(s);
      case Locked(_, _, _) => t := Enqueued(s);
      case Filling(_, _) => FillingFits(s); t := Submitted(s);
      case Acking => t := Acked(s);
    }
  }

  /** And the hardware completes all that is in flight. */
  lemma {:induction false} CompleteAll(s: Stream) returns (t: Stream)
    requires StreamInv(s) && s.pc.Waiting?
    ensures Own(s, t) && StreamInv(t) && t.pc.Waiting? && t.queue == [] && t.packets == s.packets
    decreases |s.queue|
  {
    hide StreamInv, Own, Can, Next, ReadRegion, UnlockRead;
    OwnNone(s);
    if s.queue == [] {
      t := s;
    } else {
      CompleteStep(s);
      Onward(s, s, Complete);
      var u := Next(s, Complete);
      t := CompleteAll(u);
      OwnJoins(s, u, t);
    }
  }

  // Between transfers ---------------------------------------------------------------------------

  /** Nothing is locked on either side, nothing in flight, and the thread of a live stream waits. */
  predicate Idle(s: Stream) {
    s.pc.Waiting? && s.queue == [] && s.f.writeSizes == [] && !s.f.dead
  }

  /** An idle stream has read exactly what was due for its packets, and can be woken. */
  lemma IdleFacts(s: Stream)
    requires StreamInv(s) && Idle(s)
    ensures s.f.readSizes == [] && s.f.rb == s.f.re == Due(s.rate, s.packets) && s.f.wb == s.f.we && s.fdEnabled
    ensures s.f.rb <= s.f.wb < s.f.rb + s.f.size && |s.f.cells| == s.f.size
  {
    IdleData(s);
    IdleDue(s);
  }

  lemma IdleData(s: Stream)
    requires StreamInv(s) && Idle(s)
    ensures s.f.readSizes == [] && s.f.rb == s.f.re == |s.submitted| && s.f.wb == s.f.we && s.fdEnabled
    ensures s.f.rb <= s.f.wb < s.f.rb + s.f.size && |s.f.cells| == s.f.size
  {
    SumNil();
    hide Stored, Sum, Filled, Bounded, CountActive, InFlight, RateInv;
    assert Flight(s) == [] && Sizes(Flight(s)) == [];
  }

  lemma IdleDue(s: Stream)
    requires StreamInv(s)
    ensures |s.submitted| == Due(s.rate, s.packets)
  {
    hide DataInv, PressureInv, Bounded, CountActive, Due, InStep, Fits;
  }

  lemma WaitingRate(s: Stream)
    requires StreamInv(s) && s.pc.Waiting?
    ensures Fits(s.rate) && InStep(s.rate, s.packets)
  {
    hide Inv, PressureInv, InFlight, Bounded, CountActive, Due, InStep, Fits;
  }

  /** The thread wakes up to a packet at hand, plans, and gets the transfer done. */
  lemma Round(c: Config, s: Stream) returns (t: Stream, k: nat)
    requires Sound(c) && Reached(c, s) && Idle(s)
    requires ChunkSize(s.rate) <= s.f.ReadAvail() && c.trigger <= s.f.ReadAvail()
    ensures Own(s, t) && Reached(c, t) && Idle(t) && t.f.wb == s.f.wb
    ensures 0 < k && t.packets == s.packets + k && PlanOk(s.rate, s.f.ReadAvail(), c.count, k)
  {
    hide StreamInv, Reached, Own, Can, Next, Sum, ChunkSize, After, Chunks, Setup, PlanOk;
    ReachedSane(c, s);
    IdleFacts(s);
    k := PlanExists(s.rate, s.f.ReadAvail(), c.count);
    WakeStep(s, k);
    OwnNone(s);
    Onward(s, s, Wake(k));
    var u := Next(s, Wake(k));
    t := Delivered(u);
    OwnJoins(s, u, t);
    var v := CompleteAll(t);
    OwnJoins(s, t, v);
    t := v;
    OwnReached(c, s, t);
    OwnWriter(s, t);
  }

  lemma OwnWriter(s: Stream, t: Stream)
    requires Own(s, t) && StreamInv(s)
    ensures t.f.wb == s.f.wb && t.f.we == s.f.we && t.f.writeSizes == s.f.writeSizes && t.f.dead == s.f.dead
    ensures t.f.writeTrigger == s.f.writeTrigger && t.f.size == s.f.size
    ensures s.f.WriteAvail() < s.f.writeTrigger <= t.f.WriteAvail() ==> t.f.writeFd > 0
    ensures s.f.writeFd == 0 && t.f.WriteAvail() < t.f.writeTrigger ==> t.f.writeFd == 0
  {
    hide StreamInv, Own;
    OwnKeeps(s, t);
  }

  /** As many packets as allowed and covered. */
  lemma PlanExists(r: Rate, avail: nat, allowed: nat) returns (k: nat)
    ensures PlanOk(r, avail, allowed, k)
    ensures allowed > 0 && ChunkSize(r) <= avail ==> k > 0
  {
    hide ChunkSize, After, Sum;
    SumNil();
    assert Chunks(r, 0) == [];
    k := 0;
    while k < allowed && Sum(Chunks(r, k + 1)) <= avail
      invariant k <= allowed && Sum(Chunks(r, k)) <= avail
      invariant k == 0 || allowed > 0
    {
      k := k + 1;
    }
    if k == 0 {
      FirstChunk(r);
    }
  }

  lemma FirstChunk(r: Rate)
    ensures Sum(Chunks(r, 1)) == ChunkSize(r)
  {
    var one := 1;
    assert Chunks(r, one) == Chunks(r, one - 1) + [ChunkSize(After(r, one - 1))];
    NothingPlanned(r);
    SumOne(ChunkSize(r));
  }

  lemma NothingPlanned(r: Rate)
    ensures After(r, 0) == r && Chunks(r, 0) == []
  {
  }

  // Packets -------------------------------------------------------------------------------------

  /** The bytes of packet `n` of a stream. */
  function PacketSize(r: Rate, n: nat): int {
    (Frames(r.speed, n + 1) - Frames(r.speed, n)) * r.mult
  }

  lemma {:induction false} FramesGrow(speed: nat, m: nat, n: nat)
    requires m <= n
    ensures Frames(speed, m) <= Frames(speed, n)
  {
    MulMonotone(m, n, speed);
  }

  lemma DueGrows(r: Rate, m: nat, n: nat)
    requires m <= n
    ensures Due(r, m) <= Due(r, n)
  {
    hide Frames;
    FramesGrow(r.speed, m, n);
    MulMonotone(Frames(r.speed, m), Frames(r.speed, n), r.mult);
  }

  /** With packets that are not all empty, any number of bytes becomes due. */
  lemma DueUnbounded(r: Rate, x: nat)
    requires Biggest(r) > 0
    ensures Due(r, HALF * x) >= x
  {
    assert r.speed > 0 && r.mult > 0 by {
      if r.speed == 0 || r.mult == 0 {
        NothingTimes(r.speed / HALF + if r.speed % HALF == 0 then 0 else 1, r.mult);
      }
    }
    assert HALF * x * r.speed == HALF * (x * r.speed);
    assert Frames(r.speed, HALF * x) == x * r.speed;
    hide Frames;
    MulMonotone(1, r.speed, x);
    MulMonotone(1, r.mult, x * r.speed);
  }

  lemma NothingTimes(a: nat, b: nat)
    ensures a == 0 || b == 0 ==> a * b == 0
  {
  }

  /** With packets that are all empty, none ever does. */
  lemma DueNothing(r: Rate, n: nat)
    requires Biggest(r) == 0
    ensures Due(r, n) == 0
  {
    if r.mult > 0 {
      var h := r.speed / HALF + if r.speed % HALF == 0 then 0 else 1;
      MulMonotone(1, r.mult, h);
      assert h == 0 && r.speed == 0;
      NothingTimes(n, r.speed);
      assert Frames(r.speed, n) == 0;
    }
    hide Frames;
    NothingTimes(Frames(r.speed, n), r.mult);
  }

  lemma FramesWhole(speed: nat, n: nat)
    requires speed % HALF == 0
    ensures Frames(speed, n) == n * (speed / HALF)
  {
    var q := speed / HALF;
    assert speed == q * HALF;
    assert n * speed == (n * q) * HALF by { MulAssoc(n, q, HALF); }
    ModuloUnique(n * speed, HALF, n * q, 0);
    DivExact(n * q, HALF);
  }

  lemma MulAssoc(a: nat, b: nat, c: nat)
    ensures a * (b * c) == (a * b) * c
  {
  }

  lemma DivExact(q: nat, m: nat)
    requires m > 0
    ensures q * m / m == q
  {
    ModuloUnique(q * m, m, q, 0);
    var x := q * m / m;
    assert m * (x - q) == 0;
    NoSmallMultiple(m, x - q);
  }

  lemma OneTimes(n: nat, q: nat)
    ensures (n + 1) * q - n * q == q
  {
  }

  /** The next packet of a stream in step, and that it is no larger than the largest. */
  lemma PacketIs(r: Rate, n: nat)
    requires Fits(r) && InStep(r, n)
    ensures ChunkSize(r) == PacketSize(r, n) <= Biggest(r)
  {
    ChunkInStep(r, n);
    hide Fits, InStep, ChunkSize, Frames;
    if r.speed % HALF == 0 {
      FramesWhole(r.speed, n);
      FramesWhole(r.speed, n + 1);
      OneTimes(n, r.speed / HALF);
    } else {
      MulMonotone(Frames(r.speed, n + 1) - Frames(r.speed, n), r.speed / HALF + 1, r.mult);
    }
  }

  /** As long as no packet is large, the frames are a multiple of the whole frames of the speed. */
  lemma {:induction false} AllSmallFrames(speed: nat, n: nat)
    requires forall j: nat | j < n :: Frames(speed, j + 1) - Frames(speed, j) <= speed / HALF
    ensures Frames(speed, n) <= n * (speed / HALF)
  {
    if n > 0 {
      AllSmallFrames(speed, n - 1);
      OneTimes(n - 1, speed / HALF);
      hide Frames;
      assert Frames(speed, n - 1 + 1) - Frames(speed, n - 1) <= speed / HALF;
    }
  }

  lemma TurnFrames(speed: nat)
    ensures Frames(speed, HALF) == speed
  {
    assert (speed % HALF + HALF * speed) / HALF == speed;
  }

  /** Every stream has a packet of the largest size, within its first 65536 ones. */
  lemma BiggestOccurs(r: Rate) returns (n: nat)
    ensures PacketSize(r, n) >= Biggest(r)
  {
    var whole, turn := r.speed / HALF, HALF;
    if r.speed % HALF == 0 {
      n := 0;
      FramesWhole(r.speed, 0);
      FramesWhole(r.speed, 1);
    } else if j: nat :| j < turn && Frames(r.speed, j + 1) - Frames(r.speed, j) > whole {
      n := j;
      hide Frames;
      MulMonotone(whole + 1, Frames(r.speed, n + 1) - Frames(r.speed, n), r.mult);
    } else {
      TurnFrames(r.speed);
      hide Frames;
      AllSmallFrames(r.speed, turn);
      assert false;
    }
  }

  lemma {:induction false} ChunkAt(r: Rate, k: nat, j: nat)
    requires j < k
    ensures Chunks(r, k)[j] == ChunkSize(After(r, j))
  {
    hide ChunkSize, After;
    if j < k - 1 {
      ChunkAt(r, k - 1, j);
    }
  }

  lemma PlannedAt(r: Rate, n: nat, k: nat, j: nat)
    requires Fits(r) && InStep(r, n) && j < k
    ensures Chunks(r, k)[j] == PacketSize(r, n + j) <= Sum(Chunks(r, k))
  {
    hide Fits, InStep, ChunkSize, Frames, After, Chunks, Sum;
    ChunkAt(r, k, j);
    AfterInStep(r, n, j);
    PacketIs(After(r, j), n + j);
    SumSplit(Chunks(r, k), j);
  }

  // Room for the writer -------------------------------------------------------------------------

  /** An idle thread that finds too few bytes for a packet leaves the writer enough room to be notified,
      if the largest packet fits into the buffer beside a fragment. */
  lemma IdleLeavesRoom(s: Stream)
    requires StreamInv(s) && Idle(s) && s.f.ReadAvail() < ChunkSize(s.rate)
    ensures Biggest(s.rate) <= s.f.size - s.f.writeTrigger ==> s.f.WriteAvail() >= s.f.writeTrigger
  {
    hide StreamInv, ChunkSize, Biggest;
    IdleFacts(s);
    WaitingRate(s);
    PacketIs(s.rate, s.packets);
  }

  lemma BiggestSame(r: Rate, q: Rate)
    requires r.speed == q.speed && r.mult == q.mult
    ensures Biggest(r) == Biggest(q) && forall n: nat :: PacketSize(r, n) == PacketSize(q, n) && Due(r, n) == Due(q, n)
  {
  }

  /** Round after round, the thread makes room, until the writer is notified. */
  lemma {:induction false} MakeRoom(c: Config, s: Stream, goal: nat) returns (t: Stream)
    requires Sound(c) && Reached(c, s) && Idle(s) && s.f.WriteAvail() < c.trigger
    requires 0 < Biggest(c.rate) <= c.size - c.trigger
    requires Due(c.rate, goal) + c.size >= s.f.wb + 1 + c.trigger
    ensures Own(s, t) && t.f.WriteAvail() >= t.f.writeTrigger && t.f.writeFd > 0
    decreases goal - s.packets
  {
    hide StreamInv, Reached, Own, ChunkSize, Due, Setup, Biggest, PlanOk, PacketSize;
    ReachedSane(c, s);
    IdleFacts(s);
    BiggestSame(s.rate, c.rate);
    if s.f.ReadAvail() < ChunkSize(s.rate) {
      IdleLeavesRoom(s);
    }
    if s.packets >= goal {
      DueGrows(c.rate, goal, s.packets);
    }
    var k;
    t, k := Round(c, s);
    OwnWriter(s, t);
    ReachedSane(c, t);
    if t.f.WriteAvail() < c.trigger {
      var u := MakeRoom(c, t, goal);
      OwnJoins(s, t, u);
      t := u;
    }
  }

  /** Wherever a stream stands while its writer waits: if its packets are not all empty and the largest
      fits beside a fragment, thread and hardware alone get the writer notified. */
  lemma WriterGetsRoom(c: Config, s: Stream) returns (t: Stream)
    requires Sound(c) && Reached(c, s) && WriterWaits(s) && 0 < Biggest(c.rate) <= c.size - c.trigger
    ensures Own(s, t) && t.f.WriteAvail() >= t.f.writeTrigger && t.f.writeFd > 0
  {
    hide StreamInv, Reached, Own, Due, Biggest, Setup;
    ReachedSane(c, s);
    t := BackToWaiting(s);
    var u := CompleteAll(t);
    OwnJoins(s, t, u);
    OwnWriter(s, u);
    OwnReached(c, s, u);
    t := u;
    if u.f.WriteAvail() < c.trigger {
      var x := u.f.wb + 1 + c.trigger;
      DueUnbounded(c.rate, x);
      t := MakeRoom(c, u, HALF * x);
      OwnJoins(s, u, t);
    }
  }

  // The writer ----------------------------------------------------------------------------------

  lemma WriterSideIs(s: Stream, op: Op)
    requires |s.f.cells| == s.f.size > 0 && Enabled(s.f, op) && FifoRely.WriterOp(op)
    ensures Can(s, WriterSide(op)) && Next(s, WriterSide(op)) == s.(f := Apply(s.f, op))
  {
    hide Apply, Enabled, Obtain, Payload, Sum, Slot;
  }

  lemma WriterStep(c: Config, s: Stream, op: Op)
    requires Sound(c) && Reached(c, s) && Enabled(s.f, op) && FifoRely.WriterOp(op)
    requires |s.f.cells| == s.f.size > 0 ==> Triggered(c, Apply(s.f, op))
    ensures |s.f.cells| == s.f.size > 0 && Reached(c, s.(f := Apply(s.f, op)))
  {
    hide StreamInv, Apply, Enabled, Reached, Triggered, Can, Next, Sound;
    ReachedSane(c, s);
    WriterSideIs(s, op);
    Reach(c, s, WriterSide(op));
  }

  /** Locking `d` bytes for writing and committing them, with nothing else locked for writing. */
  lemma WriteAndCommit(f: State, d: nat)
    requires |f.cells| == f.size > 0 && f.writeSizes == [] && d <= f.WriteAvail()
    ensures var g := LockWrite(f, d);
            && Enabled(f, LockWriteOp(d)) && Apply(f, LockWriteOp(d)) == g
            && |g.cells| == g.size > 0 && Enabled(g, UnlockWriteOp(0))
            && Apply(g, UnlockWriteOp(0)) == UnlockWrite(g, 0)
            && (g.readTrigger == f.readTrigger && g.writeTrigger == f.writeTrigger)
    ensures var h := UnlockWrite(LockWrite(f, d), 0);
            h == f.(wb := f.wb + d, we := f.we + d, log := h.log, readFd := h.readFd)
  {
    hide Slot, Sum, Peek;
    var g := LockWrite(f, d);
    assert g.writeSizes == [d] && Oldest(g.writeSizes, 0) && g.writeSizes[1..] == [];
  }

  /** The writer fills an idle stream up to `m` bytes. */
  lemma FillTo(c: Config, s: Stream, m: nat) returns (t: Stream)
    requires Sound(c) && Reached(c, s) && Idle(s) && m < c.size
    ensures Reached(c, t) && Idle(t) && t.packets == s.packets && t.rate == s.rate
    ensures t.f.ReadAvail() == if s.f.ReadAvail() < m then m else s.f.ReadAvail()
  {
    t := s;
    if s.f.ReadAvail() < m {
      hide StreamInv, Reached, Slot, Peek, Sum, Apply, After, LockWrite, UnlockWrite, Setup;
      ReachedSane(c, s);
      IdleFacts(s);
      var d := m - s.f.ReadAvail();
      WriteAndCommit(s.f, d);
      WriterStep(c, t, LockWriteOp(d));
      t := t.(f := LockWrite(t.f, d));
      WriterStep(c, t, UnlockWriteOp(0));
      t := t.(f := UnlockWrite(t.f, 0));
    }
  }

  /** And acknowledges that there is too little room. */
  lemma AckRoom(c: Config, s: Stream) returns (t: Stream)
    requires Sound(c) && Reached(c, s) && Idle(s) && s.f.WriteAvail() < c.trigger
    ensures Reached(c, t) && Idle(t) && WriterWaits(t) && t.f == s.f.(writeFd := 0) && t.rate == s.rate
  {
    hide StreamInv, Reached, Apply, Setup;
    ReachedSane(c, s);
    t := s;
    if t.f.writeFd > 0 {
      AckWriteIs(t.f);
      WriterStep(c, t, AckWriteOp);
      t := t.(f := AckWrite(t.f));
    }
  }

  lemma AckWriteIs(f: State)
    requires f.writeFd > 0 && |f.cells| == f.size > 0
    ensures Enabled(f, AckWriteOp) && Apply(f, AckWriteOp) == AckWrite(f)
  {
  }

  lemma Begin(c: Config) returns (s: Stream)
    requires Sound(c)
    ensures Reached(c, s) && Idle(s) && s.packets == 0 && s.f.ReadAvail() == 0
  {
    hide StreamInv, Apply, Enabled, Can, Next, New, TriggerOk, Fits;
    var s0 := Init(c.size, c.rate, c.count);
    TriggersAccepted(c);
    var f1 := New(c.size).(readTrigger := c.trigger);
    var f2 := f1.(writeTrigger := c.trigger);
    var s1, s2 := s0.(f := f1), s0.(f := f2);
    WriterSideIs(s0, SetReadTriggerOp(c.trigger));
    WriterSideIs(s1, SetWriteTriggerOp(c.trigger));
    assert Steps(s0, s1) && Steps(s1, s2);
    var ss := [s0, s1, s2];
    assert SetUpRun(ss, c);
    assert ss[|ss| - 1] == s2 && Reached(c, s2);
    s := s2;
  }

  lemma TriggersAccepted(c: Config)
    requires Sound(c)
    ensures var f := New(c.size);
            var f1 := f.(readTrigger := c.trigger);
            && |f.cells| == f.size == c.size > 0 && f.rb == f.re == f.wb == f.we == 0
            && f.readSizes == [] && f.writeSizes == [] && !f.dead
            && Enabled(f, SetReadTriggerOp(c.trigger)) && Apply(f, SetReadTriggerOp(c.trigger)) == f1
            && Enabled(f1, SetWriteTriggerOp(c.trigger))
            && Apply(f1, SetWriteTriggerOp(c.trigger)) == f1.(writeTrigger := c.trigger)
  {
    TriggerTwice(c.trigger, c.size);
    hide TriggerOk;
  }

  // A halt in front of a packet that is too large ------------------------------------------------

  /** The first packet that does not fit beside a fragment. */
  ghost predicate FirstBig(c: Config, n: nat) {
    && PacketSize(c.rate, n) > c.size - c.trigger
    && forall j | 0 <= j < n :: PacketSize(c.rate, j) <= c.size - c.trigger
  }

  lemma {:induction false} LeastBig(c: Config, n: nat) returns (least: nat)
    requires PacketSize(c.rate, n) > c.size - c.trigger
    ensures FirstBig(c, least)
  {
    if j: nat :| j < n && PacketSize(c.rate, j) > c.size - c.trigger {
      least := LeastBig(c, j);
    } else {
      least := n;
    }
  }

  /** A plan that is covered by fewer bytes than a later packet has ends before that packet. */
  lemma PlanStops(r: Rate, n: nat, k: nat, last: nat, avail: int, allowed: nat)
    requires Fits(r) && InStep(r, n) && n <= last
    requires PlanOk(r, avail, allowed, k) && avail < PacketSize(r, last)
    ensures n + k <= last
  {
    hide Sum, ChunkSize, After, Chunks, Frames, Fits, InStep;
    if last - n < k {
      PlannedAt(r, n, k, last - n);
      assert false;
    }
  }

  /** From one transfer to the next, as long as packets fit. */
  lemma {:induction false} Climb(c: Config, s: Stream, last: nat) returns (t: Stream)
    requires Sound(c) && Reached(c, s) && Idle(s) && FirstBig(c, last)
    requires s.packets <= last && s.f.ReadAvail() < PacketSize(c.rate, last)
    ensures Reached(c, t) && Idle(t) && t.packets == last && t.f.ReadAvail() < PacketSize(c.rate, last)
    decreases last - s.packets
  {
    hide StreamInv, Reached, Own, ChunkSize, PacketSize, Due, Setup, Biggest, PlanOk, Fits, InStep;
    if s.packets == last {
      t := s;
    } else {
      NextFits(c, s);
      var m: nat := if ChunkSize(s.rate) > c.trigger then ChunkSize(s.rate) else c.trigger;
      var u := FillTo(c, s, m);
      ReachedSane(c, u);
      WaitingRate(u);
      BiggestSame(u.rate, c.rate);
      var v, k := Round(c, u);
      PlanStops(u.rate, u.packets, k, last, u.f.ReadAvail(), c.count);
      LessToRead(c, u, v);
      t := Climb(c, v, last);
    }
  }

  lemma NextFits(c: Config, s: Stream)
    requires Sound(c) && Reached(c, s) && Idle(s)
    ensures ChunkSize(s.rate) == PacketSize(c.rate, s.packets)
  {
    hide StreamInv, Reached, ChunkSize, Setup, PacketSize, Fits, InStep;
    ReachedSane(c, s);
    WaitingRate(s);
    PacketIs(s.rate, s.packets);
    BiggestSame(s.rate, c.rate);
  }

  lemma LessToRead(c: Config, s: Stream, t: Stream)
    requires Sound(c) && Reached(c, s) && Idle(s) && Reached(c, t) && Idle(t) && Own(s, t)
    ensures t.f.ReadAvail() <= s.f.ReadAvail()
  {
    hide StreamInv, Reached, Own, Setup, Due;
    ReachedSane(c, s);
    ReachedSane(c, t);
    IdleFacts(s);
    IdleFacts(t);
    OwnKeeps(s, t);
  }

  /** Too few bytes for a packet, and too little room to wake the writer. */
  predicate Stalled(s: Stream) {
    Idle(s) && WriterWaits(s) && s.f.ReadAvail() < ChunkSize(s.rate)
  }

  /** In a stall the only step of thread and hardware is a wake-up that plans nothing, and the ack behind
      it leads back to where it began. */
  lemma StallSpins(c: Config, s: Stream, a: Action)
    requires Sound(c) && Reached(c, s) && Stalled(s) && Can(s, a) && !a.WriterSide?
    ensures |s.f.cells| == s.f.size > 0 && a == Wake(0) && Next(s, a) == s.(pc := Acking)
    ensures Can(Next(s, a), Ack) && Next(Next(s, a), Ack) == s
  {
    ReachedSane(c, s);
    IdleFacts(s);
    hide StreamInv, Reached, Obtain, Payload, Slot, Chunks, After, PlanOk, Setup, ChunkSize, Due, Sum;
    NothingPlanned(s.rate);
    WaitingRate(s);
    assert a.Wake?;
    if a.k > 0 {
      PlanCovers(s.rate, s.packets, s.f.ReadAvail(), s.enqueueCount, a.k);
    }
  }

  lemma PlanCovers(r: Rate, n: nat, avail: int, allowed: nat, k: nat)
    requires Fits(r) && InStep(r, n) && PlanOk(r, avail, allowed, k) && k > 0
    ensures ChunkSize(r) <= avail
  {
    hide Sum, ChunkSize, After, Chunks, PacketSize, Fits, InStep;
    PlannedAt(r, n, k, 0);
    PacketIs(r, n);
  }

  /** With the ack due, it is the only step. */
  lemma StallAcks(c: Config, s: Stream, a: Action)
    requires Sound(c) && Reached(c, s) && Stalled(s) && !a.WriterSide? && |s.f.cells| == s.f.size > 0
    requires Can(s.(pc := Acking), a)
    ensures Next(s.(pc := Acking), a) == s
  {
    ReachedSane(c, s);
    IdleFacts(s);
    hide StreamInv, Reached, Setup, Due;
    assert a.Ack?;
  }

  lemma {:induction false} StallStays(c: Config, ss: seq<Stream>, k: nat)
    requires Sound(c) && OwnRun(ss) && Reached(c, ss[0]) && Stalled(ss[0]) && k < |ss|
    ensures ss[k] == ss[0] || ss[k] == ss[0].(pc := Acking)
  {
    hide Reached, Can, Next, Stalled, Sound;
    if k > 0 {
      StallStays(c, ss, k - 1);
      assert OwnStep(ss[k - 1], ss[k - 1 + 1]);
      var a :| Can(ss[k - 1], a) && !a.WriterSide? && ss[k] == Next(ss[k - 1], a);
      if ss[k - 1] == ss[0] {
        StallSpins(c, ss[0], a);
      } else {
        StallAcks(c, ss[0], a);
      }
    }
  }

  lemma StallHalts(c: Config, s: Stream)
    requires Sound(c) && Reached(c, s) && Stalled(s)
    ensures Halted(c, s)
  {
    hide Reached, Sound, OwnStep, Idle;
    forall t | Own(s, t) ensures WriterWaits(t) {
      var ss :| OwnRun(ss) && ss[0] == s && ss[|ss| - 1] == t;
      StallStays(c, ss, |ss| - 1);
    }
  }

  lemma BigHalts(c: Config) returns (s: Stream)
    requires Sound(c) && Biggest(c.rate) > c.size - c.trigger
    ensures Halted(c, s)
  {
    hide StreamInv, Reached, Own, ChunkSize, PacketSize, Due, Setup, Biggest, Halted;
    var n := BiggestOccurs(c.rate);
    var last := LeastBig(c, n);
    s := Begin(c);
    s := Climb(c, s, last);
    s := FillTo(c, s, c.size - c.trigger);
    ReachedSane(c, s);
    IdleFacts(s);
    NextFits(c, s);
    s := AckRoom(c, s);
    StallHalts(c, s);
  }

  // A halt because all packets are empty ---------------------------------------------------------

  /** A stream with empty packets never reads anything. */
  lemma EmptyReadsNothing(c: Config, s: Stream)
    requires Sound(c) && Reached(c, s) && Biggest(c.rate) == 0
    ensures s.f.rb == 0
  {
    hide StreamInv, Reached, Setup, Biggest;
    ReachedSane(c, s);
    BiggestSame(s.rate, c.rate);
    AllDue(s);
  }

  lemma AllDue(s: Stream)
    requires StreamInv(s) && Biggest(s.rate) == 0
    ensures s.f.rb == 0
  {
    hide Stored, Bounded, CountActive, Filled, InFlight, Flight, Sizes, Sum, PressureInv, Biggest, Due, Fits, InStep;
    DueNothing(s.rate, s.packets);
    DueNothing(s.rate, s.packets + |Pending(s)|);
  }

  lemma EmptyHalts(c: Config) returns (s: Stream)
    requires Sound(c) && Biggest(c.rate) == 0
    ensures Halted(c, s)
  {
    hide StreamInv, Reached, Own, Due, Setup, Biggest;
    s := Begin(c);
    s := FillTo(c, s, c.size - 1);
    ReachedSane(c, s);
    IdleFacts(s);
    s := AckRoom(c, s);
    EmptyReadsNothing(c, s);
    forall t | Own(s, t) ensures WriterWaits(t) {
      EmptyStays(c, s, t);
    }
  }

  lemma EmptyStays(c: Config, s: Stream, t: Stream)
    requires Sound(c) && Reached(c, s) && Biggest(c.rate) == 0 && WriterWaits(s) && Own(s, t)
    ensures WriterWaits(t)
  {
    hide StreamInv, Reached, Own, Setup, Biggest;
    ReachedSane(c, s);
    OwnReached(c, s, t);
    OwnWriter(s, t);
    EmptyReadsNothing(c, s);
    EmptyReadsNothing(c, t);
  }

  // Exactly when --------------------------------------------------------------------------------

  /** For every setup that the trigger calls accept: the stream can come to a halt for good if and only if
      all its packets are empty or its largest packet does not fit into the buffer beside a fragment. */
  lemma StallExact(c: Config)
    requires Sound(c)
    ensures (exists s :: Halted(c, s)) <==> Biggest(c.rate) == 0 || Biggest(c.rate) > c.size - c.trigger
  {
    hide Biggest, Setup, Reached, Own, WriterWaits;
    if Biggest(c.rate) == 0 {
      var s := EmptyHalts(c);
    } else if Biggest(c.rate) > c.size - c.trigger {
      var s := BigHalts(c);
    } else {
      forall s ensures !Halted(c, s) {
        if Halted(c, s) {
          var t := WriterGetsRoom(c, s);
          NotWaiting(t);
          assert false;
        }
      }
    }
  }

  lemma NotWaiting(s: Stream)
    requires s.f.writeFd > 0
    ensures !WriterWaits(s)
  {
  }

  // Setups --------------------------------------------------------------------------------------

  /** What stream setup makes of a request. */
  function SetupOf(bufferSize: nat, fragmentSize: nat, sampleRate: nat, channels: nat, bitDepth: nat): Config {
    var size := Streams.BufferRequest(bufferSize);
    var frag := Streams.Fragment(size, fragmentSize);
    Config(Bits.NextPow2(size), Start(sampleRate, Streams.SampleBytes(channels, bitDepth)),
           Streams.PacketLimit(frag, Streams.Frame(sampleRate, channels, bitDepth)), Trigger(frag))
  }

  /** A request that setup grants: it does not trap, and both trigger calls succeed. */
  predicate Granted(bufferSize: nat, fragmentSize: nat, sampleRate: nat, channels: nat, bitDepth: nat) {
    && bufferSize < WORD && fragmentSize < WORD && channels < 256 && bitDepth < 256
    && Streams.Frame(sampleRate, channels, bitDepth) > 0
    && var c := SetupOf(bufferSize, fragmentSize, sampleRate, channels, bitDepth);
    2 * c.trigger < c.size
  }

  /** Every granted request is a setup of the kind above. */
  lemma GrantedSound(bufferSize: nat, fragmentSize: nat, sampleRate: nat, channels: nat, bitDepth: nat)
    requires Granted(bufferSize, fragmentSize, sampleRate, channels, bitDepth)
    ensures Sound(SetupOf(bufferSize, fragmentSize, sampleRate, channels, bitDepth))
  {
    hide Streams.BufferRequest, Streams.Fragment, Streams.SampleBytes, Streams.Frame, Streams.PacketLimit, Fits,
         SpeedOf, Bits.NextPow2, Bits.Exponent, Pow2;
    Bits.RoundUpUsable(Streams.BufferRequest(bufferSize));
    Streams.SampleSmall(channels, bitDepth);
    RatesFit(sampleRate, Streams.SampleBytes(channels, bitDepth));
  }

  /** So of the streams that setup grants exactly these can come to a halt for good. */
  lemma GrantedHalts(bufferSize: nat, fragmentSize: nat, sampleRate: nat, channels: nat, bitDepth: nat)
    requires Granted(bufferSize, fragmentSize, sampleRate, channels, bitDepth)
    ensures var c := SetupOf(bufferSize, fragmentSize, sampleRate, channels, bitDepth);
            (exists s :: Halted(c, s)) <==> Biggest(c.rate) == 0 || Biggest(c.rate) > c.size - c.trigger
  {
    hide SetupOf, Granted, Sound, Biggest;
    GrantedSound(bufferSize, fragmentSize, sampleRate, channels, bitDepth);
    StallExact(SetupOf(bufferSize, fragmentSize, sampleRate, channels, bitDepth));
  }

  /** All packets are empty for every multiple of 65536 Hz, whose speed wraps around to zero, and for
      samples of less than a byte. */
  lemma EmptyStreams(bufferSize: nat, fragmentSize: nat, sampleRate: nat, channels: nat, bitDepth: nat)
    requires sampleRate % HALF == 0 || channels * bitDepth < 8
    ensures Biggest(SetupOf(bufferSize, fragmentSize, sampleRate, channels, bitDepth).rate) == 0
  {
    hide Bits.NextPow2, SpeedOf, Streams.BufferRequest, Streams.Fragment, Streams.PacketLimit, Streams.Frame,
         Streams.SampleBytes, Biggest, Trigger;
    if sampleRate % HALF == 0 {
      WrappedSpeed(sampleRate);
    } else {
      NoSample(channels, bitDepth);
    }
    EmptyRate(SetupOf(bufferSize, fragmentSize, sampleRate, channels, bitDepth).rate);
  }

  lemma NoSample(channels: nat, bitDepth: nat)
    requires channels * bitDepth < 8
    ensures Streams.SampleBytes(channels, bitDepth) == 0
  {
  }

  lemma EmptyRate(r: Rate)
    requires r.speed == 0 || r.mult == 0
    ensures Biggest(r) == 0
  {
    NothingTimes(r.speed / HALF + if r.speed % HALF == 0 then 0 else 1, r.mult);
  }

  lemma WrappedSpeed(sampleRate: nat)
    requires sampleRate % HALF == 0
    ensures SpeedOf(sampleRate) == 0
  {
    var q := sampleRate / HALF;
    assert sampleRate * HALF == WORD * q;
    ModuloUnique(sampleRate * HALF, WORD, q, 0);
  }

  /** A granted request of the first kind: 65536 Hz, two channels, 16 bits, default sizes. */
  lemma EmptyInput()
    ensures Granted(0, 0, 65536, 2, 16) && Biggest(SetupOf(0, 0, 65536, 2, 16).rate) == 0
  {
    hide Bits.NextPow2, Bits.Exponent, Pow2, Biggest, SpeedOf, Streams.SampleBytes, Streams.Frame, Streams.PacketLimit;
    EmptyStreams(0, 0, 65536, 2, 16);
    Bits.RoundUpUsable(Streams.BufferRequest(0));
    EmptyFormat();
  }

  lemma EmptyFormat()
    ensures Streams.Frame(65536, 2, 16) == 262
  {
  }

  lemma TwoKilobytes(k: nat)
    requires k == 2
    ensures Bits.NextPow2(2048) == 2048
  {
    assert Pow2(k) == 4;
    hide Bits.NextPow2, Pow2;
    Bits.Pow2Twice(k, 4);
    Bits.Pow2Twice(2 * k, 16);
    Bits.Pow2Next(4 * k);
    Bits.Pow2Next(4 * k + 1);
    Bits.Pow2Next(4 * k + 2);
    Bits.RoundUpFixed(2048, 4 * k + 3);
  }

  /** And one of the second kind: 48000 Hz, eight channels, 32 bits, a buffer of 2048 bytes and fragments
      of 1000. */
  lemma BigInput()
    ensures Granted(2048, 1000, 48000, 8, 32)
    ensures var c := SetupOf(2048, 1000, 48000, 8, 32);
            Biggest(c.rate) == 1536 && c.size - c.trigger == 1048
  {
    hide Bits.NextPow2, SpeedOf, Streams.SampleBytes, Streams.Frame, Streams.PacketLimit, U32;
    TwoKilobytes(2);
    BigSpeed();
    BigFormat();
  }

  lemma BigSpeed()
    ensures SpeedOf(48000) == 48 * HALF
  {
  }

  lemma BigFormat()
    ensures Streams.SampleBytes(8, 32) == 32 && Streams.Frame(48000, 8, 32) == 1536
  {
  }
}
