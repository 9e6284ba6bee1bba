/** The 16.16 fixed-point rate accumulator that sizes the isochronous packets of a stream
    (`stream_chunk_size`, `stream_chunk_size_finalize` and the rate setup in `libmaru.c`). The low
    half of a word `w` is `w % HALF`, its high half `w / HALF`. */
module Rates {
  import opened Ring

  const HALF: nat := 0x1_0000

  /** Speed and running fraction are 16.16 words in audio frames per USB frame; `mult` is the number
      of bytes of an audio frame. */
  datatype Rate = Rate(speed: nat, fraction: nat, mult: nat)

  /** The speed that stream setup stores for a sample rate, shifted in a 32-bit word. */
  function SpeedOf(sampleRate: nat): nat {
    U32(sampleRate * HALF) / 1000
  }

  /** The state that stream setup leaves behind: the fraction starts at the speed. */
  function Start(sampleRate: nat, mult: nat): Rate {
    Rate(SpeedOf(sampleRate), SpeedOf(sampleRate), mult)
  }

  /** Bytes of the next packet. */
  function ChunkSize(r: Rate): nat {
    U32(U32(r.fraction + r.speed % HALF) / HALF * r.mult)
  }

  /** Moving on to the packet after it: the low half accumulates, the high half is the speed's. */
  function Finalize(r: Rate): Rate {
    var sum := U32(r.fraction + r.speed % HALF);
    r.(fraction := r.speed / HALF * HALF + sum % HALF)
  }

  /** The state after `n` packets. */
  function After(r: Rate, n: nat): Rate {
    if n == 0 then r else Finalize(After(r, n - 1))
  }

  /** The sizes of the next `n` packets. */
  function Chunks(r: Rate, n: nat): (c: seq<nat>)
    ensures |c| == n
  {
    if n == 0 then [] else Chunks(r, n - 1) + [ChunkSize(After(r, n - 1))]
  }

  /** Speed and frame size for which no step overflows 32 bits. */
  predicate Fits(r: Rate) {
    && r.speed < 0x400_0000
    && (r.speed / HALF + 1) * r.mult < WORD
  }

  /** Audio frames due after `n` packets: the accumulated speed, started from its own fraction. */
  function Frames(speed: nat, n: nat): nat {
    (speed % HALF + n * speed) / HALF
  }

  /** The running fraction holds what whole frames have left over. */
  ghost predicate InStep(r: Rate, n: nat) {
    r.fraction == r.speed / HALF * HALF + (r.speed % HALF + n * r.speed) % HALF
  }

  /** One packet, for an accumulated speed `a` so far. */
  lemma ChunkArithmetic(r: Rate, a: nat)
    requires Fits(r) && r.fraction == r.speed / HALF * HALF + a % HALF
    ensures U32(r.fraction + r.speed % HALF) / HALF == (a + r.speed) / HALF - a / HALF
    ensures Finalize(r).fraction == r.speed / HALF * HALF + (a + r.speed) % HALF
    ensures (a + r.speed) / HALF - a / HALF == r.speed / HALF || (a + r.speed) / HALF - a / HALF == r.speed / HALF + 1
  {
    assert r.speed == r.speed / HALF * HALF + r.speed % HALF;
  }

  lemma ChunkInStep(r: Rate, n: nat)
    requires Fits(r) && InStep(r, n)
    ensures ChunkSize(r) == (Frames(r.speed, n + 1) - Frames(r.speed, n)) * r.mult
    ensures Frames(r.speed, n + 1) - Frames(r.speed, n) == r.speed / HALF
            || Frames(r.speed, n + 1) - Frames(r.speed, n) == r.speed / HALF + 1
    ensures InStep(Finalize(r), n + 1)
  {
    var a := r.speed % HALF + n * r.speed;
    assert r.speed % HALF + (n + 1) * r.speed == a + r.speed;
    ChunkArithmetic(r, a);
    hide U32;
    var d := (a + r.speed) / HALF - a / HALF;
    assert d * r.mult < WORD by { MulMonotone(d, r.speed / HALF + 1, r.mult); }
    SmallWord(d * r.mult);
  }

  lemma SmallWord(x: nat)
    requires x < WORD
    ensures U32(x) == x
  {
  }

  lemma FitsFinalize(r: Rate)
    ensures Fits(Finalize(r)) <==> Fits(r)
  {
  }

  lemma MulMonotone(a: nat, b: nat, m: nat)
    requires a <= b
    ensures a * m <= b * m
  {
  }

  lemma MulSplit(a: int, b: int, c: int, m: int)
    ensures (b - a) * m + (c - b) * m == (c - a) * m
  {
  }

  lemma {:induction false} AfterInStep(r: Rate, k: nat, n: nat)
    requires Fits(r) && InStep(r, k)
    ensures After(r, n).speed == r.speed && After(r, n).mult == r.mult
    ensures Fits(After(r, n)) && InStep(After(r, n), k + n)
  {
    if n > 0 {
      AfterInStep(r, k, n - 1);
      hide InStep, Fits, Frames, ChunkSize;
      ChunkInStep(After(r, n - 1), k + n - 1);
      FitsFinalize(After(r, n - 1));
    }
  }

  /** Bytes due after `n` packets. */
  function Due(r: Rate, n: nat): nat {
    Frames(r.speed, n) * r.mult
  }

  lemma ChunkIsDue(r: Rate, r0: Rate, n: nat)
    requires Fits(r) && InStep(r, n) && r0.speed == r.speed && r0.mult == r.mult
    ensures Due(r0, n) + ChunkSize(r) == Due(r0, n + 1)
  {
    ChunkInStep(r, n);
    hide Frames, ChunkSize, InStep, Fits;
    MulSplit(0, Frames(r.speed, n), Frames(r.speed, n + 1), r.mult);
  }

  /** The scheduler is exact: `n` packets carry, to the byte, the frames that have become due. */
  lemma {:induction false} TotalExact(r: Rate, k: nat, n: nat)
    requires Fits(r) && InStep(r, k)
    ensures Due(r, k) + Sum(Chunks(r, n)) == Due(r, k + n)
  {
    hide Due, ChunkSize, After, InStep, Fits, Sum;
    if n == 0 {
      SumNil();
    } else {
      TotalExact(r, k, n - 1);
      AfterInStep(r, k, n - 1);
      ChunkIsDue(After(r, n - 1), r, k + n - 1);
      SumConcat(Chunks(r, n - 1), [ChunkSize(After(r, n - 1))]);
      SumOne(ChunkSize(After(r, n - 1)));
    }
  }

  /** From stream setup on. */
  lemma StreamTotal(r: Rate, n: nat)
    requires Fits(r) && r.fraction == r.speed
    ensures Sum(Chunks(r, n)) == Due(r, n)
  {
    assert InStep(r, 0) && Frames(r.speed, 0) == 0;
    TotalExact(r, 0, n);
  }

  /** Every packet carries the whole frames of the speed, or one more. */
  lemma PacketSizes(r: Rate, k: nat)
    requires Fits(r) && r.fraction == r.speed
    ensures var c := ChunkSize(After(r, k));
            c == r.speed / HALF * r.mult || c == (r.speed / HALF + 1) * r.mult
  {
    assert InStep(r, 0);
    AfterInStep(r, 0, k);
    ChunkInStep(After(r, k), k);
  }

  /** The stored speed is the sample rate per millisecond, rounded down, exactly for rates that fit
      into 16 bits; beyond them the shift loses the high bits. */
  lemma SpeedExact(sampleRate: nat)
    requires sampleRate < WORD
    ensures SpeedOf(sampleRate) == sampleRate * 65536 / 1000 <==> sampleRate < 65536
  {
    if sampleRate >= HALF {
      assert U32(sampleRate * HALF) <= sampleRate * HALF - WORD;
    }
  }

  /** A rate beyond that is taken as its low 16 bits. */
  lemma SpeedWraps(sampleRate: nat)
    ensures SpeedOf(sampleRate) == sampleRate % 65536 * 65536 / 1000
  {
    var q, r := sampleRate / HALF, sampleRate % HALF;
    assert sampleRate * HALF == WORD * q + r * HALF;
    ModuloUnique(sampleRate * HALF, WORD, q, r * HALF);
  }

  /** Whatever the rate, the accumulator overflows nothing for frames of up to 62 MB. */
  lemma RatesFit(sampleRate: nat, mult: nat)
    requires 66 * mult < WORD
    ensures Fits(Start(sampleRate, mult))
  {
    var h := SpeedOf(sampleRate) / HALF + 1;
    assert h <= 66;
    MulMonotone(h, 66, mult);
  }

  /** The frames sent never lag behind the sample rate by more than one frame and a 65536th of a
      frame per packet, and are never a whole frame ahead. */
  lemma DriftBound(sampleRate: nat, n: nat)
    requires sampleRate < HALF
    ensures var frames := Frames(SpeedOf(sampleRate), n);
            && 65536 * (sampleRate * n) < 65536 * (1000 * frames) + 1000 * n + 65536 * 1000
            && 1000 * frames < sampleRate * n + 1000
  {
    var s := SpeedOf(sampleRate);
    SpeedExact(sampleRate);
    assert 1000 * s <= sampleRate * HALF < 1000 * s + 1000;
    assert 1000 * (n * s) <= HALF * (sampleRate * n) <= 1000 * (n * s) + 999 * n by {
      MulMonotone(1000 * s, sampleRate * HALF, n);
      MulMonotone(sampleRate * HALF, 1000 * s + 999, n);
      assert sampleRate * HALF * n == HALF * (sampleRate * n);
      assert 1000 * s * n == 1000 * (n * s);
    }
    var a := s % HALF + n * s;
    assert a / HALF * HALF <= a < a / HALF * HALF + HALF;
  }
}
