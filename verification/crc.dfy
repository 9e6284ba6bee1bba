/** The CRC-32 of section 8 of RFC 1952, bit by bit, and what it detects. The operations on words are
    named so that their laws can be stated once. */
module Crc {
  import opened Ring

  /** The generator polynomial in reflected form. */
  const POLY: bv32 := 0xEDB88320

  function Xor(x: bv32, y: bv32): bv32 {
    x ^ y
  }

  function Half(x: bv32): bv32 {
    x >> 1
  }

  function Double(x: bv32): bv32 {
    x << 1
  }

  predicate Odd(x: bv32) {
    x & 1 == 1
  }

  /** One bit of the shift register. */
  function BitStep(x: bv32): bv32 {
    if Odd(x) then Xor(Half(x), POLY) else Half(x)
  }

  /** Eight bits. */
  function Eight(x: bv32): bv32 {
    BitStep(BitStep(BitStep(BitStep(BitStep(BitStep(BitStep(BitStep(x))))))))
  }

  /** One byte of the message. */
  function ByteStep(state: bv32, b: Byte): bv32 {
    Eight(Xor(state, b as bv32))
  }

  /** The register after a whole message. */
  function Run(state: bv32, data: seq<Byte>): bv32
    decreases data
  {
    if data == [] then state else Run(ByteStep(state, data[0]), data[1..])
  }

  const START: bv32 := 0xFFFF_FFFF

  function Complement(x: bv32): bv32 {
    Xor(x, 0xFFFF_FFFF)
  }

  /** The CRC-32 of a message. */
  function Crc32(data: seq<Byte>): bv32 {
    Complement(Run(START, data))
  }

  lemma RunByte(state: bv32, data: seq<Byte>, k: nat, next: bv32)
    requires k < |data| && next == ByteStep(state, data[k])
    ensures Run(state, data[k..]) == Run(next, data[k + 1..])
  {
    assert data[k..][1..] == data[k + 1..];
  }

  lemma DigitSteps()
    ensures ByteStep(0xFFFFFFFF, 0x31) == 0x7C231048
    ensures ByteStep(0x7C231048, 0x32) == 0xB0ACBB32
    ensures ByteStep(0xB0ACBB32, 0x33) == 0x77B79C2D
    ensures ByteStep(0x77B79C2D, 0x34) == 0x641C1F5C
    ensures ByteStep(0x641C1F5C, 0x35) == 0x340AC5E3
    ensures ByteStep(0x340AC5E3, 0x36) == 0xF68D2C9E
    ensures ByteStep(0xF68D2C9E, 0x37) == 0xAFFC9660
    ensures ByteStep(0xAFFC9660, 0x38) == 0x651F2550
    ensures ByteStep(0x651F2550, 0x39) == 0x340BC6D9
  {
  }

  /** The check value of this CRC: its value for the nine digits "123456789". */
  lemma CheckValue()
    ensures Crc32([0x31, 0x32, 0x33, 0x34, 0x35, 0x36, 0x37, 0x38, 0x39]) == 0xCBF43926
  {
    DigitSteps();
    hide ByteStep, Run;
    var digits: seq<Byte> := [0x31, 0x32, 0x33, 0x34, 0x35, 0x36, 0x37, 0x38, 0x39];
    assert digits[0..] == digits && digits[9..] == [];
    RunByte(0xFFFFFFFF, digits, 0, 0x7C231048);
    RunByte(0x7C231048, digits, 1, 0xB0ACBB32);
    RunByte(0xB0ACBB32, digits, 2, 0x77B79C2D);
    RunByte(0x77B79C2D, digits, 3, 0x641C1F5C);
    RunByte(0x641C1F5C, digits, 4, 0x340AC5E3);
    RunByte(0x340AC5E3, digits, 5, 0xF68D2C9E);
    RunByte(0xF68D2C9E, digits, 6, 0xAFFC9660);
    RunByte(0xAFFC9660, digits, 7, 0x651F2550);
    RunByte(0x651F2550, digits, 8, 0x340BC6D9);
    RunNothing(0x340BC6D9);
  }

  lemma RunNothing(state: bv32)
    ensures Run(state, []) == state
  {
  }

  /** A message may be fed in pieces. */
  lemma {:induction false} RunConcat(state: bv32, a: seq<Byte>, b: seq<Byte>)
    ensures Run(state, a + b) == Run(Run(state, a), b)
    decreases a
  {
    hide ByteStep;
    if a == [] {
      assert a + b == b;
    } else {
      assert (a + b)[1..] == a[1..] + b;
      RunConcat(ByteStep(state, a[0]), a[1..], b);
    }
  }

  lemma RunOne(state: bv32, b: Byte)
    ensures Run(state, [b]) == ByteStep(state, b)
  {
    assert [b][1..] == [];
    hide ByteStep;
    assert Run(ByteStep(state, b), []) == ByteStep(state, b);
  }

  // Linearity -----------------------------------------------------------------------------------

  lemma XorLaws(x: bv32, y: bv32, z: bv32)
    ensures Xor(Xor(x, y), z) == Xor(x, Xor(y, z))
    ensures Xor(x, y) == Xor(y, x)
    ensures Xor(x, 0) == x
    ensures Xor(Xor(x, y), y) == x
  {
  }

  lemma HalfXor(x: bv32, y: bv32)
    ensures Half(Xor(x, y)) == Xor(Half(x), Half(y))
    ensures Odd(Xor(x, y)) <==> Odd(x) != Odd(y)
  {
    assert x & 1 == 0 || x & 1 == 1;
    assert y & 1 == 0 || y & 1 == 1;
    assert (x ^ y) & 1 == (x & 1) ^ (y & 1);
  }

  lemma XorPairs(x: bv32, y: bv32, p: bv32)
    ensures Xor(Xor(x, p), Xor(y, p)) == Xor(x, y)
    ensures Xor(Xor(x, p), y) == Xor(Xor(x, y), p)
    ensures Xor(x, Xor(y, p)) == Xor(Xor(x, y), p)
  {
    hide Xor;
    XorLaws(x, p, y);
    XorLaws(x, y, p);
    XorLaws(y, p, 0);
    XorLaws(Xor(x, p), y, p);
    XorLaws(x, p, Xor(y, p));
    XorLaws(p, y, p);
  }

  lemma BitStepLinear(x: bv32, y: bv32)
    ensures BitStep(Xor(x, y)) == Xor(BitStep(x), BitStep(y))
  {
    hide Xor, Half, Odd;
    HalfXor(x, y);
    XorPairs(Half(x), Half(y), POLY);
  }

  lemma EightLinear(x: bv32, y: bv32)
    ensures Eight(Xor(x, y)) == Xor(Eight(x), Eight(y))
  {
    hide BitStep, Xor;
    var x1, y1 := BitStep(x), BitStep(y);
    var x2, y2 := BitStep(x1), BitStep(y1);
    var x3, y3 := BitStep(x2), BitStep(y2);
    var x4, y4 := BitStep(x3), BitStep(y3);
    var x5, y5 := BitStep(x4), BitStep(y4);
    var x6, y6 := BitStep(x5), BitStep(y5);
    var x7, y7 := BitStep(x6), BitStep(y6);
    BitStepLinear(x, y);
    BitStepLinear(x1, y1);
    BitStepLinear(x2, y2);
    BitStepLinear(x3, y3);
    BitStepLinear(x4, y4);
    BitStepLinear(x5, y5);
    BitStepLinear(x6, y6);
    BitStepLinear(x7, y7);
  }

  // Shifts --------------------------------------------------------------------------------------

  /** The word moved up by a byte. */
  function Raise(y: bv32): bv32 {
    y << 8
  }

  function Drop(x: bv32): bv32 {
    x >> 8
  }

  function LowByte(x: bv32): bv32 {
    x & 0xFF
  }

  /** Words that leave the highest byte free. */
  predicate Short(y: bv32) {
    y <= 0x00FF_FFFF
  }

  lemma StepUndoesDouble(z: bv32)
    requires z <= 0x7FFF_FFFF
    ensures BitStep(Double(z)) == z
  {
    HalfOfDouble(z);
    hide Half, Double, Odd, Xor;
  }

  lemma HalfOfDouble(z: bv32)
    requires z <= 0x7FFF_FFFF
    ensures Half(Double(z)) == z && !Odd(Double(z))
  {
  }

  lemma RaiseDoubles(y: bv32)
    requires Short(y)
    ensures Raise(y) == Double(Double(Double(Double(Double(Double(Double(Double(y))))))))
  {
  }

  lemma DoubleBounds(y: bv32)
    requires Short(y)
    ensures y <= 0x7FFF_FFFF && Double(y) <= 0x7FFF_FFFF && Double(Double(y)) <= 0x7FFF_FFFF
    ensures Double(Double(Double(y))) <= 0x7FFF_FFFF
    ensures Double(Double(Double(Double(y)))) <= 0x7FFF_FFFF
    ensures Double(Double(Double(Double(Double(y))))) <= 0x7FFF_FFFF
    ensures Double(Double(Double(Double(Double(Double(y)))))) <= 0x7FFF_FFFF
    ensures Double(Double(Double(Double(Double(Double(Double(y))))))) <= 0x7FFF_FFFF
  {
  }

  /** Eight steps move a word down by a byte if its lowest byte is zero. */
  lemma EightShifts(y: bv32)
    requires Short(y)
    ensures Eight(Raise(y)) == y
  {
    RaiseDoubles(y);
    DoubleBounds(y);
    hide Double, BitStep, Short, Raise;
    var y1 := Double(y);
    var y2 := Double(y1);
    var y3 := Double(y2);
    var y4 := Double(y3);
    var y5 := Double(y4);
    var y6 := Double(y5);
    var y7 := Double(y6);
    StepUndoesDouble(y);
    StepUndoesDouble(y1);
    StepUndoesDouble(y2);
    StepUndoesDouble(y3);
    StepUndoesDouble(y4);
    StepUndoesDouble(y5);
    StepUndoesDouble(y6);
    StepUndoesDouble(y7);
  }

  lemma SplitWord(x: bv32)
    ensures x == Xor(LowByte(x), Raise(Drop(x))) && Short(Drop(x))
  {
  }

  /** The low byte of the register is all that the polynomial is added for; the rest only moves. */
  lemma EightSplits(x: bv32)
    ensures Eight(x) == Xor(Eight(LowByte(x)), Drop(x))
  {
    hide *;
    SplitWord(x);
    EightLinear(LowByte(x), Raise(Drop(x)));
    EightShifts(Drop(x));
  }

  // Reversibility -------------------------------------------------------------------------------

  /** The step that undoes `BitStep`: the polynomial has set the highest bit. */
  function BitBack(y: bv32): bv32 {
    if y & 0x8000_0000 != 0 then Double(Xor(y, POLY)) | 1 else Double(y)
  }

  lemma HalfBack(x: bv32)
    ensures Half(x) & 0x8000_0000 == 0 && Xor(Half(x), POLY) & 0x8000_0000 != 0
    ensures !Odd(x) ==> Double(Half(x)) == x
    ensures Odd(x) ==> Double(Half(x)) | 1 == x
  {
  }

  lemma BitBackUndoes(x: bv32)
    ensures BitBack(BitStep(x)) == x
  {
    hide Xor, Half, Odd, Double;
    HalfBack(x);
    XorLaws(Half(x), POLY, 0);
  }

  lemma BitStepInjective(x: bv32, y: bv32)
    requires BitStep(x) == BitStep(y)
    ensures x == y
  {
    hide *;
    BitBackUndoes(x);
    BitBackUndoes(y);
  }

  lemma EightInjective(x: bv32, y: bv32)
    requires Eight(x) == Eight(y)
    ensures x == y
  {
    hide BitStep;
    var x1, y1 := BitStep(x), BitStep(y);
    var x2, y2 := BitStep(x1), BitStep(y1);
    var x3, y3 := BitStep(x2), BitStep(y2);
    var x4, y4 := BitStep(x3), BitStep(y3);
    var x5, y5 := BitStep(x4), BitStep(y4);
    var x6, y6 := BitStep(x5), BitStep(y5);
    var x7, y7 := BitStep(x6), BitStep(y6);
    BitStepInjective(x7, y7);
    BitStepInjective(x6, y6);
    BitStepInjective(x5, y5);
    BitStepInjective(x4, y4);
    BitStepInjective(x3, y3);
    BitStepInjective(x2, y2);
    BitStepInjective(x1, y1);
    BitStepInjective(x, y);
  }

  lemma XorCancels(x: bv32, y: bv32, b: bv32)
    requires Xor(x, b) == Xor(y, b)
    ensures x == y
  {
    hide Xor;
    XorLaws(x, b, 0);
    XorLaws(y, b, 0);
  }

  /** Feeding the same bytes keeps different registers different. */
  lemma {:induction false} RunInjective(s: bv32, t: bv32, data: seq<Byte>)
    requires Run(s, data) == Run(t, data)
    ensures s == t
    decreases data
  {
    hide Eight, Xor;
    if data != [] {
      RunInjective(ByteStep(s, data[0]), ByteStep(t, data[0]), data[1..]);
      EightInjective(Xor(s, data[0] as bv32), Xor(t, data[0] as bv32));
      XorCancels(s, t, data[0] as bv32);
    }
  }

  // Error detection -----------------------------------------------------------------------------

  function Join(b: Byte, w: bv32): bv32 {
    (b as bv32) | (w << 8)
  }

  /** Up to four bytes as one word, first byte lowest. */
  function Word(data: seq<Byte>): bv32
    requires |data| <= 4
  {
    if data == [] then 0 else Join(data[0], Word(data[1..]))
  }

  lemma JoinBound(b: Byte, w: bv32)
    ensures w == 0 ==> Join(b, w) <= 0xFF
    ensures w <= 0xFF ==> Join(b, w) <= 0xFFFF
    ensures w <= 0xFFFF ==> Join(b, w) <= 0x00FF_FFFF
  {
  }

  lemma {:induction false} WordBound(data: seq<Byte>)
    requires |data| <= 3
    ensures Word(data) <= if |data| == 0 then 0 else if |data| == 1 then 0xFF
                          else if |data| == 2 then 0xFFFF else 0x00FF_FFFF
  {
    hide Join;
    if data != [] {
      WordBound(data[1..]);
      JoinBound(data[0], Word(data[1..]));
      assert Word(data[1..]) <= 0 ==> Word(data[1..]) == 0;
    }
  }

  lemma WordShort(data: seq<Byte>)
    requires |data| <= 3
    ensures Short(Word(data))
  {
    hide Word;
    WordBound(data);
  }

  lemma JoinInjective(a: Byte, v: bv32, b: Byte, w: bv32)
    requires Short(v) && Short(w) && Join(a, v) == Join(b, w)
    ensures a == b && v == w
  {
    JoinParts(a, v);
    JoinParts(b, w);
  }

  lemma JoinParts(a: Byte, v: bv32)
    requires Short(v)
    ensures LowByte(Join(a, v)) as Byte == a && Drop(Join(a, v)) == v
  {
  }

  lemma {:induction false} WordInjective(a: seq<Byte>, b: seq<Byte>)
    requires |a| == |b| <= 4 && Word(a) == Word(b)
    ensures a == b
  {
    if a != [] {
      WordShort(a[1..]);
      WordShort(b[1..]);
      hide Join, Short;
      JoinInjective(a[0], Word(a[1..]), b[0], Word(b[1..]));
      WordInjective(a[1..], b[1..]);
      assert a == [a[0]] + a[1..] && b == [b[0]] + b[1..];
    }
  }

  /** `n` times eight bits. */
  function Eights(x: bv32, n: nat): bv32
    decreases n
  {
    if n == 0 then x else Eights(Eight(x), n - 1)
  }

  lemma {:induction false} EightsLinear(x: bv32, y: bv32, n: nat)
    ensures Eights(Xor(x, y), n) == Xor(Eights(x, n), Eights(y, n))
    decreases n
  {
    hide Eight, Xor;
    if n > 0 {
      EightLinear(x, y);
      EightsLinear(Eight(x), Eight(y), n - 1);
    }
  }

  lemma {:induction false} EightsInjective(x: bv32, y: bv32, n: nat)
    requires Eights(x, n) == Eights(y, n)
    ensures x == y
    decreases n
  {
    hide Eight;
    if n > 0 {
      EightsInjective(Eight(x), Eight(y), n - 1);
      EightInjective(x, y);
    }
  }

  lemma JoinIsXor(s: bv32, b: Byte, w: bv32)
    ensures Xor(s, Join(b, w)) == Xor(Xor(s, b as bv32), Raise(w))
  {
  }

  /** Up to four bytes enter the register as one word. */
  lemma {:induction false} RunIsWord(state: bv32, data: seq<Byte>)
    requires |data| <= 4
    ensures Run(state, data) == Eights(Xor(state, Word(data)), |data|)
    decreases data
  {
    hide Eight, Xor, Join, Raise, Short;
    if data == [] {
      XorLaws(state, 0, 0);
    } else {
      var w := Word(data[1..]);
      WordShort(data[1..]);
      RunIsWord(ByteStep(state, data[0]), data[1..]);
      JoinIsXor(state, data[0], w);
      EightLinear(Xor(state, data[0] as bv32), Raise(w));
      EightShifts(w);
    }
  }

  lemma BurstMoves(s: bv32, a: seq<Byte>, b: seq<Byte>)
    requires |a| == |b| <= 4 && Run(s, a) == Run(s, b)
    ensures a == b
  {
    hide *;
    RunIsWord(s, a);
    RunIsWord(s, b);
    EightsInjective(Xor(s, Word(a)), Xor(s, Word(b)), |a|);
    XorLaws(s, Word(a), 0);
    XorLaws(s, Word(b), 0);
    XorCancels(Word(a), Word(b), s);
    WordInjective(a, b);
  }

  lemma ComplementInjective(x: bv32, y: bv32)
    requires Complement(x) == Complement(y)
    ensures x == y
  {
    hide Xor;
    XorCancels(x, y, 0xFFFF_FFFF);
  }

  lemma Crc32Of(before: seq<Byte>, a: seq<Byte>, after: seq<Byte>)
    ensures Crc32(before + a + after) == Complement(Run(Run(Run(START, before), a), after))
  {
    hide Run, Complement;
    RunConcat(START, before + a, after);
    RunConcat(START, before, a);
  }

  /** An error burst within four consecutive bytes is always detected, wherever it lies and however
      long the message is. */
  lemma BurstDetected(before: seq<Byte>, a: seq<Byte>, b: seq<Byte>, after: seq<Byte>)
    requires |a| == |b| <= 4 && a != b
    ensures Crc32(before + a + after) != Crc32(before + b + after)
  {
    hide *;
    var s := Run(START, before);
    Crc32Of(before, a, after);
    Crc32Of(before, b, after);
    if Crc32(before + a + after) == Crc32(before + b + after) {
      ComplementInjective(Run(Run(s, a), after), Run(Run(s, b), after));
      RunInjective(Run(s, a), Run(s, b), after);
      BurstMoves(s, a, b);
    }
  }

  /** The same for messages given as a whole: if they differ, but only within a window of four
      bytes, their CRCs differ. */
  lemma WindowDetected(a: seq<Byte>, b: seq<Byte>, k: nat)
    requires |a| == |b| && a != b
    requires forall i | 0 <= i < |a| && !(k <= i < k + 4) :: a[i] == b[i]
    ensures Crc32(a) != Crc32(b)
  {
    hide Crc32;
    var lo, hi := Min(k, |a|), Min(k + 4, |a|);
    assert a == a[..lo] + a[lo..hi] + a[hi..];
    assert b == a[..lo] + b[lo..hi] + a[hi..] by {
      assert b[..lo] == a[..lo] && b[hi..] == a[hi..];
    }
    assert a[lo..hi] != b[lo..hi];
    BurstDetected(a[..lo], a[lo..hi], b[lo..hi], a[hi..]);
  }

  // The limit -----------------------------------------------------------------------------------

  /** A burst of five bytes that no register notices. */
  const BURST: seq<Byte> := [0x41, 0x06, 0x71, 0xDB, 0x01]

  /** Its first four bytes as a word. */
  const BURST_WORD: bv32 := 0xDB71_0641

  /** A byte with the bits of another one flipped. */
  function Flip(x: Byte, y: Byte): Byte {
    x ^ y
  }

  function XorBytes(a: seq<Byte>, b: seq<Byte>): (r: seq<Byte>)
    requires |a| == |b|
    ensures |r| == |a|
  {
    seq(|a|, i requires 0 <= i < |a| => Flip(a[i], b[i]))
  }

  lemma WordOfFour(u: seq<Byte>)
    requires |u| == 4
    ensures Word(u) == Join(u[0], Join(u[1], Join(u[2], Join(u[3], 0))))
  {
    hide Join;
    assert u[1..][1..] == u[2..] && u[2..][1..] == u[3..] && u[3..][1..] == [];
    assert Word(u[3..]) == Join(u[3], 0);
    assert Word(u[2..]) == Join(u[2], Word(u[3..]));
    assert Word(u[1..]) == Join(u[1], Word(u[2..]));
  }

  lemma JoinXor(a: Byte, b: Byte, v: bv32, w: bv32)
    ensures Join(Flip(a, b), Xor(v, w)) == Xor(Join(a, v), Join(b, w))
  {
  }

  lemma BurstWord(u: seq<Byte>, v: seq<Byte>)
    requires |u| == |v| == 4
    requires v[0] == Flip(u[0], 0x41) && v[1] == Flip(u[1], 0x06)
    requires v[2] == Flip(u[2], 0x71) && v[3] == Flip(u[3], 0xDB)
    ensures Word(v) == Xor(Word(u), BURST_WORD)
  {
    WordOfFour(u);
    WordOfFour(v);
    XorLaws(0, 0, 0);
    BurstJoined();
    hide Word, Xor, Join, Flip;
    var u3 := Join(u[3], 0);
    var u2 := Join(u[2], u3);
    JoinXor(u[3], 0xDB, 0, 0);
    JoinXor(u[2], 0x71, u3, Join(0xDB, 0));
    JoinXor(u[1], 0x06, u2, Join(0x71, Join(0xDB, 0)));
    JoinXor(u[0], 0x41, Join(u[1], u2), Join(0x06, Join(0x71, Join(0xDB, 0))));
  }

  lemma BurstJoined()
    ensures Join(0x41, Join(0x06, Join(0x71, Join(0xDB, 0)))) == BURST_WORD
  {
  }

  lemma BurstEights()
    ensures Eight(Eight(Eight(Eight(BURST_WORD)))) == 1
  {
  }

  lemma FourEights(x: bv32, n: nat)
    requires n == 4
    ensures Eights(x, n) == Eight(Eight(Eight(Eight(x))))
  {
    hide Eight;
    var x1 := Eight(x);
    var x2 := Eight(x1);
    var x3 := Eight(x2);
    assert Eights(x3, n - 3) == Eights(Eight(x3), n - 4);
    assert Eights(x2, n - 2) == Eights(x3, n - 3);
    assert Eights(x1, n - 1) == Eights(x2, n - 2);
  }

  /** After its first four bytes the burst has changed the register by the value of its last byte. */
  lemma BurstFour(s: bv32, u: seq<Byte>, v: seq<Byte>)
    requires |u| == |v| == 4
    requires v[0] == Flip(u[0], 0x41) && v[1] == Flip(u[1], 0x06)
    requires v[2] == Flip(u[2], 0x71) && v[3] == Flip(u[3], 0xDB)
    ensures Run(s, v) == Xor(Run(s, u), 1)
  {
    hide Run, Word, Eight, Eights, Xor;
    var n := |u|;
    RunIsWord(s, u);
    RunIsWord(s, v);
    BurstWord(u, v);
    XorLaws(s, Word(u), BURST_WORD);
    EightsLinear(Xor(s, Word(u)), BURST_WORD, n);
    FourEights(BURST_WORD, n);
    BurstEights();
  }

  lemma LastByte(s: bv32, x: Byte)
    ensures Xor(Xor(s, 1), Flip(x, 1) as bv32) == Xor(s, x as bv32)
  {
  }

  lemma BurstBytes(a: seq<Byte>, b: seq<Byte>)
    requires |a| == |b| == 5 && b == XorBytes(a, BURST)
    ensures b[0] == Flip(a[0], 0x41) && b[1] == Flip(a[1], 0x06) && b[2] == Flip(a[2], 0x71) && b[3] == Flip(a[3], 0xDB)
    ensures b[4] == Flip(a[4], 0x01)
  {
  }

  lemma BurstUnnoticed(s: bv32, a: seq<Byte>, b: seq<Byte>)
    requires |a| == |b| == 5 && b == XorBytes(a, BURST)
    ensures Run(s, b) == Run(s, a)
  {
    BurstBytes(a, b);
    hide *;
    var u, v := a[..4], b[..4];
    assert a == u + [a[4]] && b == v + [b[4]];
    RunConcat(s, u, [a[4]]);
    RunConcat(s, v, [b[4]]);
    RunOne(Run(s, u), a[4]);
    RunOne(Run(s, v), b[4]);
    BurstFour(s, u, v);
    BurstEnds(Run(s, u), a[4]);
  }

  lemma BurstEnds(s: bv32, x: Byte)
    ensures ByteStep(Xor(s, 1), Flip(x, 1)) == ByteStep(s, x)
  {
    hide Eight, Xor;
    LastByte(s, x);
  }

  lemma FlipChanges(x: Byte)
    ensures Flip(x, 1) != x
  {
  }

  /** Four bytes is the exact limit: in any message, some change of any five consecutive bytes goes
      undetected. */
  lemma FiveBytesCollide(before: seq<Byte>, a: seq<Byte>, after: seq<Byte>)
    requires |a| == 5
    ensures var b := XorBytes(a, BURST);
            b != a && Crc32(before + b + after) == Crc32(before + a + after)
  {
    hide Run, Crc32, Complement;
    var b := XorBytes(a, BURST);
    FlipChanges(a[4]);
    assert b[4] == Flip(a[4], 1);
    BurstUnnoticed(Run(START, before), a, b);
    Crc32Of(before, a, after);
    Crc32Of(before, b, after);
  }
}
