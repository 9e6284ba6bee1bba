/** The rounding of a buffer size to a power of two (`next_pow2`), on 32-bit words written as
    naturals. */
module Bits {
  import opened Ring

  /** Bitwise disjunction of two naturals, by binary digits. */
  function Or(x: nat, y: nat): nat {
    if x == 0 then y
    else if y == 0 then x
    else 2 * Or(x / 2, y / 2) + if x % 2 == 1 || y % 2 == 1 then 1 else 0
  }

  /** `x >> s`. */
  function Shr(x: nat, s: nat): nat {
    if s == 0 then x else Shr(x / 2, s - 1)
  }

  /** The distance of the first shift. */
  const FIRST_SHIFT: nat := 1

  /** `x << s` without wrap-around. */
  function Shl(x: nat, s: nat): nat {
    if s == 0 then x else 2 * Shl(x, s - 1)
  }

  /** One step of `v |= v >> s`. */
  function Smear(v: nat, s: nat): nat {
    Or(v, Shr(v, s))
  }

  /** `next_pow2` for a 32-bit `size_t`: the first and the last step wrap around. */
  function NextPow2(v: nat): nat {
    U32(SmearFrom(U32(v - 1), FIRST_SHIFT) + 1)
  }

  /** The shift steps of `next_pow2` by `s`, `2 * s`, ... up to 16. */
  function SmearFrom(v: nat, s: nat): nat
    requires s > 0
    decreases 32 - s
  {
    if s > 16 then v else SmearFrom(Smear(v, s), 2 * s)
  }

  lemma {:induction false} ShrShr(x: nat, s: nat, t: nat)
    ensures Shr(Shr(x, s), t) == Shr(x, s + t)
  {
    if s > 0 {
      ShrShr(x / 2, s - 1, t);
    }
  }

  lemma {:induction false} ShrOr(x: nat, y: nat, s: nat)
    ensures Shr(Or(x, y), s) == Or(Shr(x, s), Shr(y, s))
  {
    if s > 0 {
      assert Or(x, y) / 2 == Or(x / 2, y / 2);
      ShrOr(x / 2, y / 2, s - 1);
    }
  }

  lemma {:induction false} ShrSmall(x: nat, s: nat)
    requires x < Pow2(s)
    ensures Shr(x, s) == 0
  {
    if s > 0 {
      ShrSmall(x / 2, s - 1);
    }
  }

  lemma {:induction false} ShrTop(x: nat, m: nat)
    requires m > 0 && Pow2(m - 1) <= x < Pow2(m)
    ensures Shr(x, m - 1) == 1
  {
    if m > 1 {
      ShrTop(x / 2, m - 1);
    }
  }

  lemma {:induction false} ShrOnes(j: nat, s: nat)
    requires s <= j
    ensures Shr(Pow2(j) - 1, s) == Pow2(j - s) - 1
  {
    if s > 0 {
      assert (Pow2(j) - 1) / 2 == Pow2(j - 1) - 1;
      ShrOnes(j - 1, s - 1);
    }
  }

  lemma {:induction false} OrBound(x: nat, y: nat, m: nat)
    requires x < Pow2(m) && y < Pow2(m)
    ensures Or(x, y) < Pow2(m)
  {
    if x != 0 && y != 0 {
      OrBound(x / 2, y / 2, m - 1);
    }
  }

  lemma {:induction false} ShrBelow(x: nat, s: nat)
    ensures Shr(x, s) <= x
  {
    if s > 0 {
      ShrBelow(x / 2, s - 1);
    }
  }

  /** Setting the low `j` bits. */
  lemma {:induction false} OrOnes(x: nat, j: nat)
    ensures Or(x, Pow2(j) - 1) + 1 == Shl(Shr(x, j) + 1, j)
  {
    if j > 0 {
      assert (Pow2(j) - 1) / 2 == Pow2(j - 1) - 1;
      OrOnes(x / 2, j - 1);
    }
  }

  lemma {:induction false} ShlPow2(a: nat, b: nat)
    ensures Shl(Pow2(a), b) == Pow2(a + b)
  {
    if b > 0 {
      ShlPow2(a, b - 1);
    }
  }

  lemma {:induction false} Pow2Sum(a: nat, b: nat)
    ensures Pow2(a + b) == Pow2(a) * Pow2(b)
  {
    if a > 0 {
      Pow2Sum(a - 1, b);
      assert Pow2(a) * Pow2(b) == 2 * (Pow2(a - 1) * Pow2(b));
    }
  }

  /** Of an `m`-bit number, the upper `j` bits (or all, if there are fewer) are ones. */
  ghost predicate TopOnes(x: nat, m: nat, j: nat) {
    && x < Pow2(m)
    && if j < m then Shr(x, m - j) == Pow2(j) - 1 else x == Pow2(m) - 1
  }

  lemma SmearDoubles(x: nat, m: nat, j: nat)
    requires TopOnes(x, m, j)
    ensures TopOnes(Smear(x, j), m, 2 * j)
  {
    hide Or, Shr, Pow2, Shl;
    var y := Shr(x, j);
    ShrBelow(x, j);
    OrBound(x, y, m);
    if m <= j {
      Pow2Monotone(m, j);
      ShrSmall(x, j);
      OrZero(x);
    } else if m <= 2 * j {
      ShrShr(x, m - j, 2 * j - m);
      ShrOnes(j, 2 * j - m);
      OrOnes(x, m - j);
      ShlPow2(j, m - j);
    } else {
      ShrShr(x, m - 2 * j, j);
      ShrShr(x, j, m - 2 * j);
      ShrOr(x, y, m - 2 * j);
      OrOnes(Shr(x, m - 2 * j), j);
      ShlPow2(j, j);
    }
  }

  lemma OrZero(x: nat)
    ensures Or(x, 0) == x
  {
  }

  lemma {:induction false} Pow2Monotone(a: nat, b: nat)
    requires a <= b
    ensures Pow2(a) <= Pow2(b)
  {
    if a < b {
      Pow2Monotone(a, b - 1);
    }
  }

  /** The exponent that `next_pow2` rounds up to. */
  function {:induction false} Exponent(v: nat): (m: nat)
    requires v > 0
    ensures v <= Pow2(m) && (m > 0 ==> Pow2(m - 1) < v)
  {
    if v == 1 then 0 else 1 + Exponent((v + 1) / 2)
  }

  lemma Pow2Twice(k: nat, v: nat)
    requires Pow2(k) == v
    ensures Pow2(2 * k) == v * v
  {
    Pow2Sum(k, k);
  }

  lemma WordIsPow2(k: nat)
    requires k == 32
    ensures Pow2(k) == WORD && Pow2(k - 1) == HALF_WORD
  {
    var j := k / 16;
    assert Pow2(j) == 4;
    Pow2Twice(j, 4);
    Pow2Twice(2 * j, 16);
    Pow2Twice(4 * j, 256);
    Pow2Twice(8 * j, 65536);
  }

  /** Once the upper `j` bits are ones, the remaining shift steps fill in the others. */
  lemma {:induction false} SmearFills(x: nat, m: nat, j: nat)
    requires TopOnes(x, m, j) && m <= 32 && j in {1, 2, 4, 8, 16, 32}
    ensures SmearFrom(x, j) == Pow2(m) - 1
    decreases 32 - j
  {
    if j <= 16 {
      SmearDoubles(x, m, j);
      SmearFills(Smear(x, j), m, 2 * j);
    }
  }

  lemma {:induction false} ExponentBound(v: nat, k: nat)
    requires v > 0
    ensures Exponent(v) <= k <==> v <= Pow2(k)
  {
    if Exponent(v) <= k {
      Pow2Monotone(Exponent(v), k);
    } else {
      Pow2Monotone(k, Exponent(v) - 1);
    }
  }

  /** All the shift steps together fill a word below its highest bit. */
  lemma SmearFromOne(v: nat)
    requires v > 0 && Exponent(v) <= 32
    ensures SmearFrom(v - 1, FIRST_SHIFT) == Pow2(Exponent(v)) - 1
  {
    var m := Exponent(v);
    hide Exponent, SmearFrom;
    if m > 0 {
      ShrTop(v - 1, m);
    }
    assert TopOnes(v - 1, m, FIRST_SHIFT);
    hide *;
    SmearFills(v - 1, m, FIRST_SHIFT);
  }

  /** Over the whole range of a `size_t`, `next_pow2` yields the least power of two that is not
      below its argument, taken modulo the word size. */
  lemma RoundsUp(v: nat)
    requires 0 < v < WORD
    ensures NextPow2(v) == U32(Pow2(Exponent(v)))
  {
    hide SmearFrom, Pow2, Exponent;
    var k := 32;
    WordIsPow2(k);
    ExponentBound(v, k);
    SmearFromOne(v);
    assert U32(v - 1) == v - 1;
  }

  /** The rounded size is usable exactly for requests of at most 2^31 bytes; beyond that
      `next_pow2` wraps around to zero. */
  lemma RoundUpUsable(v: nat)
    requires 0 < v < WORD
    ensures v <= HALF_WORD <==> NextPow2(v) >= v
    ensures v > HALF_WORD ==> NextPow2(v) == 0
    ensures v <= HALF_WORD ==> NextPow2(v) == Pow2(Exponent(v)) <= HALF_WORD && NextPow2(v) < 2 * v
  {
    hide NextPow2, Exponent;
    RoundsUp(v);
    var k := 32;
    WordIsPow2(k);
    ExponentBound(v, k - 1);
    ExponentBound(v, k);
    if v <= HALF_WORD {
      Pow2Monotone(Exponent(v), k - 1);
    }
  }

  /** A power of two is left as it is. */
  lemma RoundUpFixed(v: nat, k: nat)
    requires v == Pow2(k) <= HALF_WORD
    ensures NextPow2(v) == v
  {
    hide NextPow2, Exponent, Pow2;
    RoundUpUsable(v);
    if Exponent(v) > k {
      Pow2Monotone(k + 1, Exponent(v));
      Pow2Next(k);
    } else {
      Pow2Monotone(Exponent(v), k);
    }
  }

  lemma Pow2Next(k: nat)
    ensures Pow2(k + 1) == 2 * Pow2(k)
  {
  }
}
