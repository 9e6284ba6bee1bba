/** Positions in an endless byte stream and the ring cells that hold them, together with the
    32-bit word arithmetic that the ring indices use. */
module Ring {

  /** A byte of stream data. */
  type Byte = bv8

  /** The number of values of a 32-bit `size_t`. */
  const WORD: nat := 0x1_0000_0000

  /** The largest power of two that a `size_t` can hold. */
  const HALF_WORD: nat := 0x8000_0000

  /** What is left of an unsigned 32-bit computation after wrap-around. */
  function U32(x: int): (r: nat)
    ensures r < WORD
  {
    if 0 <= x < WORD then x else x % WORD
  }

  function Min(a: nat, b: nat): nat {
    if a <= b then a else b
  }

  function Pow2(k: nat): (r: nat)
    ensures r >= 1
  {
    if k == 0 then 1 else 2 * Pow2(k - 1)
  }

  /** Bitwise conjunction of two naturals, by binary digits. */
  function And(x: nat, y: nat): nat {
    if x == 0 || y == 0 then 0
    else 2 * And(x / 2, y / 2) + if x % 2 == 1 && y % 2 == 1 then 1 else 0
  }

  /** Masking with a power of two minus one wraps an index that overshoots by less than one turn. */
  lemma {:induction false} MaskWraps(x: nat, k: nat)
    requires x < 2 * Pow2(k)
    ensures And(x, Pow2(k) - 1) == if x < Pow2(k) then x else x - Pow2(k)
  {
    if k != 0 && x != 0 {
      assert (Pow2(k) - 1) / 2 == Pow2(k - 1) - 1;
      MaskWraps(x / 2, k - 1);
    }
  }

  /** The cell of an `n`-cell ring that holds stream position `p`. */
  function Slot(p: nat, n: nat): (r: nat)
    requires n > 0
    ensures r < n
  {
    if p < n then p else Slot(p - n, n)
  }

  lemma {:induction false} SlotIsModulo(p: nat, n: nat)
    requires n > 0
    ensures Slot(p, n) == p % n
  {
    if p < n {
      ModuloUnique(p, n, 0, p);
    } else {
      SlotIsModulo(p - n, n);
      var q := (p - n) / n;
      assert n * (q + 1) == n * q + n;
      ModuloUnique(p, n, q + 1, (p - n) % n);
    }
  }

  lemma ModuloUnique(x: int, n: nat, q: int, r: int)
    requires n > 0 && x == n * q + r && 0 <= r < n
    ensures x % n == r
  {
    var d := x / n - q;
    assert n * d == n * (x / n) - n * q;
    NoSmallMultiple(n, d);
  }

  lemma NoSmallMultiple(n: int, d: int)
    requires -n < n * d < n
    ensures d == 0
  {
    assert d >= 1 ==> n * d >= n;
    assert d <= -1 ==> n * d <= 0 - n;
  }

  /** Moving on by at most one turn. */
  lemma {:induction false} SlotStep(p: nat, d: nat, n: nat)
    requires n > 0 && d <= n
    ensures Slot(p + d, n) == if Slot(p, n) + d < n then Slot(p, n) + d else Slot(p, n) + d - n
  {
    if p >= n {
      SlotStep(p - n, d, n);
    }
  }

  /** Positions less than one turn apart lie in different cells. */
  lemma SlotDistinct(p: nat, q: nat, n: nat)
    requires n > 0 && p < q < p + n
    ensures Slot(p, n) != Slot(q, n)
  {
    SlotStep(p, q - p, n);
  }

  /** The cells of a stretch of the stream. */
  ghost function Cells(a: nat, b: nat, n: nat): set<nat>
    requires n > 0
  {
    set p: nat | a <= p < b :: Slot(p, n)
  }

  /** A stretch of at most one turn occupies as many cells as it has positions. */
  lemma {:induction false} CellCount(a: nat, b: nat, n: nat)
    requires n > 0 && a <= b <= a + n
    ensures |Cells(a, b, n)| == b - a
    decreases b
  {
    hide Slot;
    if a == b {
      assert Cells(a, b, n) == {};
    } else {
      CellCount(a, b - 1, n);
      assert Cells(a, b, n) == Cells(a, b - 1, n) + {Slot(b - 1, n)};
      assert Slot(b - 1, n) !in Cells(a, b - 1, n) by {
        forall p: nat | a <= p < b - 1 ensures Slot(p, n) != Slot(b - 1, n) {
          SlotDistinct(p, b - 1, n);
        }
      }
    }
  }

  /** Two stretches within one turn share no cell. */
  lemma CellsDisjoint(a: nat, b: nat, c: nat, d: nat, n: nat)
    requires n > 0 && a <= b <= c <= d <= a + n
    ensures Cells(a, b, n) !! Cells(c, d, n)
  {
    forall p: nat, q: nat | a <= p < b && c <= q < d ensures Slot(p, n) != Slot(q, n) {
      SlotDistinct(p, q, n);
    }
  }

  function Sum(s: seq<nat>): nat {
    if s == [] then 0 else s[0] + Sum(s[1..])
  }

  lemma {:induction false} SumConcat(s: seq<nat>, t: seq<nat>)
    ensures Sum(s + t) == Sum(s) + Sum(t)
  {
    if s == [] {
      assert s + t == t;
    } else {
      SumConcat(s[1..], t);
      assert (s + t)[1..] == s[1..] + t;
    }
  }

  lemma SumNil()
    ensures Sum([]) == 0
  {
  }

  lemma SumOne(n: nat)
    ensures Sum([n]) == n && Sum([n][..0]) == 0
  {
    assert [n][1..] == [];
  }

  lemma SumSplit(s: seq<nat>, i: nat)
    requires i < |s|
    ensures Sum(s) == Sum(s[..i]) + s[i] + Sum(s[i + 1..])
  {
    SumConcat(s[..i], s[i..]);
    assert s == s[..i] + s[i..];
    assert s[i..][1..] == s[i + 1..];
  }

  lemma {:induction false} SumZero(s: seq<nat>)
    ensures Sum(s) == 0 <==> forall j | 0 <= j < |s| :: s[j] == 0
  {
    if s != [] {
      SumZero(s[1..]);
      assert forall j | 0 <= j < |s| - 1 :: s[1..][j] == s[j + 1];
      if Sum(s) == 0 {
        forall j | 0 <= j < |s| ensures s[j] == 0 {
          if j > 0 { assert s[1..][j - 1] == 0; }
        }
      }
    }
  }

  /** A buffer with `bytes` written over it from index `at` on. */
  function Patched(s: seq<Byte>, at: nat, bytes: seq<Byte>): (r: seq<Byte>)
    requires at + |bytes| <= |s|
    ensures |r| == |s|
  {
    s[..at] + bytes + s[at + |bytes|..]
  }

  lemma PatchedTwice(s: seq<Byte>, at: nat, a: seq<Byte>, b: seq<Byte>)
    requires at + |a| + |b| <= |s|
    ensures Patched(Patched(s, at, a), at + |a|, b) == Patched(s, at, a + b)
  {
  }

  lemma PatchedNone(s: seq<Byte>, at: nat)
    requires at <= |s|
    ensures Patched(s, at, []) == s
  {
  }

  /** Consecutive stretches of a log that has only been added to. */
  lemma SliceJoin(was: seq<Byte>, log: seq<Byte>, a: nat, b: nat, c: nat)
    requires was <= log && a <= b <= c <= |log|
    ensures b <= |was| ==> was[a..b] == log[a..b]
    ensures log[a..b] + log[b..c] == log[a..c]
  {
  }

  /** A buffer filled in two transfers from a log that grows meanwhile. */
  lemma PatchExtends(s: seq<Byte>, was: seq<Byte>, log: seq<Byte>, a: nat, b: nat, c: nat)
    requires was <= log && a <= b <= c <= |log| && b <= |was| && c - a <= |s|
    ensures Patched(s, 0, was[a..b]) == Patched(s, 0, log[a..b])
    ensures Patched(Patched(s, 0, was[a..b]), b - a, log[b..c]) == Patched(s, 0, log[a..c])
  {
    SliceJoin(was, log, a, b, c);
    hide Patched;
    PatchedTwice(s, 0, log[a..b], log[b..c]);
  }
}
