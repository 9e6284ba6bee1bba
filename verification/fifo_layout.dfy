/** How the outstanding regions lie in the ring, and which of them an unlock call accepts. */
module FifoLayout {
  import opened Ring
  import opened FifoModel

  /** The naturals from `a` up to but not including `b`. */
  ghost function Range(a: nat, b: nat): (s: set<nat>)
    ensures forall c: nat :: c in s <==> a <= c < b
    decreases b
  {
    if b <= a then {} else Range(a, b - 1) + {b - 1}
  }

  /** The ring cells that the two pieces of a region cover. */
  ghost function RegionCells(r: Region): set<nat> {
    Range(r.first, r.first + r.firstSize) + Range(0, r.secondSize)
  }

  /** A region covers exactly the cells of its stretch of the stream, whether or not it is split. */
  lemma RegionCovers(p: nat, n: nat, size: nat)
    requires size > 0 && n <= size
    ensures var r := RegionAt(p, n, size);
            && r.first + r.firstSize <= size
            && r.Size() == n
            && (r.second == Null <==> r.secondSize == 0)
            && RegionCells(r) == Cells(p, p + n, size)
  {
    var r := RegionAt(p, n, size);
    forall c | c in RegionCells(r) ensures c in Cells(p, p + n, size) {
      var d := if r.first <= c < r.first + r.firstSize then c - r.first else c + r.firstSize;
      SlotStep(p, d, size);
      assert Slot(p + d, size) == c;
    }
    forall c | c in Cells(p, p + n, size) ensures c in RegionCells(r) {
      var q: nat :| p <= q < p + n && Slot(q, size) == c;
      SlotStep(p, q - p, size);
    }
  }

  /** Every cell is the cell of exactly one position of a turn. */
  lemma TurnCoversRing(p: nat, size: nat)
    requires size > 0
    ensures Cells(p, p + size, size) == Range(0, size)
  {
    forall c | c in Range(0, size) ensures c in Cells(p, p + size, size) {
      var s := Slot(p, size);
      var d := if s <= c then c - s else c + size - s;
      SlotStep(p, d, size);
      assert Slot(p + d, size) == c;
    }
  }

  /** Four consecutive stretches and one further position that together make up a turn. */
  lemma TurnInFive(a: nat, b: nat, c: nat, d: nat, e: nat, n: nat)
    requires a <= b <= c <= d <= e == a + n - 1
    ensures Cells(a, b, n) !! Cells(b, c, n) !! Cells(c, d, n) !! Cells(d, e, n) !! {Slot(e, n)}
    ensures Cells(a, b, n) + Cells(b, c, n) + Cells(c, d, n) + Cells(d, e, n) + {Slot(e, n)} == Range(0, n)
  {
    assert Cells(e, e + 1, n) == {Slot(e, n)};
    CellsSplit(a, b, c, n);
    CellsSplit(a, c, d, n);
    CellsSplit(a, d, e, n);
    CellsSplit(a, e, e + 1, n);
    CellsDisjoint(a, b, b, c, n);
    CellsDisjoint(a, c, c, d, n);
    CellsDisjoint(a, d, d, e, n);
    CellsDisjoint(a, e, e, e + 1, n);
    TurnCoversRing(a, n);
  }

  /** Locked-read, readable, locked-write and writable cells are pairwise disjoint and leave out
      exactly one cell of the ring. */
  lemma FourWaySplit(f: State)
    requires Shape(f)
    ensures var lockedRead := Cells(f.rb, f.re, f.size);
            var readable := Cells(f.re, f.wb, f.size);
            var lockedWrite := Cells(f.wb, f.we, f.size);
            var writable := Cells(f.we, f.rb + f.size - 1, f.size);
            var free := Slot(f.rb + f.size - 1, f.size);
            && lockedRead !! readable !! lockedWrite !! writable !! {free}
            && lockedRead + readable + lockedWrite + writable + {free} == Range(0, f.size)
  {
    TurnInFive(f.rb, f.re, f.wb, f.we, f.rb + f.size - 1, f.size);
  }

  /** They are as many as the corresponding byte counts, which sum to one less than the ring. */
  lemma FourWayCount(f: State)
    requires Shape(f)
    ensures |Cells(f.rb, f.re, f.size)| == Sum(f.readSizes)
    ensures |Cells(f.re, f.wb, f.size)| == f.ReadAvail()
    ensures |Cells(f.wb, f.we, f.size)| == Sum(f.writeSizes)
    ensures |Cells(f.we, f.rb + f.size - 1, f.size)| == f.WriteAvail()
    ensures Sum(f.readSizes) + f.ReadAvail() + Sum(f.writeSizes) + f.WriteAvail() == f.size - 1
  {
    CellCount(f.rb, f.re, f.size);
    CellCount(f.re, f.wb, f.size);
    CellCount(f.wb, f.we, f.size);
    CellCount(f.we, f.rb + f.size - 1, f.size);
  }

  lemma CellsSplit(a: nat, b: nat, c: nat, n: nat)
    requires n > 0 && a <= b <= c
    ensures Cells(a, c, n) == Cells(a, b, n) + Cells(b, c, n)
  {
  }

  /** The sizes of the regions before `i` and of region `i` fit in front of the end. */
  lemma PrefixFits(sizes: seq<nat>, i: nat)
    requires i < |sizes|
    ensures Sum(sizes[..i]) + sizes[i] <= Sum(sizes)
    ensures Sum(sizes[..i + 1]) == Sum(sizes[..i]) + sizes[i]
  {
    SumSplit(sizes, i);
    SumSplit(sizes[..i + 1], i);
    assert sizes[..i + 1][..i] == sizes[..i];
  }

  lemma {:induction false} PrefixMonotone(sizes: seq<nat>, i: nat, j: nat)
    requires i <= j <= |sizes|
    ensures Sum(sizes[..i]) <= Sum(sizes[..j])
    decreases j
  {
    if i < j {
      PrefixMonotone(sizes, i, j - 1);
      PrefixFits(sizes, j - 1);
    }
  }

  /** The regions share no cell. */
  ghost predicate Apart(r: Region, s: Region) {
    RegionCells(r) !! RegionCells(s)
  }

  lemma ApartInTurn(p: nat, m: nat, q: nat, n: nat, size: nat)
    requires size > 0 && p + m <= q && q + n <= p + size
    ensures Apart(RegionAt(p, m, size), RegionAt(q, n, size))
  {
    RegionCovers(p, m, size);
    RegionCovers(q, n, size);
    CellsDisjoint(p, p + m, q, q + n, size);
  }

  /** Regions of the given sizes, laid end to end from position `begin`, share no cell. */
  lemma RegionsDisjoint(begin: nat, sizes: seq<nat>, i: nat, j: nat, p: nat, q: nat, size: nat)
    requires size > 0 && Sum(sizes) < size && i < j < |sizes|
    requires p == begin + Sum(sizes[..i]) && q == begin + Sum(sizes[..j])
    ensures Apart(RegionAt(p, sizes[i], size), RegionAt(q, sizes[j], size))
  {
    assert p + sizes[i] <= q && q + sizes[j] <= p + size by {
      PrefixMonotone(sizes, i + 1, j);
      PrefixFits(sizes, i);
      PrefixFits(sizes, j);
    }
    ApartInTurn(p, sizes[i], q, sizes[j], size);
  }

  /** The outstanding read regions follow one another without gap from the beginning of the locked
      read region to its end, each covering the cells of its stretch. */
  lemma ReadRegionsTile(f: State, i: nat, p: nat)
    requires Shape(f) && i < |f.readSizes| && p == ReadStart(f, i)
    ensures RegionCells(RegionAt(p, f.readSizes[i], f.size)) == Cells(p, p + f.readSizes[i], f.size)
    ensures p == if i == 0 then f.rb else ReadStart(f, i - 1) + f.readSizes[i - 1]
    ensures i == |f.readSizes| - 1 ==> p + f.readSizes[i] == f.re
  {
    PrefixFits(f.readSizes, i);
    RegionCovers(p, f.readSizes[i], f.size);
    if i > 0 {
      PrefixFits(f.readSizes, i - 1);
    }
    assert f.readSizes[..|f.readSizes|] == f.readSizes;
  }

  /** The same for the outstanding write regions. */
  lemma WriteRegionsTile(f: State, i: nat, p: nat)
    requires Shape(f) && i < |f.writeSizes| && p == WriteStart(f, i)
    ensures RegionCells(RegionAt(p, f.writeSizes[i], f.size)) == Cells(p, p + f.writeSizes[i], f.size)
    ensures p == if i == 0 then f.wb else WriteStart(f, i - 1) + f.writeSizes[i - 1]
    ensures i == |f.writeSizes| - 1 ==> p + f.writeSizes[i] == f.we
  {
    PrefixFits(f.writeSizes, i);
    RegionCovers(p, f.writeSizes[i], f.size);
    if i > 0 {
      PrefixFits(f.writeSizes, i - 1);
    }
    assert f.writeSizes[..|f.writeSizes|] == f.writeSizes;
  }

  /** No two outstanding regions share a cell, on the same side or across sides. */
  lemma OutstandingApart(f: State, i: nat, j: nat)
    requires Shape(f)
    ensures i < j < |f.readSizes| ==> Apart(ReadRegion(f, i), ReadRegion(f, j))
    ensures i < j < |f.writeSizes| ==> Apart(WriteRegion(f, i), WriteRegion(f, j))
    ensures i < |f.readSizes| && j < |f.writeSizes| ==> Apart(ReadRegion(f, i), WriteRegion(f, j))
  {
    if i < j < |f.readSizes| {
      RegionsDisjoint(f.rb, f.readSizes, i, j, ReadStart(f, i), ReadStart(f, j), f.size);
    }
    if i < j < |f.writeSizes| {
      RegionsDisjoint(f.wb, f.writeSizes, i, j, WriteStart(f, i), WriteStart(f, j), f.size);
    }
    if i < |f.readSizes| && j < |f.writeSizes| {
      assert ReadStart(f, i) + f.readSizes[i] <= f.re by { PrefixFits(f.readSizes, i); }
      assert WriteStart(f, j) + f.writeSizes[j] <= f.we by { PrefixFits(f.writeSizes, j); }
      ApartInTurn(ReadStart(f, i), f.readSizes[i], WriteStart(f, j), f.writeSizes[j], f.size);
    }
  }

  /** Of the outstanding regions, the order check accepts exactly those that only empty regions
      precede: with no empty region outstanding, the oldest one and no other. */
  lemma UnlockOrderExact(begin: nat, sizes: seq<nat>, i: nat, size: nat)
    requires size > 0 && Sum(sizes) < size && i < |sizes|
    ensures Accepts(Slot(begin, size), RegionAt(begin + Sum(sizes[..i]), sizes[i], size), size)
            <==> Oldest(sizes, i)
    ensures Slot(begin, size) == Slot(begin + Sum(sizes[..i]), size) <==> Oldest(sizes, i)
    ensures Oldest(sizes, i) ==> Sum(sizes[..i]) == 0
    ensures sizes[i] < size
    ensures (forall j | 0 <= j < |sizes| :: sizes[j] > 0) ==> (Oldest(sizes, i) <==> i == 0)
  {
    var d := Sum(sizes[..i]);
    PrefixFits(sizes, i);
    SumZero(sizes[..i]);
    assert forall j | 0 <= j < i :: sizes[..i][j] == sizes[j];
    assert d == 0 <==> Oldest(sizes, i);
    if d > 0 {
      SlotDistinct(begin, begin + d, size);
    } else {
      assert Slot(size, size) == 0;
    }
  }

  lemma ReadUnlockExact(f: State, i: nat)
    requires Inv(f) && i < |f.readSizes|
    ensures Accepts(Slot(f.rb, f.size), ReadRegion(f, i), f.size) <==> Oldest(f.readSizes, i)
    ensures (forall j | 0 <= j < |f.readSizes| :: f.readSizes[j] > 0) ==> (Oldest(f.readSizes, i) <==> i == 0)
    ensures !Oldest(f.readSizes, i) ==> UnlockRead(f, i) == f
  {
    UnlockOrderExact(f.rb, f.readSizes, i, f.size);
  }

  lemma WriteUnlockExact(f: State, i: nat)
    requires Inv(f) && i < |f.writeSizes|
    ensures Accepts(Slot(f.wb, f.size), WriteRegion(f, i), f.size) <==> Oldest(f.writeSizes, i)
    ensures (forall j | 0 <= j < |f.writeSizes| :: f.writeSizes[j] > 0) ==> (Oldest(f.writeSizes, i) <==> i == 0)
    ensures !Oldest(f.writeSizes, i) ==> UnlockWrite(f, i) == f
  {
    UnlockOrderExact(f.wb, f.writeSizes, i, f.size);
  }

  /** The index arithmetic of a lock call: the end index moves to the cell behind the region. */
  lemma LockMovesEnd(p: nat, n: nat, size: nat, bits: nat)
    requires size == Pow2(bits) <= HALF_WORD && n < size
    ensures var r := RegionAt(p, n, size);
            Slot(p + n, size) == if r.secondSize != 0 then r.secondSize else And(U32(r.first + r.firstSize), size - 1)
  {
    var r := RegionAt(p, n, size);
    SlotStep(p, n, size);
    MaskWraps(r.first + r.firstSize, bits);
  }

  /** The index arithmetic of an unlock call: with the first piece given back, a region that has a
      second piece is at the start of the ring; with both, the begin index is behind the region. */
  lemma UnlockMovesBegin(p: nat, n: nat, size: nat, bits: nat)
    requires size == Pow2(bits) <= HALF_WORD && n < size
    ensures var r := RegionAt(p, n, size);
            var begin := And(U32(r.first + r.firstSize), size - 1);
            && (r.secondSize != 0 ==> begin == 0)
            && Slot(p + n, size) == begin + r.secondSize
  {
    var r := RegionAt(p, n, size);
    SlotStep(p, n, size);
    MaskWraps(r.first + r.firstSize, bits);
  }

  /** What the checks and the arithmetic of an unlock call come to, for any outstanding region. */
  lemma UnlockArithmetic(begin: nat, sizes: seq<nat>, i: nat, size: nat, bits: nat)
    requires size == Pow2(bits) <= HALF_WORD && Sum(sizes) < size && i < |sizes|
    ensures var r := RegionAt(begin + Sum(sizes[..i]), sizes[i], size);
            var newBegin := And(U32(Slot(begin, size) + r.firstSize), size - 1);
            && (Slot(begin, size) == r.first <==> Oldest(sizes, i))
            && (Oldest(sizes, i) ==>
                  && (r.secondSize != 0 ==> newBegin == 0)
                  && newBegin + r.secondSize == Slot(begin + sizes[i], size))
  {
    UnlockOrderExact(begin, sizes, i, size);
    hide Slot, Sum, And, Pow2, U32, Oldest;
    UnlockMovesBegin(begin, sizes[i], size, bits);
  }

  /** The only outstanding write region, and where its two pieces lie. */
  lemma SoleWriteRegion(f: State, n: nat)
    requires Shape(f) && f.writeSizes == [n]
    ensures f.we == f.wb + n && WriteRegion(f, 0) == RegionAt(f.wb, n, f.size)
  {
    SumOne(n);
  }

  lemma SoleReadRegion(f: State, n: nat)
    requires Shape(f) && f.readSizes == [n]
    ensures f.re == f.rb + n && ReadRegion(f, 0) == RegionAt(f.rb, n, f.size)
  {
    SumOne(n);
  }

  lemma PiecesOf(p: nat, n: nat, size: nat)
    requires 0 < size && n < size
    ensures var r := RegionAt(p, n, size);
            && r.Size() == n
            && r.first == Slot(p, size) && r.first + r.firstSize <= size && r.secondSize <= size
            && (r.secondSize > 0 ==> Slot(p + r.firstSize, size) == 0)
  {
    var r := RegionAt(p, n, size);
    SlotStep(p, r.firstSize, size);
  }

  /** In every state that a new fifo can reach, whatever is done to it: the four parts of the ring are
      as many cells as the sizes and avail values say, and no two outstanding regions share a cell. */
  lemma ReachableLayout(fs: seq<State>, size: nat, k: nat, i: nat, j: nat)
    requires NewRun(fs, size) && k < |fs|
    ensures var f := fs[k];
            && f.size == size
            && Sum(f.readSizes) + f.ReadAvail() + Sum(f.writeSizes) + f.WriteAvail() == size - 1
            && |Cells(f.rb, f.re, size)| == Sum(f.readSizes) && |Cells(f.re, f.wb, size)| == f.ReadAvail()
            && |Cells(f.wb, f.we, size)| == Sum(f.writeSizes)
            && |Cells(f.we, f.rb + size - 1, size)| == f.WriteAvail()
            && (i < j < |f.readSizes| ==> Apart(ReadRegion(f, i), ReadRegion(f, j)))
            && (i < j < |f.writeSizes| ==> Apart(WriteRegion(f, i), WriteRegion(f, j)))
            && (i < |f.readSizes| && j < |f.writeSizes| ==> Apart(ReadRegion(f, i), WriteRegion(f, j)))
  {
    RunKeeps(fs, size, k);
    hide NewRun, Stored, Sum, Cells, Apart, ReadRegion, WriteRegion;
    FourWayCount(fs[k]);
    OutstandingApart(fs[k], i, j);
  }
}
