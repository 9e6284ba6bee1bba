/** The pool of reusable transfers of a stream: search, creation, and how large it can get. */
module PoolModel {
  import opened Ring
  import opened FifoModel

  /** A transfer. `data` is its embedded buffer of `capacity` bytes and `lens` its packet lengths;
      `start` is the stream position of its region, which the implementation does not store. */
  datatype Xfer = Xfer(active: bool, capacity: nat, region: Region, data: seq<Byte>, lens: seq<nat>, start: nat)

  /** The index of the first transfer that is free and large enough, or the length of the list. */
  function Vacant(pool: seq<Xfer>, required: nat): (i: nat)
    ensures i <= |pool|
    ensures i < |pool| ==> !pool[i].active && pool[i].capacity >= required
    ensures forall j | 0 <= j < i :: pool[j].active || pool[j].capacity < required
  {
    if pool == [] then 0
    else if !pool[0].active && pool[0].capacity >= required then 0
    else
      var i := Vacant(pool[1..], required);
      assert forall j | 0 < j < i + 1 :: pool[j] == pool[1..][j - 1];
      i + 1
  }

  /** Bytes that a transfer must be able to hold itself: all of a split region, else none. */
  function Required(r: Region): nat {
    if r.secondSize != 0 then r.Size() else 0
  }

  function CountActive(pool: seq<Xfer>): nat {
    if pool == [] then 0 else (if pool[0].active then 1 else 0) + CountActive(pool[1..])
  }

  /** The number of transfers with an embedded buffer of exactly `c` bytes. */
  function CountOf(pool: seq<Xfer>, c: nat): nat {
    if pool == [] then 0 else (if pool[0].capacity == c then 1 else 0) + CountOf(pool[1..], c)
  }

  function CountBelow(pool: seq<Xfer>, c: nat): nat {
    if pool == [] then 0 else (if pool[0].capacity < c then 1 else 0) + CountBelow(pool[1..], c)
  }

  /** At most `k` transfers of every capacity, none of capacity `size` or more. */
  ghost predicate Bounded(pool: seq<Xfer>, size: nat, k: nat) {
    && (forall c: nat :: CountOf(pool, c) <= k)
    && (forall i | 0 <= i < |pool| :: pool[i].capacity < size)
  }

  lemma {:induction false} CountActiveUpdate(pool: seq<Xfer>, i: nat, x: Xfer)
    requires i < |pool|
    ensures CountActive(pool[i := x]) + (if pool[i].active then 1 else 0)
            == CountActive(pool) + (if x.active then 1 else 0)
  {
    if i > 0 {
      CountActiveUpdate(pool[1..], i - 1, x);
      assert pool[i := x][1..] == pool[1..][i - 1 := x];
    } else {
      assert pool[i := x][1..] == pool[1..];
    }
  }

  lemma {:induction false} CountActiveAppend(pool: seq<Xfer>, x: Xfer)
    ensures CountActive(pool + [x]) == CountActive(pool) + if x.active then 1 else 0
  {
    if pool != [] {
      CountActiveAppend(pool[1..], x);
      assert (pool + [x])[1..] == pool[1..] + [x];
    } else {
      assert ([x])[1..] == [] && [] + [x] == [x];
    }
  }

  lemma {:induction false} CountOfUpdate(pool: seq<Xfer>, i: nat, x: Xfer, c: nat)
    requires i < |pool| && x.capacity == pool[i].capacity
    ensures CountOf(pool[i := x], c) == CountOf(pool, c)
  {
    if i > 0 {
      CountOfUpdate(pool[1..], i - 1, x, c);
      assert pool[i := x][1..] == pool[1..][i - 1 := x];
    } else {
      assert pool[i := x][1..] == pool[1..];
    }
  }

  lemma {:induction false} CountOfAppend(pool: seq<Xfer>, x: Xfer, c: nat)
    ensures CountOf(pool + [x], c) == CountOf(pool, c) + if x.capacity == c then 1 else 0
  {
    if pool != [] {
      CountOfAppend(pool[1..], x, c);
      assert (pool + [x])[1..] == pool[1..] + [x];
    } else {
      assert ([x])[1..] == [] && [] + [x] == [x];
    }
  }

  /** If every transfer of a capacity is in use, there are no more of them than transfers in use. */
  lemma {:induction false} CountOfActive(pool: seq<Xfer>, c: nat)
    requires forall i | 0 <= i < |pool| :: pool[i].capacity == c ==> pool[i].active
    ensures CountOf(pool, c) <= CountActive(pool)
  {
    if pool != [] {
      assert forall i | 0 <= i < |pool| - 1 :: pool[1..][i] == pool[i + 1];
      CountOfActive(pool[1..], c);
    }
  }

  lemma {:induction false} CountBelowStep(pool: seq<Xfer>, c: nat)
    ensures CountBelow(pool, c + 1) == CountBelow(pool, c) + CountOf(pool, c)
    ensures CountBelow(pool, 0) == 0
  {
    if pool != [] {
      CountBelowStep(pool[1..], c);
    }
  }

  lemma {:induction false} CountBelowAll(pool: seq<Xfer>, c: nat)
    requires forall i | 0 <= i < |pool| :: pool[i].capacity < c
    ensures CountBelow(pool, c) == |pool|
  {
    if pool != [] {
      assert forall i | 0 <= i < |pool| - 1 :: pool[1..][i] == pool[i + 1];
      CountBelowAll(pool[1..], c);
    }
  }

  lemma {:induction false} CountBelowBound(pool: seq<Xfer>, size: nat, k: nat, c: nat)
    requires Bounded(pool, size, k)
    ensures CountBelow(pool, c) <= k * c
  {
    if c > 0 {
      CountBelowBound(pool, size, k, c - 1);
      CountBelowStep(pool, c - 1);
      assert k * c == k * (c - 1) + k;
    } else {
      CountBelowStep(pool, 0);
    }
  }

  /** A pool with a bounded number of transfers of each capacity is bounded. */
  lemma PoolSize(pool: seq<Xfer>, size: nat, k: nat)
    requires Bounded(pool, size, k)
    ensures |pool| <= k * size
  {
    CountBelowBound(pool, size, k, size);
    CountBelowAll(pool, size);
  }

  /** A transfer taken into use: a vacant one, or else a new one of exactly the required capacity. */
  function Obtain(pool: seq<Xfer>, required: nat): (p: (seq<Xfer>, nat))
    ensures p.1 < |p.0|
  {
    var i := Vacant(pool, required);
    if i < |pool| then (pool, i)
    else (pool + [Xfer(false, required, Region(0, 0, Null, 0), seq(required, _ => 0), [], 0)], |pool|)
  }

  /** Creating a transfer only when no vacant one is large enough keeps the number of transfers of
      each capacity at one more than can be in use at that time. */
  lemma ObtainBounded(pool: seq<Xfer>, required: nat, size: nat, k: nat)
    requires Bounded(pool, size, k) && CountActive(pool) < k && required < size
    ensures var (p, i) := Obtain(pool, required);
            && Bounded(p, size, k) && CountActive(p) == CountActive(pool)
            && pool <= p && !p[i].active && p[i].capacity >= required
  {
    var (p, i) := Obtain(pool, required);
    if Vacant(pool, required) == |pool| {
      var x := p[|pool|];
      CountActiveAppend(pool, x);
      CountOfActive(pool, required);
      forall c: nat ensures CountOf(p, c) <= k {
        CountOfAppend(pool, x, c);
      }
    }
  }
}
