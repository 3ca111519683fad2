/**
 The pool of values a tile can carry: every integer from -99 to 99, in
 ascending order. The game draws tile values from it by index.
 */
module NumberPool {

  /** The smallest and the largest value in the pool. */
  const Low: int := -99
  const High: int := 99

  /** The number of entries in the pool (High - Low + 1). */
  const Size: nat := 199

  /** An index into the pool, as `randomInt(0, NUMBER_POOL.length - 1)` yields. */
  type PoolIndex = i: int | 0 <= i < Size

  /** The pool entry at an index. */
  function At(idx: PoolIndex): (v: int)
    ensures Low <= v <= High
    ensures v - Low == idx
  {
    Low + idx
  }

  /** Builds the pool by pushing Low, Low + 1, ..., High in turn. */
  method BuildPool() returns (pool: seq<int>)
    ensures |pool| == Size
    ensures forall idx: PoolIndex :: pool[idx] == At(idx)
    ensures forall v :: v in pool <==> Low <= v <= High
    ensures forall i, j :: 0 <= i < j < |pool| ==> pool[i] < pool[j]
  {
    pool := [];
    var i := Low;
    while i <= High
      invariant Low <= i <= High + 1
      invariant |pool| == i - Low
      invariant forall k :: 0 <= k < |pool| ==> pool[k] == Low + k
    {
      pool := pool + [i];
      i := i + 1;
    }
    forall v | Low <= v <= High
      ensures v in pool
    {
      assert pool[v - Low] == v;
    }
  }
}
