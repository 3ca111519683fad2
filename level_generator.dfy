/**
 Level generation: distinct values are drawn from the pool until the level
 has enough of them, each value is tagged with its rank in ascending order
 (the order in which it must be clicked), and the tiles are shuffled for
 display.

 The random draws are an input: the sequence of pool indices the random
 number generator would produce. The display shuffle is an input list of
 transpositions; every reordering is a product of transpositions, so the
 list ranges over all possible display orders.
 */
module LevelGenerator {
  import opened NumberPool

  /** A tile: the value it shows and the 0-based position at which it must be clicked. */
  datatype Tile = Tile(value: int, order: int)

  predicate Distinct(s: seq<int>)
  {
    forall i, j :: 0 <= i < j < |s| ==> s[i] != s[j]
  }

  // ---------- Drawing distinct values ----------

  /** The pool values named by a run of draws. */
  function Candidates(draws: seq<PoolIndex>): (c: seq<int>)
    ensures |c| == |draws|
    ensures forall i :: 0 <= i < |draws| ==> Low <= c[i] <= High && c[i] - Low == draws[i]
  {
    seq(|draws|, i requires 0 <= i < |draws| => At(draws[i]))
  }

  lemma CandidatesPrefix(draws: seq<PoolIndex>, k: nat)
    requires k < |draws|
    ensures Candidates(draws[..k + 1]) == Candidates(draws[..k]) + [At(draws[k])]
    ensures Candidates(draws[..k]) == Candidates(draws)[..k]
  {
  }

  /**
   The distinct values of `s` in order of first appearance: what a JavaScript
   `Set` holds, and the order `Array.from` lists it in, after adding the
   elements of `s` one by one.
   */
  function Dedup(s: seq<int>): (d: seq<int>)
    ensures |d| <= |s|
  {
    if s == [] then []
    else
      var d := Dedup(s[..|s| - 1]);
      var v := s[|s| - 1];
      if v in d then d else d + [v]
  }

  /** A Set holds each value once, and exactly the values added to it. */
  lemma {:induction false} DedupContents(s: seq<int>)
    ensures Distinct(Dedup(s))
    ensures forall v :: v in Dedup(s) <==> v in s
  {
    if s != [] {
      var t := s[..|s| - 1];
      DedupContents(t);
      assert s == t + [s[|s| - 1]];
    }
  }

  /** Adding one more element to a Set appends it unless it is already there. */
  lemma DedupSnoc(s: seq<int>, v: int)
    ensures Dedup(s + [v]) == if v in Dedup(s) then Dedup(s) else Dedup(s) + [v]
  {
    assert (s + [v])[..|s + [v]| - 1] == s;
  }

  /** Adding more elements to a Set never reorders or drops what it already holds. */
  lemma {:induction false} DedupPrefix(s: seq<int>, k: nat)
    requires k <= |s|
    ensures Dedup(s[..k]) <= Dedup(s)
    decreases |s| - k
  {
    if k < |s| {
      var t := s[..|s| - 1];
      assert t[..k] == s[..k];
      DedupPrefix(t, k);
      assert Dedup(t) <= Dedup(s);
    } else {
      assert s[..k] == s;
    }
  }

  /**
   The values of a level of `count` tiles: the first `count` distinct values
   the draws produce. Defined for draws that hold that many distinct values.
   */
  function GeneratedValues(count: nat, draws: seq<PoolIndex>): (g: seq<int>)
    requires count <= |Dedup(Candidates(draws))|
    ensures |g| == count
  {
    Dedup(Candidates(draws))[..count]
  }

  /** The size of the set after the first `k` draws. */
  function Filled(draws: seq<PoolIndex>, k: nat): nat
    requires k <= |draws|
  {
    |Dedup(Candidates(draws[..k]))|
  }

  /** One more draw adds its pool value to the set unless the set already holds it. */
  lemma DrawStep(draws: seq<PoolIndex>, k: nat)
    requires k < |draws|
    ensures Dedup(Candidates(draws[..k + 1])) ==
      var d := Dedup(Candidates(draws[..k]));
      if At(draws[k]) in d then d else d + [At(draws[k])]
  {
    CandidatesPrefix(draws, k);
    DedupSnoc(Candidates(draws[..k]), At(draws[k]));
  }

  /** Once the set holds `count` values, they are the first `count` distinct values of all draws. */
  lemma DrawDone(draws: seq<PoolIndex>, k: nat, count: nat)
    requires k <= |draws| && count <= |Dedup(Candidates(draws))|
    requires Filled(draws, k) == count
    ensures Dedup(Candidates(draws[..k])) == GeneratedValues(count, draws)
  {
    if k < |draws| {
      CandidatesPrefix(draws, k);
    } else {
      assert draws[..k] == draws;
    }
    DedupPrefix(Candidates(draws), k);
  }

  /**
   The drawing loop: adds the pool value of each draw to a set until the set
   holds `count` values. Returns the values in insertion order and the number
   of draws consumed; the loop stops at the first moment the set is full.
   */
  method DrawValues(count: nat, draws: seq<PoolIndex>) returns (values: seq<int>, used: nat)
    requires count <= |Dedup(Candidates(draws))|
    ensures values == GeneratedValues(count, draws)
    ensures used <= |draws| && values == Dedup(Candidates(draws[..used]))
    ensures forall k :: 0 <= k < used ==> Filled(draws, k) < count
  {
    values, used := [], 0;
    assert draws[..|draws|] == draws;
    while |values| < count
      invariant used <= |draws|
      invariant values == Dedup(Candidates(draws[..used]))
      invariant |values| <= count
      invariant forall k :: 0 <= k < used ==> Filled(draws, k) < count
      decreases |draws| - used
    {
      if used == |draws| {
        // All draws are used, yet the set is short of `count` values.
        assert false;
      }
      ghost var before := used;
      var v := At(draws[used]);
      DrawStep(draws, used);
      if v !in values {
        values := values + [v];
      }
      used := used + 1;
      forall k | 0 <= k < used
        ensures Filled(draws, k) < count
      {
        if k < before {
          assert Filled(draws, k) < count;
        }
      }
    }
    DrawDone(draws, used, count);
  }

  /** Generated values are `count` distinct members of the pool. */
  lemma GeneratedValuesShape(count: nat, draws: seq<PoolIndex>)
    requires count <= |Dedup(Candidates(draws))|
    ensures |GeneratedValues(count, draws)| == count
    ensures Distinct(GeneratedValues(count, draws))
    ensures forall v :: v in GeneratedValues(count, draws) ==> Low <= v <= High
  {
    var d := Dedup(Candidates(draws));
    DedupContents(Candidates(draws));
    var g := GeneratedValues(count, draws);
    forall v | v in g
      ensures Low <= v <= High
    {
      assert v in d;
      var i :| 0 <= i < |draws| && Candidates(draws)[i] == v;
    }
  }

  // ---------- Ranking ----------

  predicate Sorted(s: seq<int>)
  {
    forall i, j :: 0 <= i < j < |s| ==> s[i] <= s[j]
  }

  predicate StrictlySorted(s: seq<int>)
  {
    forall i, j :: 0 <= i < j < |s| ==> s[i] < s[j]
  }

  /** Inserts `x` before the first element not below it: into its place in an ascending sequence. */
  function Insert(x: int, s: seq<int>): (r: seq<int>)
    ensures |r| == |s| + 1
    ensures multiset(r) == multiset(s) + multiset{x}
    ensures forall v :: v in r <==> v == x || v in s
  {
    if s == [] then [x]
    else if x <= s[0] then [x] + s
    else
      assert s == [s[0]] + s[1..];
      [s[0]] + Insert(x, s[1..])
  }

  /** A value at or below every element of an ascending sequence may go in front of it. */
  lemma ConsSorted(a: int, rest: seq<int>)
    requires Sorted(rest)
    requires forall v :: v in rest ==> a <= v
    ensures Sorted([a] + rest)
  {
    var r := [a] + rest;
    forall i, j | 0 <= i < j < |r|
      ensures r[i] <= r[j]
    {
      assert r[j] == rest[j - 1] && rest[j - 1] in rest;
      if i > 0 {
        assert r[i] == rest[i - 1];
      }
    }
  }

  /** Insertion keeps a sequence ascending. */
  lemma {:induction false} InsertSorted(x: int, s: seq<int>)
    requires Sorted(s)
    ensures Sorted(Insert(x, s))
  {
    if s != [] && x > s[0] {
      var tail := s[1..];
      assert s == [s[0]] + tail;
      InsertSorted(x, tail);
      forall v | v in tail
        ensures s[0] <= v
      {
        var k :| 0 <= k < |tail| && tail[k] == v;
        assert s[k + 1] == v;
      }
      ConsSorted(s[0], Insert(x, tail));
    }
  }

  /** The ascending copy of the level's values, `[...values].sort((a, b) => a - b)`. */
  function Sort(s: seq<int>): (r: seq<int>)
    ensures Sorted(r)
    ensures multiset(r) == multiset(s)
    ensures forall v :: v in r <==> v in s
    ensures |r| == |s|
  {
    if s == [] then []
    else
      assert s == [s[0]] + s[1..];
      InsertSorted(s[0], Sort(s[1..]));
      Insert(s[0], Sort(s[1..]))
  }

  /** A value below every element of a strictly ascending sequence may go in front of it. */
  lemma ConsStrict(a: int, rest: seq<int>)
    requires StrictlySorted(rest)
    requires forall v :: v in rest ==> a < v
    ensures StrictlySorted([a] + rest)
  {
    var r := [a] + rest;
    forall i, j | 0 <= i < j < |r|
      ensures r[i] < r[j]
    {
      assert r[j] == rest[j - 1] && rest[j - 1] in rest;
      if i > 0 {
        assert r[i] == rest[i - 1];
      }
    }
  }

  /** Inserting a new value into a strictly ascending sequence keeps it strictly ascending. */
  lemma {:induction false} InsertStrict(x: int, s: seq<int>)
    requires StrictlySorted(s) && x !in s
    ensures StrictlySorted(Insert(x, s))
  {
    if s != [] && x > s[0] {
      assert s == [s[0]] + s[1..];
      InsertStrict(x, s[1..]);
      var rest := Insert(x, s[1..]);
      forall v | v in rest
        ensures s[0] < v
      {
        if v != x {
          var k :| 0 <= k < |s[1..]| && s[1..][k] == v;
          assert s[0] < s[k + 1];
        }
      }
      ConsStrict(s[0], rest);
    } else if s != [] {
      ConsStrict(x, s);
    }
  }

  /** Sorting distinct values gives a strictly ascending sequence. */
  lemma {:induction false} SortStrict(s: seq<int>)
    requires Distinct(s)
    ensures StrictlySorted(Sort(s))
  {
    if s != [] {
      assert s == [s[0]] + s[1..];
      assert Distinct(s[1..]);
      SortStrict(s[1..]);
      assert s[0] !in s[1..];
      InsertStrict(s[0], Sort(s[1..]));
    }
  }

  /** `Array.prototype.indexOf`: the first position of `v` in `s`, or -1. */
  function IndexOf(s: seq<int>, v: int): (i: int)
    ensures -1 <= i < |s|
    ensures i == -1 <==> v !in s
    ensures 0 <= i ==> s[i] == v && v !in s[..i]
  {
    if s == [] then -1
    else if s[0] == v then 0
    else
      var k := IndexOf(s[1..], v);
      if k == -1 then -1
      else
        assert s[..k + 1] == [s[0]] + s[1..][..k];
        k + 1
  }

  /** In a strictly ascending sequence, the element at position k is found at k. */
  lemma IndexOfStrict(s: seq<int>, k: nat)
    requires StrictlySorted(s) && k < |s|
    ensures IndexOf(s, s[k]) == k
  {
  }

  /** Tags each value with its position in the ascending order, in the values' own order. */
  function Ranked(values: seq<int>): (tiles: seq<Tile>)
    ensures |tiles| == |values|
    ensures forall i :: 0 <= i < |values| ==> tiles[i].value == values[i]
  {
    var sorted := Sort(values);
    seq(|values|, i requires 0 <= i < |values| => Tile(values[i], IndexOf(sorted, values[i])))
  }

  /** The values of `s` strictly below `v`. */
  function Below(s: seq<int>, v: int): set<int>
  {
    set w | w in s && w < v
  }

  lemma {:induction false} DistinctCard(s: seq<int>)
    requires Distinct(s)
    ensures |set w | w in s| == |s|
  {
    if s != [] {
      var t := s[..|s| - 1];
      assert Distinct(t);
      DistinctCard(t);
      assert s == t + [s[|s| - 1]];
      assert (set w | w in s) == (set w | w in t) + {s[|s| - 1]};
      assert s[|s| - 1] !in t;
    }
  }

  /**
   For distinct values, a tile's order is the number of the level's values
   strictly smaller than its own.
   */
  lemma RankCountsSmaller(values: seq<int>, i: nat)
    requires Distinct(values) && i < |values|
    ensures Ranked(values)[i].order == |Below(values, values[i])|
  {
    var sorted := Sort(values);
    SortStrict(values);
    var v := values[i];
    var k := IndexOf(sorted, v);
    assert v in sorted;
    assert sorted[k] == v;
    var prefix := sorted[..k];
    assert Distinct(prefix);
    DistinctCard(prefix);
    forall w
      ensures w in Below(values, v) <==> w in prefix
    {
      if w in prefix {
        var j :| 0 <= j < k && sorted[j] == w;
        assert w < v;
      }
      if w in values && w < v {
        assert w in sorted;
        var j :| 0 <= j < |sorted| && sorted[j] == w;
        assert j < k;
        assert w == prefix[j];
      }
    }
    assert Below(values, v) == set w | w in prefix;
  }

  /**
   The tiles of a level of `n` tiles: distinct pool values, whose orders are a
   permutation of 0..n-1 that follows the values' ascending order.
   */
  ghost predicate WellFormedLevel(tiles: seq<Tile>, n: nat)
  {
    && |tiles| == n
    && (forall i :: 0 <= i < n ==> Low <= tiles[i].value <= High && 0 <= tiles[i].order < n)
    && (forall i, j :: 0 <= i < j < n ==> tiles[i].value != tiles[j].value)
    && (forall i, j :: 0 <= i < n && 0 <= j < n ==>
          (tiles[i].value < tiles[j].value <==> tiles[i].order < tiles[j].order))
    && (forall k :: 0 <= k < n ==> HasOrder(tiles, k))
  }

  /** Some tile carries order `k`. */
  ghost predicate HasOrder(tiles: seq<Tile>, k: int)
  {
    exists i :: 0 <= i < |tiles| && tiles[i].order == k
  }

  /** In a well-formed level no two tiles share an order. */
  lemma OrdersDistinct(tiles: seq<Tile>, n: nat, i: nat, j: nat)
    requires WellFormedLevel(tiles, n) && i < n && j < n && i != j
    ensures tiles[i].order != tiles[j].order
  {
    if i < j {
      assert tiles[i].value != tiles[j].value;
    } else {
      assert tiles[j].value != tiles[i].value;
    }
  }

  /** The order given to the value at position `i` is where that value sits in the ascending copy. */
  lemma RankAt(values: seq<int>, i: nat)
    requires i < |values|
    ensures 0 <= Ranked(values)[i].order < |values|
    ensures Sort(values)[Ranked(values)[i].order] == values[i]
  {
    assert values[i] in Sort(values);
  }

  /** Ranked tiles keep their values and get orders below the tile count. */
  lemma RankedBounds(values: seq<int>)
    requires forall v :: v in values ==> Low <= v <= High
    ensures forall i :: 0 <= i < |values| ==>
      Low <= Ranked(values)[i].value <= High && 0 <= Ranked(values)[i].order < |values|
  {
    forall i | 0 <= i < |values|
      ensures Low <= Ranked(values)[i].value <= High && 0 <= Ranked(values)[i].order < |values|
    {
      RankAt(values, i);
      assert values[i] in values;
    }
  }

  /** Of two ranked tiles, the smaller value has the smaller order. */
  lemma RankedFollowsValues(values: seq<int>)
    requires Distinct(values)
    ensures forall i, j :: 0 <= i < |values| && 0 <= j < |values| ==>
      (Ranked(values)[i].value < Ranked(values)[j].value <==> Ranked(values)[i].order < Ranked(values)[j].order)
  {
    var sorted := Sort(values);
    SortStrict(values);
    var tiles := Ranked(values);
    forall i, j | 0 <= i < |values| && 0 <= j < |values|
      ensures tiles[i].value < tiles[j].value <==> tiles[i].order < tiles[j].order
    {
      RankAt(values, i);
      RankAt(values, j);
      var a, b := tiles[i].order, tiles[j].order;
      if a < b {
        assert sorted[a] < sorted[b];
      } else if b < a {
        assert sorted[b] < sorted[a];
      }
    }
  }

  /** Every order from 0 to the tile count less one is given to some ranked tile. */
  lemma RankedCoversOrders(values: seq<int>)
    requires Distinct(values)
    ensures forall k :: 0 <= k < |values| ==> HasOrder(Ranked(values), k)
  {
    var sorted := Sort(values);
    SortStrict(values);
    var tiles := Ranked(values);
    forall k | 0 <= k < |values|
      ensures HasOrder(tiles, k)
    {
      assert sorted[k] in values;
      var i :| 0 <= i < |values| && values[i] == sorted[k];
      IndexOfStrict(sorted, k);
      assert tiles[i].order == k;
    }
  }

  /** Ranking distinct pool values gives a well-formed level. */
  lemma RankedWellFormed(values: seq<int>)
    requires Distinct(values)
    requires forall v :: v in values ==> Low <= v <= High
    ensures WellFormedLevel(Ranked(values), |values|)
  {
    RankedBounds(values);
    RankedFollowsValues(values);
    RankedCoversOrders(values);
  }

  // ---------- Display shuffle ----------

  /** One exchange of two display positions. */
  datatype Swap = Swap(a: nat, b: nat)

  predicate SwapsWithin(swaps: seq<Swap>, n: nat)
  {
    forall k :: 0 <= k < |swaps| ==> swaps[k].a < n && swaps[k].b < n
  }

  function Exchange(tiles: seq<Tile>, a: nat, b: nat): (r: seq<Tile>)
    requires a < |tiles| && b < |tiles|
    ensures |r| == |tiles|
    ensures multiset(r) == multiset(tiles)
  {
    tiles[a := tiles[b]][b := tiles[a]]
  }

  /** The display order: the tiles with the given exchanges applied in turn. */
  function Shuffle(tiles: seq<Tile>, swaps: seq<Swap>): (r: seq<Tile>)
    requires SwapsWithin(swaps, |tiles|)
    ensures |r| == |tiles|
    ensures multiset(r) == multiset(tiles)
    decreases |swaps|
  {
    if swaps == [] then tiles
    else Shuffle(Exchange(tiles, swaps[0].a, swaps[0].b), swaps[1..])
  }

  /** Exchanging two tiles keeps a level well-formed. */
  lemma ExchangeKeepsLevel(tiles: seq<Tile>, n: nat, a: nat, b: nat)
    requires WellFormedLevel(tiles, n) && a < n && b < n
    ensures WellFormedLevel(Exchange(tiles, a, b), n)
  {
    var r := Exchange(tiles, a, b);
    forall i | 0 <= i < n
      ensures r[i] == tiles[if i == a then b else if i == b then a else i]
    {
    }
    forall i, j | 0 <= i < j < n
      ensures r[i].value != r[j].value
    {
      var x := if i == a then b else if i == b then a else i;
      var y := if j == a then b else if j == b then a else j;
      if x < y {
        assert tiles[x].value != tiles[y].value;
      } else {
        assert tiles[y].value != tiles[x].value;
      }
    }
    forall i, j | 0 <= i < n && 0 <= j < n
      ensures r[i].value < r[j].value <==> r[i].order < r[j].order
    {
      var x := if i == a then b else if i == b then a else i;
      var y := if j == a then b else if j == b then a else j;
      assert tiles[x].value < tiles[y].value <==> tiles[x].order < tiles[y].order;
    }
    forall k | 0 <= k < n
      ensures HasOrder(r, k)
    {
      assert HasOrder(tiles, k);
      var i :| 0 <= i < n && tiles[i].order == k;
      var x := if i == a then b else if i == b then a else i;
      assert r[x].order == k;
    }
  }

  /** The display shuffle keeps a level well-formed. */
  lemma {:induction false} ShuffleKeepsLevel(tiles: seq<Tile>, n: nat, swaps: seq<Swap>)
    requires WellFormedLevel(tiles, n) && SwapsWithin(swaps, n)
    ensures WellFormedLevel(Shuffle(tiles, swaps), n)
    decreases |swaps|
  {
    if swaps != [] {
      ExchangeKeepsLevel(tiles, n, swaps[0].a, swaps[0].b);
      ShuffleKeepsLevel(Exchange(tiles, swaps[0].a, swaps[0].b), n, swaps[1..]);
    }
  }

  /** The tiles of a level of `count` tiles, before the display shuffle. */
  function LevelTiles(count: nat, draws: seq<PoolIndex>): (t: seq<Tile>)
    requires count <= |Dedup(Candidates(draws))|
    ensures |t| == count
  {
    Ranked(GeneratedValues(count, draws))
  }

  /** Every generated level, in every display order, is well-formed. */
  lemma LevelWellFormed(count: nat, draws: seq<PoolIndex>, swaps: seq<Swap>)
    requires count <= |Dedup(Candidates(draws))|
    requires SwapsWithin(swaps, count)
    ensures WellFormedLevel(Shuffle(LevelTiles(count, draws), swaps), count)
  {
    GeneratedValuesShape(count, draws);
    RankedWellFormed(GeneratedValues(count, draws));
    ShuffleKeepsLevel(LevelTiles(count, draws), count, swaps);
  }
}
