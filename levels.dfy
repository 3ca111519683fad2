/**
 The per-level formulas of the game: how many tiles a level has, how much
 time it gets, how many points a finished level earns, and the colour a
 tile is drawn in.

 Time is kept exact. The budget is a whole number of half-seconds, and the
 countdown runs in ticks of 50 ms (the period of the game's interval
 timer), ten ticks to the half-second.
 */
module Levels {

  /** Levels are numbered from 1. */
  type Level = l: int | 1 <= l witness 1

  function Min(a: int, b: int): int { if a <= b then a else b }
  function Max(a: int, b: int): int { if a >= b then a else b }

  /** Tiles on the board at level 1, and the most a level ever has. */
  const FirstLevelTiles: nat := 4
  const MaxTiles: nat := 8

  /** Number of tiles at a level: `min(8, 4 + level - 1)`. */
  function TileCount(level: Level): (n: nat)
    ensures FirstLevelTiles <= n <= MaxTiles
  {
    Min(MaxTiles, FirstLevelTiles + level - 1)
  }

  /** Level 1 has four tiles; each later level one more, until eight is reached. */
  lemma TileCountGrowth(level: Level)
    ensures TileCount(1) == FirstLevelTiles
    ensures TileCount(level + 1) == Min(MaxTiles, TileCount(level) + 1)
    ensures level >= 5 ==> TileCount(level) == MaxTiles
    ensures level < 5 ==> TileCount(level) < TileCount(level + 1)
  {
  }

  /** The time-budget constants, in seconds, as the game states them. */
  const BaseTime: real := 10.0
  const MinTime: real := 2.0
  const TimeDecrease: real := 0.5

  /** The time budget of a level in seconds, the game's own formula. */
  function TimeBudgetSeconds(level: Level): (t: real)
    ensures MinTime <= t <= BaseTime
  {
    var t := BaseTime - (level - 1) as real * TimeDecrease;
    if MinTime >= t then MinTime else t
  }

  /** The same budget counted in half-seconds: `max(4, 20 - (level - 1))`. */
  function TimeBudgetHalves(level: Level): (h: nat)
    ensures 4 <= h <= 20
  {
    Max(4, 20 - (level - 1))
  }

  /** The half-second count is exactly the budget in seconds, doubled. */
  lemma HalvesAreExact(level: Level)
    ensures TimeBudgetHalves(level) as real == 2.0 * TimeBudgetSeconds(level)
  {
  }

  /** The budget starts at ten seconds, shrinks with the level and never falls below two. */
  lemma TimeBudgetShrinks(level: Level, later: Level)
    requires level <= later
    ensures TimeBudgetSeconds(1) == BaseTime
    ensures MinTime <= TimeBudgetSeconds(later) <= TimeBudgetSeconds(level)
    ensures TimeBudgetHalves(later) <= TimeBudgetHalves(level)
  {
    HalvesAreExact(level);
    HalvesAreExact(later);
  }

  /** The timer's period (50 ms) in seconds, and the ticks in half a second. */
  const TickSeconds: real := 0.05
  const TicksPerHalf: nat := 10

  /** The time budget of a level in timer ticks. */
  function BudgetTicks(level: Level): (t: nat)
    ensures 40 <= t <= 200
  {
    TimeBudgetHalves(level) * TicksPerHalf
  }

  /** The tick count is exact: that many 50 ms ticks make up the level's budget in seconds. */
  lemma BudgetTicksExact(level: Level)
    ensures BudgetTicks(level) as real * TickSeconds == TimeBudgetSeconds(level)
  {
    HalvesAreExact(level);
  }

  /**
   Points for finishing a level with `ticks` ticks left: `Math.ceil(remainingTime * 10)`
   where the remaining time is `ticks` times 50 ms, that is, half the tick count
   rounded up.
   */
  function Points(ticks: nat): (p: nat)
    ensures ticks <= 2 * p <= ticks + 1
    ensures ticks > 0 ==> p >= 1
  {
    (ticks + 1) / 2
  }

  /** The points are the least whole number at or above ten times the remaining seconds. */
  lemma PointsIsCeiling(ticks: nat)
    ensures (Points(ticks) as real) - 1.0 < ticks as real * TickSeconds * 10.0 <= Points(ticks) as real
  {
  }

  /** Colours of negative, zero and positive tiles. */
  const NegativeColor: string := "#ef4444"
  const ZeroColor: string := "#6b7280"
  const PositiveColor: string := "#3b82f6"

  /** The background colour of a tile, chosen by the sign of its value. */
  function PickColor(value: int): (c: string)
    ensures c == NegativeColor <==> value < 0
    ensures c == ZeroColor <==> value == 0
    ensures c == PositiveColor <==> value > 0
  {
    if value < 0 then NegativeColor
    else if value == 0 then ZeroColor
    else PositiveColor
  }
}
