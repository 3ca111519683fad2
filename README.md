# Numbers — a verified model of the game's core

Numbers is a browser game. Each level places a handful of tiles, each showing a
distinct integer between -99 and 99. The player must click the tiles in
ascending order of value before the level's time budget runs out:
- a click on the wrong tile ends the game;
- clicking all of them in order ends the level, awards points for the time
  left, and moves on to the next level, which has more tiles (up to eight) and
  less time (down to two seconds).

This project models the game's state and its event handlers in Dafny, and
proves what they promise:
- which levels can be generated;
- how a click or a timer tick changes the state;
- that play in order finishes a level after exactly as many clicks as it has
  tiles;
- that every transition keeps the state consistent.

The project has four modules:

- `NumberPool` (`number_pool.dfy`): the pool of tile values -99..99 and the loop
  that builds it.
- `Levels` (`levels.dfy`): the per-level formulas.
  - Tile count: `min(8, 4 + level - 1)`.
  - Time budget: `max(2, 10 - 0.5 * (level - 1))` seconds. It is proved equal to
    an exact count of half-seconds, `max(4, 20 - (level - 1))`, and of 50 ms
    timer ticks.
  - Points for a finished level: the time left in tenths of a second, rounded
    up.
  - Tile colour, chosen by the value's sign.
- `LevelGenerator` (`level_generator.dfy`): `generateNumbers`.
  - The loop draws pool indices until a `Set` holds the level's number of
    distinct values.
  - The values are copied and sorted.
  - Each tile's order is the position of its value in the sorted copy
    (`indexOf`).
  - The tiles are shuffled for display.
- `Game` (`game.dfy`): the session.
  - Each handler (`resetGame`, `startLevel`, the start button, `handleClick`,
    the interval-timer callback, `endLevel`, `endGame`) is a pure step function
    on a `SessionState` value. Those functions are the specification.
  - Class `Session` holds the game's module-level variables as fields. Its
    methods update them in place and promise the state the step functions
    give.

Randomness is an input:
- The random pool indices are a sequence `draws`. A level start requires the
  draws to hold enough distinct values. The game's loop draws until the set is
  full, so a finite input must be long enough for the loop to finish.
- The display shuffle is a sequence of exchanges of two positions. Every
  reordering is a product of such exchanges.

Remaining time is a whole number of 50 ms ticks. This is exact where the game
uses floating point (see "Left out").

## Model

| member | source | states |
|---|---|---|
| NumberPool.At | numbers.js:21-24 | a pool entry is in -99..99 and sits at its distance from -99 |
| NumberPool.BuildPool | numbers.js:21-24 | the loop builds 199 entries, entry `idx` is -99 + idx, a value is in the pool exactly when it is in -99..99, and the pool is strictly ascending |
| Levels.TileCount | numbers.js:69 | a level has between 4 and 8 tiles |
| Levels.TileCountGrowth | numbers.js:69 | level 1 has 4 tiles, each level one more than the last until 8, levels 5 and above have 8, and the count strictly grows below level 5 |
| Levels.TimeBudgetHalves | numbers.js:57 | the budget in half-seconds lies between 4 and 20 |
| Levels.HalvesAreExact | numbers.js:57 | the half-second count is exactly twice the budget in seconds given by the game's formula |
| Levels.TimeBudgetSeconds | numbers.js:57 | the game's own budget formula in seconds lies between 2 and 10; its exact value is pinned by HalvesAreExact and TimeBudgetShrinks |
| Levels.TimeBudgetShrinks | numbers.js:16-18 | the budget is 10 s at level 1, never increases from one level to a later one, and never drops below 2 s |
| Levels.BudgetTicks | numbers.js:57 | a level lasts between 40 and 200 ticks of 50 ms |
| Levels.BudgetTicksExact | numbers.js:152-161 | the tick count times 50 ms is exactly the budget in seconds |
| Levels.Points | numbers.js:170 | the points for `t` ticks left are the least whole number at or above `t/2`, and at least 1 when time is left |
| Levels.PointsIsCeiling | numbers.js:170 | the points are `Math.ceil` of ten times the remaining seconds |
| Levels.PickColor | numbers.js:126-130 | red exactly for negative values, grey exactly for zero, blue exactly for positive values |
| LevelGenerator.Candidates | numbers.js:73-74 | one pool value per draw, in draw order, each in -99..99 and at the drawn index's distance from -99 |
| LevelGenerator.Dedup | numbers.js:70-77 | the insertion-ordered listing of a `Set` is no longer than what was added; its contents and order are given by DedupContents, DedupPrefix and DrawStep |
| LevelGenerator.CandidatesPrefix | numbers.js:72-75 | the values of the first k+1 draws are those of the first k followed by the pool value of draw k |
| LevelGenerator.DedupContents | numbers.js:70-77 | a `Set` listed with `Array.from` holds no value twice and holds exactly the values added to it |
| LevelGenerator.DedupPrefix | numbers.js:72-77 | further additions never reorder or drop what the set already holds |
| LevelGenerator.DrawStep | numbers.js:72-75 | one more draw adds its pool value to the set unless it is already there |
| LevelGenerator.DrawDone | numbers.js:72-77 | once the set holds `count` values, they are the first `count` distinct values the draws produce |
| LevelGenerator.GeneratedValues | numbers.js:68-77 | a level's values number exactly `count`; GeneratedValuesShape adds that they are distinct pool values and DrawValues that the loop produces them |
| LevelGenerator.DrawValues | numbers.js:68-77 | the loop returns the first `count` distinct drawn values in insertion order, consumes only the draws it needs, and stops at the first moment the set is full |
| LevelGenerator.GeneratedValuesShape | numbers.js:68-77 | a level's values are exactly `count` distinct members of -99..99 |
| LevelGenerator.Insert | numbers.js:78 | inserting adds exactly one copy of the new value and nothing else |
| LevelGenerator.ConsSorted | numbers.js:78 | a value at or below every element of an ascending sequence may be put in front of it |
| LevelGenerator.InsertSorted | numbers.js:78 | insertion keeps a sequence ascending |
| LevelGenerator.Sort | numbers.js:78 | the numeric sort returns an ascending permutation of its input |
| LevelGenerator.ConsStrict | numbers.js:78 | a value below every element of a strictly ascending sequence may be put in front of it |
| LevelGenerator.InsertStrict | numbers.js:78 | inserting a new value keeps a sequence strictly ascending |
| LevelGenerator.SortStrict | numbers.js:78 | sorting distinct values gives a strictly ascending sequence |
| LevelGenerator.IndexOf | numbers.js:81 | `indexOf` returns -1 exactly when the value is absent, and otherwise the first position holding it |
| LevelGenerator.IndexOfStrict | numbers.js:81 | in a strictly ascending sequence every element is found at its own position |
| LevelGenerator.Ranked | numbers.js:79-82 | one tile per value, in the values' order, each showing its value |
| LevelGenerator.DistinctCard | numbers.js:77 | distinct values form a set of the same size |
| LevelGenerator.RankCountsSmaller | numbers.js:78-82 | a tile's order is the number of the level's values smaller than its own |
| LevelGenerator.OrdersDistinct | numbers.js:79-82 | no two tiles of a level share an order |
| LevelGenerator.RankAt | numbers.js:78-82 | a tile's order is a position in the sorted copy that holds the tile's value |
| LevelGenerator.RankedBounds | numbers.js:79-82 | ranked tiles keep pool values and get orders from 0 to the tile count less one |
| LevelGenerator.RankedFollowsValues | numbers.js:78-82 | of two tiles, the smaller value has the smaller order, and the converse |
| LevelGenerator.RankedCoversOrders | numbers.js:78-82 | every order from 0 to the tile count less one is carried by some tile |
| LevelGenerator.RankedWellFormed | numbers.js:77-82 | distinct pool values, once ranked, form a well-formed level: orders are a permutation of 0..n-1 following the values |
| LevelGenerator.Exchange | numbers.js:31-33 | exchanging two positions keeps the multiset of tiles |
| LevelGenerator.Shuffle | numbers.js:31-33 | the display shuffle keeps the length and the multiset of tiles |
| LevelGenerator.ExchangeKeepsLevel | numbers.js:31-33 | exchanging two tiles keeps a level well-formed |
| LevelGenerator.ShuffleKeepsLevel | numbers.js:84 | the display shuffle keeps a level well-formed |
| LevelGenerator.LevelTiles | numbers.js:77-82 | a level has exactly `count` tiles before the shuffle; LevelWellFormed proves it well-formed |
| LevelGenerator.LevelWellFormed | numbers.js:68-85 | every generated level, in every display order, is well-formed with the level's tile count |
| Game.ResetStep | numbers.js:44-50 | `resetGame` empties the tiles, zeroes the cursor and stops play, and keeps level, score and time |
| Game.StartLevelStep | numbers.js:53-65 | `startLevel` keeps level and score, starts play at cursor 0 with the level's tile count and full time budget; StartLevelConsistent proves the result consistent |
| Game.StartStep | numbers.js:36-41 | the start button leads to level 1, score 0, play on at cursor 0 with four tiles and level 1's budget |
| Game.EndLevelStep | numbers.js:165-178 | `endLevel` stops play, moves to the next level, never lowers the score and raises it when time was left, and keeps tiles, cursor and time |
| Game.EndGameStep | numbers.js:181-186 | `endGame` stops play and changes nothing else |
| Game.ClickStep | numbers.js:133-149 | a click keeps tiles and time, moves the cursor by at most one, never lowers score or level (raising the level by at most one) and never starts play; ClickOutcomes gives the two outcomes in full |
| Game.TickStep | numbers.js:153-161 | a tick keeps tiles, cursor, level and score, never adds time, and leaves play on only with time left; TicksRunOut gives the whole countdown |
| Game.InitialConsistent | numbers.js:8-14 | the page starts consistent, inactive, at level 1 with no score |
| Game.StartLevelConsistent | numbers.js:53-65 | starting a level gives a consistent state whatever the state before |
| Game.StartLevelState | numbers.js:53-65 | a state with the new tiles, cursor 0, play on, the level's full budget, and level and score untouched is the state `startLevel` leads to, and it is consistent |
| Game.StepsKeepConsistent | numbers.js:133-186 | clicks, ticks, `resetGame`, `endLevel` and `endGame` all keep the state consistent |
| Game.InactiveIgnoresInput | numbers.js:134-154 | while play is stopped, a click and a tick change nothing |
| Game.ClickOutcomes | numbers.js:133-149 | during play, the cursor advances by one exactly when the clicked order is the cursor; reaching the tile count ends the level (play off, level + 1, score + points); a wrong tile stops play and leaves cursor, level and score as they were |
| Game.CursorMonotone | numbers.js:141-161 | a click moves the cursor forward by at most one, and a tick never moves it |
| Game.ResetKeepsProgress | numbers.js:44-50 | `resetGame` clears tiles and cursor and stops play, and never touches the level, score or time |
| Game.NextTile | numbers.js:79-82 | during play exactly one tile carries the cursor's order, and the tiles below its value are exactly those already clicked |
| Game.InOrderPrefix | numbers.js:137-145 | clicking the expected orders short of the last tile keeps play going and moves the cursor one step per click |
| Game.InOrderCompletes | numbers.js:137-145 | clicking the remaining orders in sequence ends the level with level + 1 and the points for the time left |
| Game.LevelClearedInOrder | numbers.js:133-149 | a fresh level is still in play after fewer clicks than it has tiles, and ends after exactly that many in-order clicks, earning the points for the full budget |
| Game.TicksRunOut | numbers.js:152-161 | with no clicks, play lasts exactly as many ticks as the time left, and the last tick stops it with the clock at zero |
| Game.Session.constructor | numbers.js:8-14 | the session starts in the initial state, consistent |
| Game.Session.ResetGame | numbers.js:44-50 | tiles emptied, cursor 0, play off; only those three fields may change; the state stays consistent |
| Game.Session.GenerateNumbers | numbers.js:67-85 | the tiles become the shuffled ranked values drawn for the current level; only the tiles change; a consistent session stays consistent |
| Game.Session.StartLevel | numbers.js:53-65 | the tiles become the level's generated tiles, cursor 0, play on, time set to the level's budget; level and score untouched; the state is consistent |
| Game.Session.Start | numbers.js:36-41 | the new state is level 1 with score 0, started as `startLevel` would, and consistent |
| Game.Session.EndLevel | numbers.js:165-178 | play off, score raised by the points for the time left, level + 1; only those fields change |
| Game.Session.EndGame | numbers.js:181-186 | play off; nothing else changes |
| Game.Session.HandleClick | numbers.js:133-149 | the new state is the click transition of the old one, and stays consistent |
| Game.Session.Tick | numbers.js:152-161 | the new state is the tick transition of the old one, and stays consistent |

## Left out

- Rendering and the DOM: the board, the header fields, the toasts (`showToast`) and the tile elements and their animations.
- `placeNumbers` (numbers.js:88-123): tile positions and the overlap check use floating point and random offsets, and affect only where a tile is drawn. Its use of `pickColor` is modelled by `Levels.PickColor`.
- The interval timer and the two delayed follow-ups are not scheduled: `endLevel` calling `startLevel` (numbers.js:177) and `endGame` calling `resetGame` (numbers.js:185), each 1.5 s later. Every transition is a direct call that a caller may make in any order. The model leaves these follow-up calls to the caller. It therefore does not capture the case where a pending `resetGame` clears a game started in between.
- The interval timer's handle (`timer`, `clearInterval`) is not part of the state. The callback does nothing while play is stopped, so whether an interval is running never changes the modelled state.
- `Math.random` is left out. It becomes the input sequences `draws` and `swaps`. A level start requires the draws to hold at least the tile count's worth of distinct values; the game's loop would keep drawing until that many had come.
- LevelGenerator.Shuffle: the game sorts with a random comparator. The model applies an arbitrary list of exchanges instead. It states the display order is some permutation, not which one a JavaScript engine would produce.
- Levels.Points and Game.Session.Tick: the remaining time is exact here. The game subtracts 0.05 from a floating-point number every tick.
  - For the 2.5 s to 9 s budgets, its countdown lasts one tick longer than BudgetTicks.
  - Its points can be one higher than Points.
  - It never shortens a level or lowers the points.
  - TicksRunOut and LevelClearedInOrder therefore describe the exact countdown, not the game's rounded one.
- The `win` argument of `endGame` only selects the toast text, so the model does not carry it.
