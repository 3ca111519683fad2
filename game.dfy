/**
 The session controller: the game's module-level state (the tiles of the
 current level, the click cursor, the active flag, the level, the score and
 the remaining time) and the transitions the event handlers make on it.

 Each transition is first given as a function from the old state to the new
 one; class `Session` then holds the state in fields and its methods update
 them in place, each promising the new state its function gives. The interval
 timer and the delayed follow-ups of `endLevel` (the next `startLevel`) and
 `endGame` (a `resetGame`) are not scheduled: every transition is a direct
 call, in any order a caller likes.
 */
module Game {
  import opened NumberPool
  import opened Levels
  import opened LevelGenerator

  /**
   The session state. `remaining` is the time left on the level in timer
   ticks of 50 ms; `expectedIndex` is the order of the next tile to click.
   */
  datatype SessionState = SessionState(
    numbers: seq<Tile>,
    expectedIndex: nat,
    gameActive: bool,
    level: Level,
    score: nat,
    remaining: nat)

  /** The state when the page loads. */
  const Initial: SessionState := SessionState([], 0, false, 1, 0, 0)

  /**
   What every reachable state satisfies: the cursor never passes the last
   tile nor the current level's tile count, and while a level is being played
   the cursor points at a tile, time is left, and the tiles form a well-formed
   level of the right size.
   */
  ghost predicate Consistent(s: SessionState)
  {
    && s.expectedIndex <= |s.numbers|
    && s.expectedIndex <= TileCount(s.level)
    && (s.gameActive ==>
          && s.expectedIndex < |s.numbers|
          && s.remaining > 0
          && WellFormedLevel(s.numbers, TileCount(s.level)))
  }

  /** What a level start needs of its random inputs: enough distinct draws, and exchanges within the board. */
  predicate LevelInputs(level: Level, draws: seq<PoolIndex>, swaps: seq<Swap>)
  {
    && TileCount(level) <= |Dedup(Candidates(draws))|
    && SwapsWithin(swaps, TileCount(level))
  }

  // ---------- Transitions ----------

  /** `resetGame`: clears the board and the cursor and stops play. */
  function ResetStep(s: SessionState): (r: SessionState)
    ensures r.level == s.level && r.score == s.score && r.remaining == s.remaining
    ensures !r.gameActive && r.expectedIndex == 0 && r.numbers == []
  {
    s.(numbers := [], expectedIndex := 0, gameActive := false)
  }

  /** `startLevel`: resets, sets the level's time budget, generates its tiles and starts play. */
  function StartLevelStep(s: SessionState, draws: seq<PoolIndex>, swaps: seq<Swap>): (r: SessionState)
    requires LevelInputs(s.level, draws, swaps)
    ensures r.level == s.level && r.score == s.score
    ensures r.gameActive && r.expectedIndex == 0
    ensures |r.numbers| == TileCount(s.level) && r.remaining == BudgetTicks(s.level)
  {
    var count := TileCount(s.level);
    ResetStep(s).(
      remaining := BudgetTicks(s.level),
      numbers := Shuffle(LevelTiles(count, draws), swaps),
      gameActive := true)
  }

  /** The start button: back to level 1 with no score, then `startLevel`. */
  function StartStep(s: SessionState, draws: seq<PoolIndex>, swaps: seq<Swap>): (r: SessionState)
    requires LevelInputs(1, draws, swaps)
    ensures r.level == 1 && r.score == 0 && r.gameActive && r.expectedIndex == 0
    ensures |r.numbers| == FirstLevelTiles && r.remaining == BudgetTicks(1)
  {
    StartLevelStep(s.(level := 1, score := 0), draws, swaps)
  }

  /** `endLevel`: stops play, awards the points for the time left and moves to the next level. */
  function EndLevelStep(s: SessionState): (r: SessionState)
    ensures !r.gameActive && r.level == s.level + 1
    ensures s.score <= r.score && (s.remaining > 0 ==> s.score < r.score)
    ensures r.numbers == s.numbers && r.expectedIndex == s.expectedIndex && r.remaining == s.remaining
  {
    s.(gameActive := false, score := s.score + Points(s.remaining), level := s.level + 1)
  }

  /** `endGame`: stops play. */
  function EndGameStep(s: SessionState): (r: SessionState)
    ensures !r.gameActive && r.level == s.level && r.score == s.score
    ensures r.numbers == s.numbers && r.expectedIndex == s.expectedIndex && r.remaining == s.remaining
  {
    s.(gameActive := false)
  }

  /** `handleClick` on a tile carrying `order`. */
  function ClickStep(s: SessionState, order: int): (r: SessionState)
    ensures r.numbers == s.numbers && r.remaining == s.remaining
    ensures s.expectedIndex <= r.expectedIndex <= s.expectedIndex + 1
    ensures s.score <= r.score && s.level <= r.level <= s.level + 1
    ensures r.gameActive ==> s.gameActive
  {
    if !s.gameActive then s
    else if order == s.expectedIndex then
      var advanced := s.(expectedIndex := s.expectedIndex + 1);
      if advanced.expectedIndex == |s.numbers| then EndLevelStep(advanced) else advanced
    else EndGameStep(s)
  }

  /** One firing of the 50 ms interval timer. */
  function TickStep(s: SessionState): (r: SessionState)
    ensures r.numbers == s.numbers && r.expectedIndex == s.expectedIndex
    ensures r.level == s.level && r.score == s.score
    ensures r.remaining <= s.remaining && (r.gameActive ==> s.gameActive && r.remaining > 0)
  {
    if !s.gameActive then s
    else
      var left := s.remaining - 1;
      if left <= 0 then EndGameStep(s.(remaining := 0)) else s.(remaining := left)
  }

  /** A run of clicks, first to last. */
  function ClickAll(s: SessionState, orders: seq<int>): SessionState
    decreases |orders|
  {
    if orders == [] then s else ClickAll(ClickStep(s, orders[0]), orders[1..])
  }

  /** A run of timer ticks. */
  function TickAll(s: SessionState, n: nat): SessionState
    decreases n
  {
    if n == 0 then s else TickAll(TickStep(s), n - 1)
  }

  /** The orders lo, lo + 1, ..., hi - 1. */
  function Range(lo: int, hi: int): seq<int>
    decreases hi - lo
  {
    if lo < hi then [lo] + Range(lo + 1, hi) else []
  }

  // ---------- The state invariant ----------

  lemma InitialConsistent()
    ensures Consistent(Initial)
    ensures !Initial.gameActive && Initial.level == 1 && Initial.score == 0
  {
  }

  /** Starting a level gives a consistent state, whatever the state before. */
  lemma StartLevelConsistent(s: SessionState, draws: seq<PoolIndex>, swaps: seq<Swap>)
    requires LevelInputs(s.level, draws, swaps)
    ensures Consistent(StartLevelStep(s, draws, swaps))
  {
    LevelWellFormed(TileCount(s.level), draws, swaps);
  }

  /** The state a level start leads to, field by field. */
  lemma StartLevelState(s: SessionState, t: SessionState, draws: seq<PoolIndex>, swaps: seq<Swap>)
    requires LevelInputs(s.level, draws, swaps)
    requires t.numbers == Shuffle(LevelTiles(TileCount(s.level), draws), swaps)
    requires t.expectedIndex == 0 && t.gameActive && t.remaining == BudgetTicks(s.level)
    requires t.level == s.level && t.score == s.score
    ensures t == StartLevelStep(s, draws, swaps)
    ensures Consistent(t)
  {
    StartLevelConsistent(s, draws, swaps);
  }

  /** Every transition keeps the state consistent. */
  lemma StepsKeepConsistent(s: SessionState, order: int)
    requires Consistent(s)
    ensures Consistent(ClickStep(s, order))
    ensures Consistent(TickStep(s))
    ensures Consistent(ResetStep(s))
    ensures Consistent(EndLevelStep(s))
    ensures Consistent(EndGameStep(s))
  {
  }

  // ---------- Properties of a click ----------

  /** While play is stopped, neither a click nor a tick changes anything. */
  lemma InactiveIgnoresInput(s: SessionState, order: int)
    requires !s.gameActive
    ensures ClickStep(s, order) == s
    ensures TickStep(s) == s
  {
  }

  /**
   A click during play has exactly two outcomes. The tile whose order is the
   cursor advances the cursor by one, and finishes the level when the cursor
   reaches the tile count. Any other tile stops play and changes nothing else.
   */
  lemma ClickOutcomes(s: SessionState, order: int)
    requires Consistent(s) && s.gameActive
    ensures var t := ClickStep(s, order);
      && t.numbers == s.numbers
      && t.remaining == s.remaining
      && (order == s.expectedIndex <==> t.expectedIndex == s.expectedIndex + 1)
      && (order != s.expectedIndex ==>
            !t.gameActive && t.expectedIndex == s.expectedIndex
            && t.level == s.level && t.score == s.score)
      && (order == s.expectedIndex && t.expectedIndex < |s.numbers| ==>
            t.gameActive && t.level == s.level && t.score == s.score)
      && (order == s.expectedIndex && t.expectedIndex == |s.numbers| ==>
            !t.gameActive && t.level == s.level + 1
            && t.score == s.score + Points(s.remaining) && t.score > s.score)
  {
  }

  /** The cursor only moves forward, one tile at a time; ticks do not move it. */
  lemma CursorMonotone(s: SessionState, order: int)
    ensures s.expectedIndex <= ClickStep(s, order).expectedIndex <= s.expectedIndex + 1
    ensures TickStep(s).expectedIndex == s.expectedIndex
  {
  }

  /** `resetGame` clears the level but keeps the level number and the score. */
  lemma ResetKeepsProgress(s: SessionState)
    ensures var t := ResetStep(s);
      t.numbers == [] && t.expectedIndex == 0 && !t.gameActive
      && t.level == s.level && t.score == s.score && t.remaining == s.remaining
  {
  }

  /**
   During play exactly one tile carries the cursor's order, and it is the
   smallest value not yet clicked: a tile is smaller exactly when it was
   clicked before.
   */
  lemma NextTile(s: SessionState)
    requires Consistent(s) && s.gameActive
    ensures HasOrder(s.numbers, s.expectedIndex)
    ensures forall i, j | 0 <= i < |s.numbers| && 0 <= j < |s.numbers| && i != j ::
      s.numbers[i].order == s.expectedIndex ==> s.numbers[j].order != s.expectedIndex
    ensures forall i, j | 0 <= i < |s.numbers| && 0 <= j < |s.numbers| ::
      s.numbers[i].order == s.expectedIndex ==>
        (s.numbers[j].value < s.numbers[i].value <==> s.numbers[j].order < s.expectedIndex)
  {
    var n := |s.numbers|;
    forall i, j | 0 <= i < n && 0 <= j < n && i != j && s.numbers[i].order == s.expectedIndex
      ensures s.numbers[j].order != s.expectedIndex
    {
      OrdersDistinct(s.numbers, n, i, j);
    }
  }

  // ---------- Runs of clicks and ticks ----------

  /**
   From any point of play, clicking the remaining orders in sequence keeps
   play going and moves the cursor one step per click, until the last tile.
   */
  lemma {:induction false} InOrderPrefix(s: SessionState, k: int)
    requires s.gameActive
    requires s.expectedIndex <= k < |s.numbers|
    ensures ClickAll(s, Range(s.expectedIndex, k)) == s.(expectedIndex := k)
    decreases k - s.expectedIndex
  {
    var e := s.expectedIndex;
    if e < k {
      var t := ClickStep(s, e);
      assert t == s.(expectedIndex := e + 1);
      assert Range(e, k)[1..] == Range(e + 1, k);
      InOrderPrefix(t, k);
    }
  }

  /**
   From any point of play, clicking the remaining orders in sequence finishes
   the level: play stops, the level goes up by one and the points for the
   time left are added.
   */
  lemma {:induction false} InOrderCompletes(s: SessionState)
    requires s.gameActive && s.expectedIndex < |s.numbers|
    ensures var t := ClickAll(s, Range(s.expectedIndex, |s.numbers|));
      && !t.gameActive && t.expectedIndex == |t.numbers|
      && t.numbers == s.numbers && t.level == s.level + 1
      && t.score == s.score + Points(s.remaining)
    decreases |s.numbers| - s.expectedIndex
  {
    var e, n := s.expectedIndex, |s.numbers|;
    assert Range(e, n)[1..] == Range(e + 1, n);
    var t := ClickStep(s, e);
    if e + 1 < n {
      assert t == s.(expectedIndex := e + 1);
      InOrderCompletes(t);
    }
  }

  /**
   A freshly started level is finished by clicking orders 0, 1, ... in turn
   after exactly as many clicks as the level has tiles, and not before; it
   earns the points for the full time budget.
   */
  lemma LevelClearedInOrder(s: SessionState, draws: seq<PoolIndex>, swaps: seq<Swap>, k: nat)
    requires LevelInputs(s.level, draws, swaps)
    ensures var s0 := StartLevelStep(s, draws, swaps);
      k < TileCount(s.level) ==> ClickAll(s0, Range(0, k)).gameActive
    ensures var t := ClickAll(StartLevelStep(s, draws, swaps), Range(0, TileCount(s.level)));
      !t.gameActive && t.level == s.level + 1 && t.score == s.score + Points(BudgetTicks(s.level))
  {
    var s0 := StartLevelStep(s, draws, swaps);
    StartLevelConsistent(s, draws, swaps);
    if k < TileCount(s.level) {
      InOrderPrefix(s0, k);
    }
    InOrderCompletes(s0);
  }

  /**
   With no clicks, play lasts exactly as many ticks as the time left: one
   tick fewer leaves one tick on the clock, and the last tick stops play with
   the clock at zero, even with tiles still to click.
   */
  lemma {:induction false} TicksRunOut(s: SessionState)
    requires Consistent(s) && s.gameActive
    ensures var t := TickAll(s, s.remaining - 1);
      t == s.(remaining := 1)
    ensures var t := TickAll(s, s.remaining);
      t == s.(remaining := 0, gameActive := false)
    decreases s.remaining
  {
    if s.remaining > 1 {
      var t := TickStep(s);
      assert t == s.(remaining := s.remaining - 1);
      TicksRunOut(t);
      assert TickAll(s, s.remaining) == TickAll(t, t.remaining);
    }
  }

  // ---------- The session object ----------

  /** The game's module-level variables, updated in place by its event handlers. */
  class Session {
    var numbers: seq<Tile>
    var expectedIndex: nat
    var remaining: nat
    var gameActive: bool
    var level: Level
    var score: nat

    function State(): SessionState
      reads this
    {
      SessionState(numbers, expectedIndex, gameActive, level, score, remaining)
    }

    ghost predicate Valid()
      reads this
    {
      Consistent(State())
    }

    constructor ()
      ensures State() == Initial && Valid()
    {
      numbers := [];
      expectedIndex := 0;
      remaining := 0;
      gameActive := false;
      level := 1;
      score := 0;
    }

    method ResetGame()
      modifies this`numbers, this`expectedIndex, this`gameActive
      ensures numbers == [] && expectedIndex == 0 && !gameActive
      ensures Valid()
    {
      numbers := [];
      expectedIndex := 0;
      gameActive := false;
    }

    /** `generateNumbers`: draws the level's values, ranks them and shuffles them for display. */
    method GenerateNumbers(draws: seq<PoolIndex>, swaps: seq<Swap>)
      requires LevelInputs(level, draws, swaps) && Valid()
      modifies this`numbers
      ensures numbers == Shuffle(LevelTiles(TileCount(level), draws), swaps)
      ensures Valid()
    {
      var count := TileCount(level);
      var values, used := DrawValues(count, draws);
      numbers := Shuffle(Ranked(values), swaps);
      LevelWellFormed(count, draws, swaps);
    }

    method StartLevel(draws: seq<PoolIndex>, swaps: seq<Swap>)
      requires LevelInputs(level, draws, swaps)
      modifies this`numbers, this`expectedIndex, this`gameActive, this`remaining
      ensures numbers == Shuffle(LevelTiles(TileCount(level), draws), swaps)
      ensures expectedIndex == 0 && gameActive && remaining == BudgetTicks(level)
      ensures Valid()
    {
      ghost var before := State();
      ResetGame();
      remaining := BudgetTicks(level);
      GenerateNumbers(draws, swaps);
      gameActive := true;
      ghost var after := State();
      StartLevelState(before, after, draws, swaps);
    }

    /** The start button. */
    method Start(draws: seq<PoolIndex>, swaps: seq<Swap>)
      requires LevelInputs(1, draws, swaps)
      modifies this
      ensures State() == StartStep(old(State()), draws, swaps) && Valid()
    {
      level := 1;
      score := 0;
      StartLevel(draws, swaps);
      StartLevelState(old(State()).(level := 1, score := 0), State(), draws, swaps);
    }

    method EndLevel()
      modifies this`gameActive, this`score, this`level
      ensures !gameActive && score == old(score) + Points(remaining) && level == old(level) + 1
      ensures old(expectedIndex <= |numbers| && expectedIndex <= TileCount(level)) ==> Valid()
    {
      gameActive := false;
      score := score + Points(remaining);
      level := level + 1;
    }

    method EndGame()
      modifies this`gameActive
      ensures !gameActive
      ensures old(expectedIndex <= |numbers| && expectedIndex <= TileCount(level)) ==> Valid()
    {
      gameActive := false;
    }

    method HandleClick(order: int)
      requires Valid()
      modifies this`expectedIndex, this`gameActive, this`score, this`level
      ensures State() == ClickStep(old(State()), order) && Valid()
    {
      if !gameActive {
        return;
      }
      if order == expectedIndex {
        expectedIndex := expectedIndex + 1;
        if expectedIndex == |numbers| {
          EndLevel();
        }
      } else {
        EndGame();
      }
    }

    /** The interval timer's callback. */
    method Tick()
      requires Valid()
      modifies this`remaining, this`gameActive
      ensures State() == TickStep(old(State())) && Valid()
    {
      if !gameActive {
        return;
      }
      var left := remaining - 1;
      if left <= 0 {
        remaining := 0;
        EndGame();
      } else {
        remaining := left;
      }
    }
  }
}
