/**
 * The invariants every game state reached from a fresh game satisfies, and
 * the proofs that each operation keeps them.
 */
module SnakeInvariants {
  import opened RowMajor
  import opened SnakeLogic

  predicate SnakeInGrid(s: GameState) {
    forall c :: c in s.snake ==> InGrid(s.rows, s.cols, c)
  }

  /** The snake is non-empty, inside the grid and never covers a cell twice. */
  predicate SnakeOk(s: GameState) {
    s.snake != [] && Distinct(s.snake) && SnakeInGrid(s)
  }

  /** While the game is not over there is food, inside the grid and off the snake. */
  predicate FoodOk(s: GameState) {
    s.status != Over ==>
      s.food.Some? && InGrid(s.rows, s.cols, s.food.value) && s.food.value !in s.snake
  }

  predicate ScoreOk(s: GameState) {
    s.score >= 0 && s.score % ScorePerFood == 0
  }

  /** The queued turn never reverses the current direction. */
  predicate QueueOk(s: GameState) {
    s.nextDirection != Some(Opposite(s.direction))
  }

  /** The head sits one step in the current direction from the cell behind it. */
  predicate Heading(s: GameState) {
    |s.snake| >= 2 && Last(s.snake) == Step(s.snake[|s.snake| - 2], s.direction)
  }

  predicate Valid(s: GameState) {
    SnakeOk(s) && FoodOk(s) && ScoreOk(s) && QueueOk(s) && Heading(s)
  }

  lemma DistinctSnoc(a: seq<Cell>, x: Cell)
    requires Distinct(a) && x !in a
    ensures Distinct(a + [x])
  {
    var b := a + [x];
    forall i, j | 0 <= i < j < |b| ensures b[i] != b[j] {
      if j < |a| {
        assert b[i] == a[i] && b[j] == a[j];
      } else {
        assert b[i] == a[i] && a[i] in a;
      }
    }
  }

  /** Every snake cell inside the grid: the free cells are exactly EmptyCount many. */
  lemma FreeCellsCount(s: GameState)
    requires SnakeInGrid(s)
    ensures |FreeCells(s)| == EmptyCount(s)
  {
    FreeGridCount(s.rows, s.cols, CellSet(s.snake));
  }

  /** With the snake inside the grid, EmptyCount is zero exactly when the snake covers the grid. */
  lemma GridFull(s: GameState)
    requires SnakeInGrid(s)
    ensures EmptyCount(s) >= 0
    ensures EmptyCount(s) == 0 <==> forall c :: InGrid(s.rows, s.cols, c) ==> c in s.snake
  {
    FreeCellsCount(s);
    GridCellsSpec(s.rows, s.cols);
    if EmptyCount(s) == 0 {
      forall c | InGrid(s.rows, s.cols, c) ensures c in s.snake {
        FreeMember(GridCells(s.rows, s.cols), CellSet(s.snake), c);
      }
    } else {
      var c := FreeCells(s)[0];
      FreeMember(GridCells(s.rows, s.cols), CellSet(s.snake), c);
      assert InGrid(s.rows, s.cols, c) && c !in s.snake;
    }
  }

  /**
   * When some cell is free, the food goes to the floor(draw * EmptyCount)-th
   * free cell in row-major order: the index always names one, so the (0, 0)
   * fallback is never taken, and the chosen cell is inside the grid and off the snake.
   */
  lemma PlacedFood(s: GameState, draw: Draw)
    requires SnakeInGrid(s) && EmptyCount(s) != 0
    ensures 0 <= TargetIndex(draw, EmptyCount(s)) < |FreeCells(s)|
    ensures Placed(s, draw).food == Some(FreeCells(s)[TargetIndex(draw, EmptyCount(s))])
    ensures InGrid(s.rows, s.cols, Placed(s, draw).food.value)
    ensures Placed(s, draw).food.value !in s.snake
  {
    FreeCellsCount(s);
    var f := FreeCells(s)[TargetIndex(draw, EmptyCount(s))];
    FreeMember(GridCells(s.rows, s.cols), CellSet(s.snake), f);
    GridCellsSpec(s.rows, s.cols);
  }

  /** With exactly one free cell, every draw puts the food there. */
  lemma PlacedOnlyFreeCell(s: GameState, draw: Draw, c: Cell)
    requires SnakeInGrid(s) && EmptyCount(s) == 1
    requires InGrid(s.rows, s.cols, c) && c !in s.snake
    ensures Placed(s, draw).food == Some(c)
  {
    var free := FreeCells(s);
    FreeCellsCount(s);
    GridCellsSpec(s.rows, s.cols);
    FreeMember(GridCells(s.rows, s.cols), CellSet(s.snake), c);
    assert c in free && |free| == 1;
    assert free[0] == c;
    assert TargetIndex(draw, EmptyCount(s)) == 0;
  }

  /** A valid running game never turns the head back into the cell behind it. */
  lemma NoReversal(s: GameState)
    requires Valid(s) && s.status == Running
    ensures NextHead(s) != s.snake[|s.snake| - 2]
  {
    OppositeUndoesStep(s.snake[|s.snake| - 2], s.direction);
  }

  lemma TickPreservesValid(s: GameState, draw: Draw)
    requires Valid(s)
    ensures Valid(Tick(s, draw))
  {
    if s.status == Running && !Collides(s) {
      var head := NextHead(s);
      var m := Advanced(s);
      if Eats(s) {
        DistinctSnoc(s.snake, head);
        assert SnakeOk(m);
        if EmptyCount(m) != 0 {
          PlacedFood(m, draw);
        }
      } else {
        DistinctTail(s.snake);
        DistinctSnoc(s.snake[1..], head);
        assert m.snake[|m.snake| - 2] == Last(s.snake);
        assert SnakeOk(m);
      }
    }
  }

  lemma QueuePreservesValid(s: GameState, name: string)
    requires Valid(s)
    ensures Valid(QueueDirection(s, name))
  {
  }

  lemma TogglePreservesValid(s: GameState)
    requires Valid(s)
    ensures Valid(TogglePause(s))
  {
  }

  /** A fresh game on a grid of at least one row and three columns is valid. */
  lemma CreateValid(rows: nat, cols: nat, draw: Draw)
    requires rows >= 1 && cols >= 3
    ensures Valid(CreateGameState(rows, cols, draw))
    ensures CreateGameState(rows, cols, draw).score == ScorePerFood * (|CreateGameState(rows, cols, draw).snake| - 3)
  {
    var seed := Seed(rows, cols);
    var t := CreateGameState(rows, cols, draw);
    assert SnakeOk(seed);
    if EmptyCount(seed) != 0 {
      PlacedFood(seed, draw);
    }
  }

  /** The inputs the presentation layer feeds the engine. */
  datatype Action = TickAction(draw: Draw) | TurnAction(name: string) | PauseAction | RestartAction(draw: Draw)

  /** A valid state of a lineage on a grid that fits the seed snake, whose score counts the food eaten. */
  predicate InLineage(s: GameState) {
    Valid(s) && s.rows >= 1 && s.cols >= 3 && s.score == ScorePerFood * (|s.snake| - 3)
  }

  function Apply(s: GameState, a: Action): (t: GameState)
    requires s.status == Running ==> s.snake != []
  {
    match a
    case TickAction(d) => Tick(s, d)
    case TurnAction(name) => QueueDirection(s, name)
    case PauseAction => TogglePause(s)
    case RestartAction(d) => RestartState(s, d)
  }

  lemma ApplyPreservesLineage(s: GameState, a: Action)
    requires InLineage(s)
    ensures InLineage(Apply(s, a)) && Apply(s, a).rows == s.rows && Apply(s, a).cols == s.cols
  {
    match a
    case TickAction(d) => TickPreservesValid(s, d);
    case TurnAction(name) => QueuePreservesValid(s, name);
    case PauseAction => TogglePreservesValid(s);
    case RestartAction(d) => CreateValid(s.rows, s.cols, d);
  }

  /** Only a restart leaves an ended game. */
  lemma OverIsTerminal(s: GameState, a: Action)
    requires s.status == Over && !a.RestartAction?
    ensures Apply(s, a) == s
  {
  }

  /** Feeds a sequence of inputs to the engine; every state on the way stays in the lineage. */
  function Run(s: GameState, actions: seq<Action>): (t: GameState)
    requires InLineage(s)
    ensures InLineage(t) && t.rows == s.rows && t.cols == s.cols
    decreases |actions|
  {
    if actions == [] then s
    else
      ApplyPreservesLineage(s, actions[0]);
      Run(Apply(s, actions[0]), actions[1..])
  }

  /**
   * Every state reachable from a fresh game by ticks, turns, pauses and
   * restarts keeps the snake in bounds and distinct, the food off the snake,
   * the score a multiple of 10 that counts the food eaten, and never has a
   * reversal queued.
   */
  lemma ReachableValid(rows: nat, cols: nat, draw: Draw, actions: seq<Action>)
    requires rows >= 1 && cols >= 3
    ensures InLineage(CreateGameState(rows, cols, draw))
    ensures Valid(Run(CreateGameState(rows, cols, draw), actions))
  {
    CreateValid(rows, cols, draw);
  }
}
