/** The scenarios the engine's own tests exercise, as statements about the model. */
module SnakeScenarios {
  import opened RowMajor
  import opened SnakeLogic
  import opened SnakeInvariants

  /** A running 6 x 6 game with the given snake, direction and food, the way the tests build one. */
  function Board(snake: seq<Cell>, direction: Direction, food: Cell): GameState {
    GameState(6, 6, snake, direction, Some(direction), Some(food), 0, Running)
  }

  /** A plain move advances the head and drops the tail. */
  lemma MoveForward(draw: Draw)
    ensures Tick(Board([(2, 1), (2, 2), (2, 3)], Right, (0, 0)), draw).snake == [(2, 2), (2, 3), (2, 4)]
    ensures Tick(Board([(2, 1), (2, 2), (2, 3)], Right, (0, 0)), draw).status == Running
  {
    var s := Board([(2, 1), (2, 2), (2, 3)], Right, (0, 0));
    assert !Collides(s) && !Eats(s);
  }

  /** Eating grows the snake by one, adds 10 points, and with draw 0 puts food in the first free cell. */
  lemma EatFood()
    ensures Tick(Board([(2, 2), (2, 3), (2, 4)], Right, (2, 5)), 0.0).score == 10
    ensures |Tick(Board([(2, 2), (2, 3), (2, 4)], Right, (2, 5)), 0.0).snake| == 4
    ensures Tick(Board([(2, 2), (2, 3), (2, 4)], Right, (2, 5)), 0.0).food == Some((0, 0))
  {
    var s := Board([(2, 2), (2, 3), (2, 4)], Right, (2, 5));
    assert NextHead(s) == (2, 5);
    assert !Collides(s) && Eats(s);
    var m := GameState(6, 6, [(2, 2), (2, 3), (2, 4), (2, 5)], Right, Some(Right), Some((2, 5)), 10, Running);
    assert Advanced(s) == m;
    FirstFreeCell(m);
  }

  /** With draw 0 the food goes to the first cell in row-major order when that cell is free. */
  lemma FirstFreeCell(m: GameState)
    requires SnakeInGrid(m) && Distinct(m.snake) && |m.snake| < m.rows * m.cols
    requires m.rows > 0 && m.cols > 0 && (0, 0) !in m.snake
    ensures Placed(m, 0.0).food == Some((0, 0))
  {
    DistinctCellCount(m.snake);
    PlacedFood(m, 0.0);
    assert TargetIndex(0.0, EmptyCount(m)) == 0;
    FreeAt(m.rows, m.cols, 0, 0, CellSet(m.snake));
    assert GridCells(0, m.cols) + RowCells(0, 0) == [];
  }

  /** Moving up from the top row ends the game. */
  lemma HitWall(draw: Draw)
    ensures Tick(Board([(0, 1), (0, 2), (0, 3)], Up, (5, 5)), draw).status == Over
  {
  }

  /** Turning into the body ends the game. */
  lemma HitSelf(draw: Draw)
    ensures Tick(Board([(2, 2), (2, 3), (1, 3), (1, 2), (1, 1), (2, 1)], Up, (5, 5)), draw).status == Over
  {
    var s := Board([(2, 2), (2, 3), (1, 3), (1, 2), (1, 1), (2, 1)], Up, (5, 5));
    assert NextHead(s) == s.snake[4];
  }

  /** Moving into the cell the tail is about to leave still counts as a collision. */
  lemma ChaseTail(draw: Draw)
    ensures Tick(Board([(0, 0), (0, 1), (1, 1), (1, 0)], Up, (5, 5)), draw).status == Over
  {
    var s := Board([(0, 0), (0, 1), (1, 1), (1, 0)], Up, (5, 5));
    assert NextHead(s) == s.snake[0];
  }

  /** A request to reverse is ignored. */
  lemma ReverseIgnored()
    ensures QueueDirection(Board([(3, 2), (3, 3), (3, 4)], Right, (0, 0)), "left").nextDirection == Some(Right)
  {
  }

  /** A 3 x 3 grid with only (2, 1) free: food lands there. */
  lemma LastFreeCell(draw: Draw)
    ensures Placed(GameState(3, 3, [(0, 0), (0, 1), (0, 2), (1, 0), (1, 1), (1, 2), (2, 0), (2, 2)],
                             Right, Some(Right), None, 0, Running), draw).food == Some((2, 1))
  {
    var s := GameState(3, 3, [(0, 0), (0, 1), (0, 2), (1, 0), (1, 1), (1, 2), (2, 0), (2, 2)],
                       Right, Some(Right), None, 0, Running);
    assert SnakeInGrid(s);
    DistinctCellCount(s.snake);
    PlacedOnlyFreeCell(s, draw, (2, 1));
  }

  /**
   * On a 3 x 1 grid the seed snake sticks out to the left and right of the grid, so
   * emptyCount is 3 - 3 = 0 and the fresh game is over although two grid
   * cells are free.
   */
  lemma NarrowGridOver(draw: Draw)
    ensures Seed(3, 1).snake == [(1, -1), (1, 0), (1, 1)]
    ensures EmptyCount(Seed(3, 1)) == 0
    ensures CreateGameState(3, 1, draw).status == Over
    ensures InGrid(3, 1, (0, 0)) && (0, 0) !in CreateGameState(3, 1, draw).snake
    ensures InGrid(3, 1, (2, 0)) && (2, 0) !in CreateGameState(3, 1, draw).snake
  {
    var snake := Seed(3, 1).snake;
    assert CellSet(snake) == {(1, -1), (1, 0), (1, 1)};
  }
}
