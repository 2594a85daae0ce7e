/**
 * The snake game engine: a game state record and the transitions over it
 * (create, queue a turn, pause, tick, place food, restart).
 */
module SnakeLogic {
  import opened RowMajor

  datatype Option<T> = None | Some(value: T)

  datatype Direction = Up | Down | Left | Right

  datatype Status = Running | Paused | Over

  /** The whole game. The snake runs from its tail (index 0) to its head (last index). */
  datatype GameState = GameState(
    rows: nat,
    cols: nat,
    snake: seq<Cell>,
    direction: Direction,
    nextDirection: Option<Direction>,
    food: Option<Cell>,
    score: int,
    status: Status)

  /** A value of the injected random source, which draws uniformly from [0, 1). */
  type Draw = r: real | 0.0 <= r < 1.0

  /** Points gained for each food eaten. */
  const ScorePerFood := 10

  /** The unit (row, column) step of each direction. */
  function Vector(d: Direction): (int, int) {
    match d
    case Up => (-1, 0)
    case Down => (1, 0)
    case Left => (0, -1)
    case Right => (0, 1)
  }

  function Opposite(d: Direction): Direction {
    match d
    case Up => Down
    case Down => Up
    case Left => Right
    case Right => Left
  }

  /** The name of a direction, as the presentation layer names it. */
  function DirectionName(d: Direction): string {
    match d
    case Up => "up"
    case Down => "down"
    case Left => "left"
    case Right => "right"
  }

  /** Looks a name up among the four directions; any other name is rejected. */
  function ParseDirection(name: string): (r: Option<Direction>)
    ensures forall d :: r == Some(d) <==> name == DirectionName(d)
  {
    if name == "up" then Some(Up)
    else if name == "down" then Some(Down)
    else if name == "left" then Some(Left)
    else if name == "right" then Some(Right)
    else None
  }

  function Step(c: Cell, d: Direction): Cell {
    (c.0 + Vector(d).0, c.1 + Vector(d).1)
  }

  /** Moving one step and then one step back returns to the start. */
  lemma OppositeUndoesStep(c: Cell, d: Direction)
    ensures Opposite(d) != d && Opposite(Opposite(d)) == d
    ensures Step(Step(c, d), Opposite(d)) == c
    ensures forall e :: Step(Step(c, d), e) == c ==> e == Opposite(d)
  {
  }

  /** Component-wise equality of two cells is equality of the cells. */
  function CoordsEqual(a: Cell, b: Cell): (r: bool)
    ensures r <==> a == b
  {
    a.0 == b.0 && a.1 == b.1
  }

  /** The direction the next tick applies: the queued one if any, else the current one. */
  function Effective(s: GameState): Direction {
    match s.nextDirection
    case Some(d) => d
    case None => s.direction
  }

  /** The last cell of a non-empty sequence: for a snake, its head. */
  function Last(cells: seq<Cell>): Cell
    requires cells != []
  {
    cells[|cells| - 1]
  }

  function NextHead(s: GameState): Cell
    requires s.snake != []
  {
    Step(Last(s.snake), Effective(s))
  }

  /** The next head leaves the grid or lands on a cell of the snake as it is before the move. */
  predicate Collides(s: GameState)
    requires s.snake != []
  {
    !InGrid(s.rows, s.cols, NextHead(s)) || NextHead(s) in s.snake
  }

  predicate Eats(s: GameState)
    requires s.snake != []
  {
    s.food == Some(NextHead(s))
  }

  /** The number of grid cells minus the number of distinct snake cells. */
  function EmptyCount(s: GameState): int {
    s.rows * s.cols - |CellSet(s.snake)|
  }

  /** The unoccupied grid cells in row-major order. */
  function FreeCells(s: GameState): seq<Cell> {
    Free(GridCells(s.rows, s.cols), CellSet(s.snake))
  }

  /** The index the food placer looks for: floor(draw * n). */
  function TargetIndex(draw: Draw, n: int): (k: int)
    ensures n > 0 ==> 0 <= k < n
    ensures n == 1 ==> k == 0
  {
    var x := draw * (n as real);
    assert n > 0 ==> 0.0 <= x < n as real by {
      if n > 0 {
        assert (1.0 - draw) * (n as real) > 0.0;
      }
    }
    x.Floor
  }

  /**
   * The food placer as a specification: the grid is full, or food goes to the
   * TargetIndex-th free cell in row-major order, or, when that index names no
   * free cell, to (0, 0).
   */
  function Placed(s: GameState, draw: Draw): (t: GameState)
    ensures EmptyCount(s) == 0 ==> t == s.(status := Over)
    ensures EmptyCount(s) != 0 ==> t.food.Some? && t == s.(food := t.food)
  {
    var n := EmptyCount(s);
    if n == 0 then s.(status := Over)
    else
      var k := TargetIndex(draw, n);
      var free := FreeCells(s);
      if 0 <= k < |free| then s.(food := Some(free[k])) else s.(food := Some((0, 0)))
  }

  /** Scans the grid row by row, counting free cells down from the target index. */
  method PlaceFood(s: GameState, draw: Draw) returns (t: GameState)
    ensures t == Placed(s, draw)
  {
    var filled := CellSet(s.snake);
    var emptyCount := s.rows * s.cols - |filled|;
    if emptyCount == 0 {
      return s.(status := Over);
    }
    ghost var k := TargetIndex(draw, emptyCount);
    var targetIndex := TargetIndex(draw, emptyCount);
    var r := 0;
    while r < s.rows
      invariant 0 <= r <= s.rows
      invariant targetIndex == k - |Free(GridCells(r, s.cols), filled)|
      invariant k >= 0 ==> targetIndex >= 0
    {
      var c := 0;
      assert GridCells(r, s.cols) + RowCells(r, c) == GridCells(r, s.cols);
      while c < s.cols
        invariant 0 <= c <= s.cols
        invariant targetIndex == k - |Free(GridCells(r, s.cols) + RowCells(r, c), filled)|
        invariant k >= 0 ==> targetIndex >= 0
      {
        FreeSnoc(GridCells(r, s.cols) + RowCells(r, c), (r, c), filled);
        assert GridCells(r, s.cols) + RowCells(r, c + 1) == GridCells(r, s.cols) + RowCells(r, c) + [(r, c)];
        if (r, c) !in filled {
          if targetIndex == 0 {
            FreeAt(s.rows, s.cols, r, c, filled);
            return s.(food := Some((r, c)));
          }
          targetIndex := targetIndex - 1;
        }
        c := c + 1;
      }
      assert GridCells(r + 1, s.cols) == GridCells(r, s.cols) + RowCells(r, c);
      r := r + 1;
    }
    return s.(food := Some((0, 0)));
  }

  /** The state before food is placed: a three-cell snake centred on the grid, facing right. */
  function Seed(rows: nat, cols: nat): GameState {
    var midRow, midCol := rows / 2, cols / 2;
    GameState(rows, cols, [(midRow, midCol - 1), (midRow, midCol), (midRow, midCol + 1)],
              Right, Some(Right), None, 0, Running)
  }

  function CreateGameState(rows: nat, cols: nat, draw: Draw): (t: GameState)
    ensures t.rows == rows && t.cols == cols
    ensures t.snake == [(rows / 2, cols / 2 - 1), (rows / 2, cols / 2), (rows / 2, cols / 2 + 1)]
    ensures t.direction == Right && t.nextDirection == Some(Right) && t.score == 0
    ensures t.status == (if rows * cols == 3 then Over else Running)
    ensures rows * cols != 3 ==> t.food.Some?
  {
    var seed := Seed(rows, cols);
    assert |CellSet(seed.snake)| == 3 by {
      var a, b, c := seed.snake[0], seed.snake[1], seed.snake[2];
      assert CellSet(seed.snake) == {a, b, c};
    }
    Placed(seed, draw)
  }

  /** A fresh game on the same grid; nothing else of the old state survives. */
  function RestartState(s: GameState, draw: Draw): (t: GameState)
    ensures t == CreateGameState(s.rows, s.cols, draw)
    ensures t.rows == s.rows && t.cols == s.cols && |t.snake| == 3 && t.score == 0
  {
    CreateGameState(s.rows, s.cols, draw)
  }

  /**
   * Records a turn for the next tick. An unknown name, a game that is not
   * running, or a direct reversal of the current direction leaves the state as it is.
   */
  function QueueDirection(s: GameState, name: string): (t: GameState)
    ensures t == s.(nextDirection := t.nextDirection)
    ensures (|| ParseDirection(name).None?
             || s.status != Running
             || ParseDirection(name) == Some(Opposite(s.direction))) ==> t == s
    ensures forall d ::
              (ParseDirection(name) == Some(d) && s.status == Running && d != Opposite(s.direction))
              ==> t.nextDirection == Some(d)
  {
    match ParseDirection(name)
    case None => s
    case Some(d) =>
      if s.status != Running then s
      else if Opposite(s.direction) == d then s
      else s.(nextDirection := Some(d))
  }

  /** Of two turns queued before a tick, an accepted second one replaces the first. */
  lemma QueueLastWins(s: GameState, first: string, second: string, d: Direction)
    requires ParseDirection(second) == Some(d) && s.status == Running && d != Opposite(s.direction)
    ensures QueueDirection(QueueDirection(s, first), second) == s.(nextDirection := Some(d))
  {
  }

  /** Swaps running and paused; an ended game stays as it is. */
  function TogglePause(s: GameState): (t: GameState)
    ensures s.status == Over ==> t == s
    ensures s.status == Running ==> t == s.(status := Paused)
    ensures s.status == Paused ==> t == s.(status := Running)
  {
    if s.status == Over then s
    else s.(status := if s.status == Paused then Running else Paused)
  }

  /** The snake after a move without collision: it grows at the head and loses its tail unless it eats. */
  function Advanced(s: GameState): GameState
    requires s.snake != []
  {
    var dir := Effective(s);
    var body := if Eats(s) then s.snake else s.snake[1..];
    s.(direction := dir, nextDirection := Some(dir), snake := body + [NextHead(s)],
       score := if Eats(s) then s.score + ScorePerFood else s.score)
  }

  /** One tick of the game clock, as a specification. */
  function Tick(s: GameState, draw: Draw): (t: GameState)
    requires s.status == Running ==> s.snake != []
    ensures s.status != Running ==> t == s
    ensures s.status == Running && Collides(s) ==> t == s.(status := Over)
    ensures s.status == Running && !Collides(s) ==>
              && t.rows == s.rows && t.cols == s.cols
              && t.direction == Effective(s) && t.nextDirection == Some(Effective(s))
              && t.snake != [] && Last(t.snake) == NextHead(s)
    ensures s.status == Running && !Collides(s) && !Eats(s) ==>
              && t.snake == s.snake[1..] + [NextHead(s)] && |t.snake| == |s.snake|
              && t.score == s.score && t.food == s.food && t.status == Running
    ensures s.status == Running && !Collides(s) && Eats(s) ==>
              && t.snake == s.snake + [NextHead(s)] && |t.snake| == |s.snake| + 1
              && t.score == s.score + ScorePerFood
              && (t.status == Over <==> EmptyCount(t) == 0)
              && (t.status != Over ==> t.status == Running && t.food.Some?)
  {
    if s.status != Running then s
    else if Collides(s) then s.(status := Over)
    else if Eats(s) then Placed(Advanced(s), draw)
    else Advanced(s)
  }

  /** One tick, computed the way the engine does it: the new body is built and then trimmed. */
  method NextState(s: GameState, draw: Draw) returns (t: GameState)
    requires s.status == Running ==> s.snake != []
    ensures t == Tick(s, draw)
  {
    if s.status != Running {
      return s;
    }
    var direction := Effective(s);
    var vector := Vector(direction);
    var (headRow, headCol) := s.snake[|s.snake| - 1];
    var nextHead := (headRow + vector.0, headCol + vector.1);
    if nextHead.0 < 0 || nextHead.0 >= s.rows || nextHead.1 < 0 || nextHead.1 >= s.cols {
      return s.(status := Over);
    }
    var occupies := CellSet(s.snake);
    if nextHead in occupies {
      return s.(status := Over);
    }
    var ateFood := s.food.Some? && nextHead.0 == s.food.value.0 && nextHead.1 == s.food.value.1;
    var newSnake := s.snake + [nextHead];
    var newScore := s.score;
    if !ateFood {
      newSnake := newSnake[1..];
    } else {
      newScore := newScore + ScorePerFood;
    }
    var updated := s.(direction := direction, nextDirection := Some(direction),
                      snake := newSnake, score := newScore);
    if ateFood {
      t := PlaceFood(updated, draw);
    } else {
      t := updated;
    }
  }
}
