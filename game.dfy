/**
 * The `App` component's game state and its handlers: `walk` (one tick),
 * `changeDir`, `start`, `pause`, `die`, `reset`, the mode buttons, and the
 * food placement `randFood`.  React applies the setters of a handler after
 * it returns, so every read in a handler sees the state before it; the
 * methods below read the old fields and commit all writes together.
 */
module Game {
  import opened Wrappers
  import opened Grid
  import opened Body
  import opened Tick
  import opened Controls
  import Speed

  /** The component's state fields, as a value. */
  datatype View = View(
    mode: Mode,
    dead: bool,
    score: nat,
    snake: seq<Segment>,
    dir: Option<Direction>,
    nextDir: Direction,
    food: Coord,
    isRunning: bool)

  /**
   * The invariant every handler keeps: the snake is non-empty, on the board
   * and without overlaps, the food is on the board, and the pending
   * direction is never the reverse of the direction last applied.
   */
  predicate ValidView(v: View) {
    && |v.snake| >= 1
    && AllInGrid(v.snake)
    && Distinct(v.snake)
    && InGrid(v.food)
    && (v.dir.Some? ==> v.nextDir != v.dir.value.Reverse())
  }

  /**
   * One `walk` from `a` to `b`: the pending direction is applied; a wall hit
   * or a self-collision kills (`die`) and leaves the snake; eating bumps the
   * score by one and moves the food to a cell off the pre-tick snake, even
   * when the tick then dies of a self-collision; otherwise the food and the
   * score stay.
   */
  predicate Walked(a: View, b: View)
    requires |a.snake| >= 1
  {
    var t := Step(a.mode, a.snake, a.nextDir, a.food);
    && b.mode == a.mode
    && b.dir == Some(a.nextDir)
    && b.nextDir == a.nextDir
    && b.snake == (if t.Moved? then t.snake else a.snake)
    && b.dead == (a.dead || !t.Moved?)
    && b.isRunning == (a.isRunning && t.Moved?)
    && (if t.Ate() then b.score == a.score + 1 && IsFree(b.food, a.snake)
        else b.score == a.score && b.food == a.food)
  }

  /** Every tick keeps the invariant. */
  lemma WalkKeepsValid(a: View, b: View)
    requires ValidView(a) && Walked(a, b)
    ensures ValidView(b)
  {
    var t := Step(a.mode, a.snake, a.nextDir, a.food);
    if t.Moved? {
      MovedInGrid(a.mode, a.snake, a.nextDir, a.food);
      MovedDistinct(a.mode, a.snake, a.nextDir, a.food);
    }
  }

  /** In Normal mode a wall hit kills and changes nothing but the direction. */
  lemma WallHitKeepsBoard(a: View, b: View)
    requires |a.snake| >= 1 && Walked(a, b)
    requires a.mode == Normal && HitsWall(a.snake[0].cell, a.nextDir)
    ensures b.dead && !b.isRunning && b.dir == Some(a.nextDir)
    ensures b.snake == a.snake && b.food == a.food && b.score == a.score
  {
  }

  /** Score, and hence level, never fall on a tick, and the delay never grows. */
  lemma WalkNeverSlowsDown(a: View, b: View)
    requires |a.snake| >= 1 && Walked(a, b)
    ensures a.score <= b.score
    ensures Speed.Level(a.score) <= Speed.Level(b.score)
    ensures Speed.ScoreDelay(b.score) <= Speed.ScoreDelay(a.score)
  {
    Speed.ScoreDelayAntitone(a.score, b.score);
  }

  /**
   * Food is placed off the pre-tick snake, so the cell just eaten stays
   * eligible: the new food may be placed under the new head.
   */
  lemma EatenCellStaysEligible(a: View)
    requires ValidView(a) && !Occupied(a.food, a.snake)
    requires Step(a.mode, a.snake, a.nextDir, a.food).Moved? && Step(a.mode, a.snake, a.nextDir, a.food).ate
    ensures var t := Step(a.mode, a.snake, a.nextDir, a.food);
      IsFree(t.snake[0].cell, a.snake) && Occupied(t.snake[0].cell, t.snake)
  {
    Eating(a.mode, a.snake, a.nextDir, a.food);
  }

  /**
   * `reset` places the food off the snake it replaces, not off the initial
   * snake: after a snake along row 1, columns 1 to 4, the food may land on
   * (10,10), the initial head.
   */
  lemma ResetFoodMayCoverInitialSnake()
    ensures var before := [
      Segment(Coord(1, 1), false), Segment(Coord(1, 2), false),
      Segment(Coord(1, 3), false), Segment(Coord(1, 4), false)];
      ValidView(View(Normal, true, 0, before, Some(Left), Left, Coord(5, 5), false)) &&
      IsFree(Coord(10, 10), before)
    ensures Occupied(Coord(10, 10), InitialSnake)
  {
    assert InitialSnake[0].cell == Coord(10, 10);
  }

  /**
   * `randFood`: a random cell, drawn again while the snake covers it.  Its
   * result is modelled by its postcondition: some free cell.
   */
  method RandFood(s: seq<Segment>) returns (f: Coord)
    requires HasFreeCell(s)
    ensures IsFree(f, s)
  {
    f :| IsFree(f, s);
  }

  lemma InitialSnakeLeavesRoom()
    ensures HasFreeCell(InitialSnake)
  {
    assert IsFree(Coord(1, 1), InitialSnake);
  }

  class SnakeGame {
    var mode: Mode
    var dead: bool
    var score: nat
    var snake: seq<Segment>
    var dir: Option<Direction>
    var nextDir: Direction
    var food: Coord
    var isRunning: bool

    function Snapshot(): View
      reads this
    {
      View(mode, dead, score, snake, dir, nextDir, food, isRunning)
    }

    ghost predicate Valid()
      reads this
    {
      ValidView(Snapshot())
    }

    /** The level shown to the player. */
    function Level(): (l: nat)
      reads this
      ensures l >= 1
    {
      Speed.Level(score)
    }

    /** The tick interval in milliseconds. */
    function Delay(): (d: int)
      reads this
      ensures d >= 0
    {
      Speed.ScoreDelay(score)
    }

    /**
     * A fresh component: Normal mode, initial snake, no direction applied yet
     * and Left pending, score 0, stopped, food off the snake.
     */
    constructor ()
      ensures Valid()
      ensures mode == Normal && !dead && score == 0 && snake == InitialSnake
      ensures dir == None && nextDir == Left && !isRunning
      ensures IsFree(food, InitialSnake)
    {
      InitialSnakeLeavesRoom();
      var f := RandFood(InitialSnake);
      mode := Normal;
      dead := false;
      score := 0;
      snake := InitialSnake;
      dir := None;
      nextDir := Left;
      food := f;
      isRunning := false;
    }

    /** `start`. */
    method Start()
      requires Valid()
      modifies this
      ensures Valid()
      ensures Snapshot() == old(Snapshot()).(isRunning := true)
    {
      isRunning := true;
    }

    /** `pause`. */
    method Pause()
      requires Valid()
      modifies this
      ensures Valid()
      ensures Snapshot() == old(Snapshot()).(isRunning := false)
    {
      isRunning := false;
    }

    /** `die`. */
    method Die()
      requires Valid()
      modifies this
      ensures Valid()
      ensures Snapshot() == old(Snapshot()).(dead := true, isRunning := false)
    {
      dead := true;
      isRunning := false;
    }

    /** The mode buttons, which are disabled while the game runs. */
    method SetMode(m: Mode)
      requires Valid()
      modifies this
      ensures Valid()
      ensures Snapshot() == if old(isRunning) then old(Snapshot()) else old(Snapshot()).(mode := m)
    {
      if !isRunning {
        mode := m;
      }
    }

    /**
     * `reset`: initial snake, Left applied and pending, score 0, stopped and
     * alive.  New food is drawn off the snake being replaced.
     */
    method Reset()
      requires HasFreeCell(snake)
      modifies this
      ensures Valid()
      ensures mode == old(mode) && !isRunning && !dead && snake == InitialSnake
      ensures dir == Some(Left) && nextDir == Left && score == 0
      ensures IsFree(food, old(snake))
    {
      var f := RandFood(snake);
      isRunning := false;
      dead := false;
      snake := InitialSnake;
      dir := Some(Left);
      nextDir := Left;
      food := f;
      score := 0;
    }

    /** `walk`: one tick.  Drawing new food needs a free cell. */
    method Walk()
      requires Valid()
      requires Step(mode, snake, nextDir, food).Ate() ==> HasFreeCell(snake)
      modifies this
      ensures Valid()
      ensures Walked(old(Snapshot()), Snapshot())
    {
      ghost var before := Snapshot();
      var pre := snake;
      dir := Some(nextDir);
      var head := pre[0].cell;
      if mode == Normal &&
         !(InRange(head.row + nextDir.DRow(), 1, Size + 1) && InRange(head.col + nextDir.DCol(), 1, Size + 1))
      {
        dead := true;
        isRunning := false;
        return;
      }
      var newRow := Wrap(head.row + nextDir.DRow());
      var newCol := Wrap(head.col + nextDir.DCol());
      var willEatFood := food.row == newRow && food.col == newCol;
      var newHead := Segment(Coord(newRow, newCol), willEatFood);
      if willEatFood {
        var f := RandFood(pre);
        food := f;
        score := score + 1;
      }
      var newBody := NewBody(pre);
      if Occupied(newHead.cell, newBody) {
        dead := true;
        isRunning := false;
        return;
      }
      snake := [newHead] + newBody;
      WalkKeepsValid(before, Snapshot());
    }

    /** The interval timer: a tick runs `walk` only while the game runs. */
    method Tick()
      requires Valid()
      requires isRunning && Step(mode, snake, nextDir, food).Ate() ==> HasFreeCell(snake)
      modifies this
      ensures Valid()
      ensures if old(isRunning) then Walked(old(Snapshot()), Snapshot()) else Snapshot() == old(Snapshot())
    {
      if isRunning {
        Walk();
      }
    }

    /**
     * `changeDir`: ignored while stopped; otherwise an arrow key sets the
     * pending direction unless it reverses the applied one.
     */
    method ChangeDir(keyCode: int)
      requires Valid()
      modifies this
      ensures Valid()
      ensures Snapshot() == old(Snapshot()).(nextDir := if old(isRunning) then Steer(old(dir), old(nextDir), keyCode) else old(nextDir))
    {
      if !isRunning {
        return;
      }
      match keyCode {
        case 37 =>
          if dir != Some(Right) {
            nextDir := Left;
          }
        case 38 =>
          if dir != Some(Down) {
            nextDir := Up;
          }
        case 39 =>
          if dir != Some(Left) {
            nextDir := Right;
          }
        case 40 =>
          if dir != Some(Up) {
            nextDir := Down;
          }
        case _ =>
      }
    }
  }
}
