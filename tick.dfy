/**
 * The pure part of one tick of `walk`: from the pre-tick snake, the
 * direction being applied and the food cell, what happens to the snake.
 * Food replacement and the score are applied by the game on top of this.
 */
module Tick {
  import opened Grid
  import opened Body

  /** Normal: the board has walls.  Infinite: the board wraps. */
  datatype Mode = Normal | Infinite

  /**
   * The result of a tick.  `ate` says that the new head lands on the food;
   * it is reported on a self-collision too, because `walk` bumps the
   * score and replaces the food before it checks for the collision.
   */
  datatype Outcome = HitWall | HitSelf(ate: bool) | Moved(ate: bool, snake: seq<Segment>) {
    predicate Ate() {
      !HitWall? && ate
    }
  }

  /** One tick of `walk`, in the order of its checks. */
  function Step(mode: Mode, s: seq<Segment>, d: Direction, food: Coord): Outcome
    requires |s| >= 1
  {
    var head := s[0].cell;
    if mode == Normal && HitsWall(head, d) then HitWall
    else
      var newCell := NextHead(head, d);
      var willEat := newCell == food;
      var body := NewBody(s);
      if Occupied(newCell, body) then HitSelf(willEat)
      else Moved(willEat, [Segment(newCell, willEat)] + body)
  }

  /** A tick hits the wall exactly in Normal mode when the plain step leaves [1,Size]^2. */
  lemma WallDeath(mode: Mode, s: seq<Segment>, d: Direction, food: Coord)
    requires |s| >= 1
    ensures Step(mode, s, d, food).HitWall? <==>
      mode == Normal &&
      !(1 <= s[0].cell.row + d.DRow() <= Size && 1 <= s[0].cell.col + d.DCol() <= Size)
  {
  }

  /** Eating means landing the new head on the food cell. */
  lemma Eating(mode: Mode, s: seq<Segment>, d: Direction, food: Coord)
    requires |s| >= 1
    ensures var t := Step(mode, s, d, food);
      !t.HitWall? ==> (t.Ate() <==> NextHead(s[0].cell, d) == food)
    ensures var t := Step(mode, s, d, food);
      t.Moved? && t.ate ==> t.snake[0] == Segment(food, true)
  {
  }

  /**
   * Self-collision, stated on the pre-tick snake: the new head meets a
   * segment other than the tail, or the tail when it carries food.  A tail
   * without food vacates its cell, so stepping into it is no collision.
   */
  lemma SelfCollision(mode: Mode, s: seq<Segment>, d: Direction, food: Coord)
    requires |s| >= 1
    ensures var t := Step(mode, s, d, food); var nh := NextHead(s[0].cell, d);
      t.HitSelf? <==>
        !t.HitWall? &&
        (Occupied(nh, s[..|s| - 1]) || (s[|s| - 1].hasFood && s[|s| - 1].cell == nh))
  {
    OccupiedNewBody(NextHead(s[0].cell, d), s);
  }

  /** Stepping into the cell of a tail without food, on a snake without overlaps, moves the snake. */
  lemma VacatedTailIsSafe(mode: Mode, s: seq<Segment>, d: Direction, food: Coord)
    requires |s| >= 2 && Distinct(s)
    requires !s[|s| - 1].hasFood && NextHead(s[0].cell, d) == s[|s| - 1].cell
    requires mode == Infinite || !HitsWall(s[0].cell, d)
    ensures Step(mode, s, d, food).Moved?
  {
    SelfCollision(mode, s, d, food);
    var front := s[..|s| - 1];
    assert forall i | 0 <= i < |front| :: front[i] == s[i];
  }

  /**
   * A moving tick puts the new head, flagged when it eats, in front of the
   * snake without its tail; the tail stays, flag cleared, only when it
   * carries food.  So every food flag moves one segment back.
   */
  lemma MovedShape(mode: Mode, s: seq<Segment>, d: Direction, food: Coord)
    requires |s| >= 1
    requires Step(mode, s, d, food).Moved?
    ensures var t := Step(mode, s, d, food);
      t.snake == [Segment(NextHead(s[0].cell, d), t.ate)] + s[..|s| - 1] + KeptTail(s)
    ensures var t := Step(mode, s, d, food);
      forall i | 0 <= i < |s| - 1 :: t.snake[i + 1] == s[i]
  {
    NewBodyShape(s);
  }

  /**
   * Length: kept on an ordinary tick, one more on the tick a food-carrying
   * tail is reached.
   */
  lemma MovedLength(mode: Mode, s: seq<Segment>, d: Direction, food: Coord)
    requires |s| >= 1
    requires Step(mode, s, d, food).Moved?
    ensures |Step(mode, s, d, food).snake| == |s| + (if s[|s| - 1].hasFood then 1 else 0)
  {
    MovedShape(mode, s, d, food);
  }

  /**
   * Length plus food still being digested grows by exactly one on an
   * eating tick and is kept on every other moving tick.
   */
  lemma GrowthBudget(mode: Mode, s: seq<Segment>, d: Direction, food: Coord)
    requires |s| >= 1
    requires Step(mode, s, d, food).Moved?
    ensures var t := Step(mode, s, d, food);
      |t.snake| + Pending(t.snake) == |s| + Pending(s) + (if t.ate then 1 else 0)
  {
    var t := Step(mode, s, d, food);
    var body := NewBody(s);
    MovedLength(mode, s, d, food);
    NewBodyPending(s);
    var head := Segment(NextHead(s[0].cell, d), t.ate);
    assert t.snake == [head] + body;
    PendingAppend([head], body);
    assert Pending([head]) == (if t.ate then 1 else 0) + Pending([]);
  }

  /** A moving tick keeps the snake on the board. */
  lemma MovedInGrid(mode: Mode, s: seq<Segment>, d: Direction, food: Coord)
    requires |s| >= 1 && AllInGrid(s)
    requires Step(mode, s, d, food).Moved?
    ensures AllInGrid(Step(mode, s, d, food).snake)
  {
    MovedShape(mode, s, d, food);
    var t := Step(mode, s, d, food);
    forall i | 0 <= i < |t.snake|
      ensures InGrid(t.snake[i].cell)
    {
      if 1 <= i < |s| {
        assert t.snake[i].cell == s[i - 1].cell;
      } else if i == |s| {
        assert t.snake[i].cell == s[|s| - 1].cell;
      }
    }
  }

  /** A moving tick never makes the snake overlap itself. */
  lemma MovedDistinct(mode: Mode, s: seq<Segment>, d: Direction, food: Coord)
    requires |s| >= 1 && Distinct(s)
    requires Step(mode, s, d, food).Moved?
    ensures Distinct(Step(mode, s, d, food).snake)
  {
    NewBodyShape(s);
    var t := Step(mode, s, d, food);
    var body := NewBody(s);
    assert t.snake == [t.snake[0]] + body;
    assert !Occupied(t.snake[0].cell, body);
    assert forall k | 0 <= k < |body| :: body[k].cell == s[k].cell;
    forall i, j | 0 <= i < j < |t.snake|
      ensures t.snake[i].cell != t.snake[j].cell
    {
      if i == 0 {
        assert t.snake[j] == body[j - 1];
      } else {
        assert t.snake[i].cell == s[i - 1].cell && t.snake[j].cell == s[j - 1].cell;
      }
    }
  }

  /** The first tick from the initial snake, heading left, food elsewhere, in Normal mode. */
  lemma FirstTick(food: Coord)
    requires food != Coord(10, 9)
    ensures Step(Normal, InitialSnake, Left, food) == Moved(false, [
      Segment(Coord(10, 9), false),
      Segment(Coord(10, 10), false),
      Segment(Coord(10, 11), false),
      Segment(Coord(10, 12), false)
    ])
  {
    NewBodyShape(InitialSnake);
  }
}
