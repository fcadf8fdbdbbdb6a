// Small option type used for the component's nullable state.
module Wrappers {
  datatype Option<+T> = None | Some(value: T)
}

/**
 * Coordinates, directions and the board arithmetic of the game: the
 * toroidal wrap used to compute the next head and the bounds test used in
 * Normal mode.  Rows and columns run from 1 to Size.
 */
module Grid {

  /** The board is Size x Size cells. */
  const Size: int := 15

  datatype Coord = Coord(row: int, col: int)

  /**
   * The four direction constants.  `changeDir` compares directions by
   * object identity; since every direction value it stores is one of these
   * four constants, identity coincides with equality of the enum.
   */
  datatype Direction = Up | Down | Left | Right {

    /** Row component of the unit step. */
    function DRow(): int {
      match this
      case Up => -1
      case Down => 1
      case Left => 0
      case Right => 0
    }

    /** Column component of the unit step. */
    function DCol(): int {
      match this
      case Up => 0
      case Down => 0
      case Left => -1
      case Right => 1
    }

    /** The opposite direction: the component-wise negation of the step. */
    function Reverse(): (r: Direction)
      ensures r.DRow() == -DRow() && r.DCol() == -DCol()
      ensures r != this
    {
      match this
      case Up => Down
      case Down => Up
      case Left => Right
      case Right => Left
    }
  }

  /** A cell of the board. */
  predicate InGrid(c: Coord) {
    1 <= c.row <= Size && 1 <= c.col <= Size
  }

  /** lodash `_.inRange(n, lo, hi)` for lo <= hi: the half-open test. */
  predicate InRange(n: int, lo: int, hi: int) {
    lo <= n < hi
  }

  /**
   * JavaScript's `%` on integers: the quotient is truncated towards zero,
   * so the remainder takes the sign of the dividend (Dafny's `%` does not).
   */
  function JsRem(a: int, b: int): (r: int)
    requires b > 0
    ensures a == b * JsQuot(a, b) + r
    ensures a >= 0 ==> 0 <= r < b
    ensures a <= 0 ==> -b < r <= 0
  {
    if a >= 0 then
      assert a == b * (a / b) + a % b;
      a % b
    else
      assert -a == b * ((-a) / b) + (-a) % b;
      -((-a) % b)
  }

  /** The quotient of JavaScript's division truncated towards zero, `Math.trunc(a / b)`. */
  function JsQuot(a: int, b: int): int
    requires b > 0
  {
    if a >= 0 then a / b else -((-a) / b)
  }

  /**
   * The wrap `((v - 1 + size) % size) + 1` used by `walk`.  It lands on the
   * board, congruent to v, for every v above -Size; below that the
   * truncating `%` leaves the board (see WrapLeavesBoardFarBelow).
   */
  function Wrap(v: int): (r: int)
    ensures v >= 1 - Size ==> 1 <= r <= Size
    ensures (r - v) % Size == 0
    ensures 1 <= v <= Size ==> r == v
  {
    WrapFacts(v);
    JsRem(v - 1 + Size, Size) + 1
  }

  lemma WrapFacts(v: int)
    ensures var r := JsRem(v - 1 + Size, Size) + 1;
      && (v >= 1 - Size ==> 1 <= r <= Size)
      && (r - v) % Size == 0
      && (1 <= v <= Size ==> r == v)
  {
    var a := v - 1 + Size;
    var q := JsQuot(a, Size);
    var r := JsRem(a, Size) + 1;
    assert a == Size * q + (r - 1);
    assert r - v == Size * (1 - q);
    if 1 <= v <= Size {
      assert a / Size == 1;
      assert r == a - Size + 1;
    }
  }

  /** The wrap is only meant for offsets of one step off the board. */
  lemma WrapLeavesBoardFarBelow()
    ensures Wrap(-Size) == 0
  {
    assert JsRem(-1, Size) == -1;
  }

  /** Every direction is a unit step along exactly one axis. */
  lemma UnitStep(d: Direction)
    ensures d.DRow() * d.DRow() + d.DCol() * d.DCol() == 1
    ensures -1 <= d.DRow() <= 1 && -1 <= d.DCol() <= 1
  {
  }

  /** True when a unit step from `head` in direction `d` leaves the board. */
  predicate HitsWall(head: Coord, d: Direction) {
    !(InRange(head.row + d.DRow(), 1, Size + 1) && InRange(head.col + d.DCol(), 1, Size + 1))
  }

  /** `inRange(x, 1, size + 1)` is the closed range [1,Size]; a wall hit is a step off it. */
  lemma HitsWallOffBoard(head: Coord, d: Direction)
    ensures HitsWall(head, d) <==> !InGrid(Coord(head.row + d.DRow(), head.col + d.DCol()))
  {
  }

  /**
   * The next head cell: the step wrapped on both axes.  From a board cell it
   * is again a board cell; it is the plain step when that stays on the
   * board, and a step past an edge re-enters at the opposite edge.
   */
  function NextHead(head: Coord, d: Direction): (r: Coord)
    ensures InGrid(head) ==> InGrid(r)
    ensures InGrid(head) && !HitsWall(head, d) ==> r == Coord(head.row + d.DRow(), head.col + d.DCol())
    ensures InGrid(head) && d == Up && head.row == 1 ==> r == Coord(Size, head.col)
    ensures InGrid(head) && d == Down && head.row == Size ==> r == Coord(1, head.col)
    ensures InGrid(head) && d == Left && head.col == 1 ==> r == Coord(head.row, Size)
    ensures InGrid(head) && d == Right && head.col == Size ==> r == Coord(head.row, 1)
  {
    Coord(Wrap(head.row + d.DRow()), Wrap(head.col + d.DCol()))
  }
}
