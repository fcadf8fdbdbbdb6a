/**
 * The snake's body: segments, the initial snake, occupancy of cells, and
 * the body the snake keeps behind its new head on a tick (the `reduce` in
 * `walk`).
 */
module Body {
  import opened Grid

  /** A body cell; `hasFood` marks a segment that carries a food being digested. */
  datatype Segment = Segment(cell: Coord, hasFood: bool)

  /** Row 10, columns 10 to 13, head first, no food flags. */
  const InitialSnake: seq<Segment> := [
    Segment(Coord(10, 10), false),
    Segment(Coord(10, 11), false),
    Segment(Coord(10, 12), false),
    Segment(Coord(10, 13), false)
  ]

  /** The initial snake lies on row 10, columns 10 to 13, on the board, without overlaps or food. */
  lemma InitialSnakeShape()
    ensures |InitialSnake| == 4
    ensures forall i | 0 <= i < 4 :: InitialSnake[i] == Segment(Coord(10, 10 + i), false)
    ensures AllInGrid(InitialSnake) && Distinct(InitialSnake) && Pending(InitialSnake) == 0
  {
    assert Pending(InitialSnake) == Pending(InitialSnake[1..]);
    assert Pending(InitialSnake[1..]) == Pending(InitialSnake[2..]);
    assert Pending(InitialSnake[2..]) == Pending(InitialSnake[3..]);
    assert Pending(InitialSnake[3..]) == Pending(InitialSnake[4..]);
  }

  /** `snake.some(body => body.col === c.col && body.row === c.row)`. */
  predicate Occupied(c: Coord, s: seq<Segment>) {
    exists i | 0 <= i < |s| :: s[i].cell == c
  }

  /** A cell that food may be placed on: on the board and off the snake. */
  predicate IsFree(c: Coord, s: seq<Segment>) {
    InGrid(c) && !Occupied(c, s)
  }

  /** Some cell of the board is not covered by the snake. */
  ghost predicate HasFreeCell(s: seq<Segment>) {
    exists c :: IsFree(c, s)
  }

  predicate AllInGrid(s: seq<Segment>) {
    forall i | 0 <= i < |s| :: InGrid(s[i].cell)
  }

  /** No two segments share a cell. */
  predicate Distinct(s: seq<Segment>) {
    forall i, j | 0 <= i < j < |s| :: s[i].cell != s[j].cell
  }

  /** Number of segments that carry food. */
  function Pending(s: seq<Segment>): nat {
    if s == [] then 0 else (if s[0].hasFood then 1 else 0) + Pending(s[1..])
  }

  /** The segment a tick keeps in place of the tail: the tail, flag cleared, if it carries food. */
  function KeptTail(s: seq<Segment>): seq<Segment>
    requires |s| >= 1
  {
    var tail := s[|s| - 1];
    if tail.hasFood then [tail.(hasFood := false)] else []
  }

  /** The callback given to `snake.reduce` in `walk`. */
  function KeepSegment(cells: seq<Segment>, cell: Segment, index: int, length: int): seq<Segment> {
    if index != length - 1 then cells + [cell]
    else if cell.hasFood then cells + [cell.(hasFood := false)]
    else cells
  }

  /** `reduce` over `s` from `index`, with accumulator `acc`. */
  function FoldBody(s: seq<Segment>, index: nat, acc: seq<Segment>): seq<Segment>
    requires index <= |s|
    decreases |s| - index
  {
    if index == |s| then acc
    else FoldBody(s, index + 1, KeepSegment(acc, s[index], index, |s|))
  }

  /** `snake.reduce(KeepSegment, [])`. */
  function NewBody(s: seq<Segment>): seq<Segment> {
    FoldBody(s, 0, [])
  }

  lemma {:induction false} FoldBodyFrom(s: seq<Segment>, index: nat, acc: seq<Segment>)
    requires index < |s|
    ensures FoldBody(s, index, acc) == acc + s[index..|s| - 1] + KeptTail(s)
    decreases |s| - index
  {
    if index == |s| - 1 {
      assert s[index..|s| - 1] == [];
    } else {
      FoldBodyFrom(s, index + 1, acc + [s[index]]);
      assert s[index..|s| - 1] == [s[index]] + s[index + 1..|s| - 1];
    }
  }

  /**
   * The new body is the snake without its tail, followed by the tail with
   * its flag cleared when the tail carries food.
   */
  lemma NewBodyShape(s: seq<Segment>)
    ensures s == [] ==> NewBody(s) == []
    ensures s != [] ==> NewBody(s) == s[..|s| - 1] + KeptTail(s)
  {
    if s != [] {
      FoldBodyFrom(s, 0, []);
    }
  }

  lemma OccupiedAppend(c: Coord, a: seq<Segment>, b: seq<Segment>)
    ensures Occupied(c, a + b) <==> Occupied(c, a) || Occupied(c, b)
  {
    if Occupied(c, a + b) {
      var i :| 0 <= i < |a + b| && (a + b)[i].cell == c;
      if i >= |a| {
        assert b[i - |a|].cell == c;
      }
    }
    if Occupied(c, a) {
      var i :| 0 <= i < |a| && a[i].cell == c;
      assert (a + b)[i].cell == c;
    }
    if Occupied(c, b) {
      var i :| 0 <= i < |b| && b[i].cell == c;
      assert (a + b)[|a| + i].cell == c;
    }
  }

  /**
   * A cell is covered by the new body iff a non-tail segment covers it, or
   * the tail does and carries food.
   */
  lemma OccupiedNewBody(c: Coord, s: seq<Segment>)
    requires s != []
    ensures Occupied(c, NewBody(s)) <==>
      Occupied(c, s[..|s| - 1]) || (s[|s| - 1].hasFood && s[|s| - 1].cell == c)
  {
    NewBodyShape(s);
    OccupiedAppend(c, s[..|s| - 1], KeptTail(s));
    if s[|s| - 1].hasFood {
      assert KeptTail(s)[0].cell == s[|s| - 1].cell;
    }
  }

  lemma {:induction false} PendingAppend(a: seq<Segment>, b: seq<Segment>)
    ensures Pending(a + b) == Pending(a) + Pending(b)
  {
    if a == [] {
      assert a + b == b;
    } else {
      PendingAppend(a[1..], b);
      assert (a + b)[1..] == a[1..] + b;
    }
  }

  /** The food flags of the new body: those of the snake, less the tail's. */
  lemma NewBodyPending(s: seq<Segment>)
    requires s != []
    ensures Pending(NewBody(s)) + (if s[|s| - 1].hasFood then 1 else 0) == Pending(s)
  {
    NewBodyShape(s);
    var tail := s[|s| - 1];
    assert s == s[..|s| - 1] + [tail];
    PendingAppend(s[..|s| - 1], [tail]);
    PendingAppend(s[..|s| - 1], KeptTail(s));
    assert Pending([tail]) == (if tail.hasFood then 1 else 0);
    assert Pending(KeptTail(s)) == 0 by {
      if tail.hasFood {
        assert Pending(KeptTail(s)) == 0 + Pending([]);
      }
    }
  }
}
