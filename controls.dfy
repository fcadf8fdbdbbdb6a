/**
 * Direction input (`changeDir`): arrow key codes, and the rule that a key
 * whose direction is the reverse of the direction last applied by a tick
 * is ignored.
 */
module Controls {
  import opened Wrappers
  import opened Grid

  /** Key codes 37 to 40 are Left, Up, Right and Down; every other code is no arrow. */
  function KeyDirection(keyCode: int): (r: Option<Direction>)
    ensures r.Some? <==> 37 <= keyCode <= 40
  {
    match keyCode
    case 37 => Some(Left)
    case 38 => Some(Up)
    case 39 => Some(Right)
    case 40 => Some(Down)
    case _ => None
  }

  /** The key code of each arrow; the inverse of KeyDirection on the arrow keys. */
  function KeyCode(d: Direction): (k: int)
    ensures KeyDirection(k) == Some(d)
  {
    match d
    case Left => 37
    case Up => 38
    case Right => 39
    case Down => 40
  }

  /** Every arrow key code is the code of the direction it names. */
  lemma KeyCodeRoundTrip(keyCode: int)
    requires KeyDirection(keyCode).Some?
    ensures KeyCode(KeyDirection(keyCode).value) == keyCode
  {
  }

  /**
   * The pending direction after a key press while the game runs: the
   * `switch` of `changeDir`, where `dir` is the direction last applied
   * (None before the first tick of a fresh component).
   */
  function Steer(dir: Option<Direction>, pending: Direction, keyCode: int): (r: Direction)
    ensures r == pending || KeyDirection(keyCode) == Some(r)
    ensures dir.Some? && r != pending ==> r != dir.value.Reverse()
  {
    match keyCode
    case 37 => if dir != Some(Right) then Left else pending
    case 38 => if dir != Some(Down) then Up else pending
    case 39 => if dir != Some(Left) then Right else pending
    case 40 => if dir != Some(Up) then Down else pending
    case _ => pending
  }

  /** A key that is no arrow leaves the pending direction alone. */
  lemma SteerIgnoresOtherKeys(dir: Option<Direction>, pending: Direction, keyCode: int)
    requires KeyDirection(keyCode).None?
    ensures Steer(dir, pending, keyCode) == pending
  {
  }

  /**
   * An arrow is taken exactly when it is not the reverse of the applied
   * direction; otherwise the pending direction stays.
   */
  lemma SteerAcceptsUnlessReverse(dir: Option<Direction>, pending: Direction, d: Direction)
    ensures Steer(dir, pending, KeyCode(d)) == d <==> (dir != Some(d.Reverse()) || pending == d)
    ensures dir == Some(d.Reverse()) ==> Steer(dir, pending, KeyCode(d)) == pending
  {
  }

  /**
   * Once the pending direction is not the reverse of the applied one, no
   * key press makes it so.
   */
  lemma SteerNeverReverses(dir: Option<Direction>, pending: Direction, keyCode: int)
    requires dir.Some? ==> pending != dir.value.Reverse()
    ensures var r := Steer(dir, pending, keyCode); dir.Some? ==> r != dir.value.Reverse()
  {
  }

  /**
   * The test is against the applied direction, not the pending one: moving
   * left with Up pending, Right is still refused.
   */
  lemma SteerChecksAppliedDirection()
    ensures Steer(Some(Left), Up, KeyCode(Right)) == Up
    ensures Steer(Some(Left), Up, KeyCode(Down)) == Down
  {
  }
}
