/**
 * Level and tick delay, derived from the score by the two effects of the
 * component: one level per 5 points, and a delay of 250 ms divided by the
 * level, rounded as `Math.round` does (half up).
 */
module Speed {

  /** `Math.floor(score / 5) + 1`: level l covers the scores 5(l-1) to 5l-1. */
  function Level(score: nat): (l: nat)
    ensures l >= 1
    ensures 5 * (l - 1) <= score < 5 * l
  {
    score / 5 + 1
  }

  /**
   * `Math.round(250 / level)` in integer arithmetic: the result is the
   * integer d with d - 1/2 <= 250/level < d + 1/2.
   */
  function Delay(level: nat): (d: int)
    requires level >= 1
    ensures d >= 0
    ensures (d as real) - 0.5 <= 250.0 / (level as real) < (d as real) + 0.5
  {
    var d := (500 + level) / (2 * level);
    RoundHalfUp(level, d);
    d
  }

  lemma RoundHalfUp(level: nat, d: int)
    requires level >= 1 && d == (500 + level) / (2 * level)
    ensures d >= 0
    ensures (d as real) - 0.5 <= 250.0 / (level as real) < (d as real) + 0.5
  {
    var n := 500 + level;
    var m := 2 * level;
    assert m * d <= n < m * d + m by {
      assert n == m * (n / m) + n % m;
    }
    var L := level as real;
    var x := 250.0 / L;
    assert x * L == 250.0;
    var D := d as real;
    assert 2.0 * L * D - L <= 500.0 < 2.0 * L * D + L by {
      assert (m * d) as real == 2.0 * L * D;
    }
    assert (D - 0.5) * L <= x * L;
    assert x * L < (D + 0.5) * L;
  }

  /** The integer form of the rounding: 2l·d - l <= 500 < 2l·d + l. */
  lemma DelayBounds(level: nat)
    requires level >= 1
    ensures 2 * level * Delay(level) - level <= 500 < 2 * level * Delay(level) + level
  {
    var n := 500 + level;
    assert n == (2 * level) * (n / (2 * level)) + n % (2 * level);
  }

  lemma MulMono(a: int, b: int, c: int, e: int)
    requires 0 <= a <= b && 0 <= c <= e
    ensures a * c <= b * e
  {
    assert a * c <= b * c;
  }

  /** Level never falls as the score rises. */
  lemma LevelMonotone(s1: nat, s2: nat)
    requires s1 <= s2
    ensures Level(s1) <= Level(s2)
  {
  }

  /** The delay never grows as the level rises: speed never decreases. */
  lemma DelayAntitone(l1: nat, l2: nat)
    requires 1 <= l1 <= l2
    ensures Delay(l2) <= Delay(l1)
  {
    var d1, d2 := Delay(l1), Delay(l2);
    DelayBounds(l1);
    DelayBounds(l2);
    assert l1 * (2 * d1 + 1) > 500;
    assert l2 * (2 * d2 - 1) <= 500;
    if d2 > d1 {
      MulMono(l1, l2, 2 * d1 + 1, 2 * d2 - 1);
      assert false;
    }
  }

  /** The game starts at level 1, 250 ms per tick. */
  lemma StartingSpeed()
    ensures Level(0) == 1 && Delay(Level(0)) == 250
  {
  }

  /** Delay as a function of the score. */
  function ScoreDelay(score: nat): (d: int)
    ensures d >= 0
  {
    Delay(Level(score))
  }

  /** A higher score never gives a slower game. */
  lemma ScoreDelayAntitone(s1: nat, s2: nat)
    requires s1 <= s2
    ensures Level(s1) <= Level(s2) && ScoreDelay(s2) <= ScoreDelay(s1)
  {
    LevelMonotone(s1, s2);
    DelayAntitone(Level(s1), Level(s2));
  }
}
