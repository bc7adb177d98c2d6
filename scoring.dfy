/** Scoring, levels and the drop interval. */
module Scoring {

  /** Drop interval of a new game, its floor and its step per level, in ms. */
  const START_DELAY: int := 600
  const MIN_DELAY: int := 80
  const DELAY_STEP: int := 40
  const LINES_PER_LEVEL: nat := 10

  /** Base points for clearing a number of rows at once; the score gains this
      times the current level. */
  function Points(cleared: nat): nat
  {
    match cleared
    case 1 => 40
    case 2 => 100
    case 3 => 300
    case 4 => 1200
    case _ => cleared * 300
  }

  /** The level reached after a total number of cleared lines. */
  function LevelFor(totalLines: nat): (level: nat)
    ensures level >= 1
    ensures (level - 1) * LINES_PER_LEVEL <= totalLines < level * LINES_PER_LEVEL
  {
    totalLines / LINES_PER_LEVEL + 1
  }

  /** The drop interval of a level. */
  function DelayFor(level: int): (d: int)
    ensures MIN_DELAY <= d
    ensures level >= 1 ==> d <= START_DELAY
  {
    var d := START_DELAY - (level - 1) * DELAY_STEP;
    if d < MIN_DELAY then MIN_DELAY else d
  }

  /** Clearing more rows at once is always worth more, and never more than 300
      points per row. */
  lemma PointsIncrease(a: nat, b: nat)
    requires a < b
    ensures Points(a) < Points(b)
    ensures Points(b) <= 300 * b
  {
  }

  /** The level never goes down while lines accumulate. */
  lemma LevelMonotone(a: nat, b: nat)
    requires a <= b
    ensures LevelFor(a) <= LevelFor(b)
  {
  }

  /** The drop interval never increases as the level rises, and reaches its
      floor from level 14 on. */
  lemma DelayMonotone(a: int, b: int)
    requires a <= b
    ensures DelayFor(b) <= DelayFor(a)
    ensures b >= 14 ==> DelayFor(b) == MIN_DELAY
  {
  }
}
