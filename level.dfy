/** The "result" stage: the blink count measured by the camera stage
    selects one of four games. */
module Levels {

  /** The if/elif chain on the blink count: under 10 blinks is level 1
      (reaction game), under 20 level 2 (mental arithmetic), under 30
      level 3 (memory) and anything else level 4 (breathing). The chain has
      no lower bound, so a negative count would also give level 1. */
  function SelectLevel(blinkCount: int): (level: int)
    ensures 1 <= level <= 4
    ensures blinkCount < 0 ==> level == 1
    ensures blinkCount >= 0 ==> level == if blinkCount >= 30 then 4 else blinkCount / 10 + 1
  {
    if blinkCount < 10 then 1
    else if blinkCount < 20 then 2
    else if blinkCount < 30 then 3
    else 4
  }

  /** More blinks never select a lower level. */
  lemma SelectLevelMonotone(fewer: int, more: int)
    requires fewer <= more
    ensures SelectLevel(fewer) <= SelectLevel(more)
  {
  }

  /** The level changes exactly at the thresholds 10, 20 and 30. */
  lemma SelectLevelBoundaries()
    ensures SelectLevel(0) == 1 && SelectLevel(9) == 1
    ensures SelectLevel(10) == 2 && SelectLevel(19) == 2
    ensures SelectLevel(20) == 3 && SelectLevel(29) == 3
    ensures SelectLevel(30) == 4
  {
  }

  /** Every level is selected by some count: level l by the counts
      10 * (l - 1) up to 10 * l - 1, and level 4 by every count from 30 on. */
  lemma SelectLevelOnto(level: int)
    requires 1 <= level <= 4
    ensures SelectLevel(10 * (level - 1)) == level
    ensures level < 4 ==> SelectLevel(10 * level - 1) == level
  {
  }
}
