/** Level progression and the gravity clock: the two ten-entry tables indexed by
    `level - 1`, the line-count rule of `increase_line`, and the threshold test
    of `is_time_over`. */
module Levels {

  import opened Wrappers

  /** `LEVEL_TIMES`: milliseconds between gravity steps at each level. */
  const LevelTimes: seq<nat> := [1000, 850, 700, 600, 500, 400, 300, 250, 221, 190]

  /** `LEVEL_LINES`: the line count a level must exceed to advance. */
  const LevelLines: seq<nat> := [20, 40, 60, 80, 100, 120, 140, 160, 180, 200]

  /** The levels both tables have an entry for. */
  predicate InTable(level: int)
  {
    1 <= level <= 10
  }

  /** The comparison of `is_time_over`: gravity is due once the elapsed time
      strictly exceeds the level's interval. `None` stands for the clock error
      branch, which never makes gravity due. */
  function IsTimeOver(level: int, elapsed: Option<nat>): (due: bool)
    requires elapsed.Some? ==> InTable(level)
    ensures due ==> elapsed.Some? && elapsed.value > 190
    ensures elapsed.Some? && elapsed.value > 1000 ==> due
  {
    match elapsed
    case None => false
    case Some(ms) => ms > LevelTimes[level - 1]
  }

  /** A clock error never makes gravity due, at any level: that branch does
      not consult the table. */
  lemma ClockErrorNeverDue(level: int)
    ensures !IsTimeOver(level, None)
  {
  }

  /** Once due, gravity stays due as time passes. */
  lemma DueStaysDue(level: int, ms: nat, later: nat)
    requires InTable(level) && ms <= later
    ensures IsTimeOver(level, Some(ms)) ==> IsTimeOver(level, Some(later))
  {
  }

  /** Each level's interval is shorter than the previous one's. */
  lemma TimesDecrease(i: nat)
    requires i + 1 < |LevelTimes|
    ensures LevelTimes[i + 1] < LevelTimes[i]
  {
  }

  /** Gravity due at some level is due at every higher level too. */
  lemma {:induction false} DueAtHigherLevel(low: int, high: int, elapsed: Option<nat>)
    requires InTable(low) && InTable(high) && low <= high
    ensures IsTimeOver(low, elapsed) ==> IsTimeOver(high, elapsed)
    decreases high - low
  {
    if low < high {
      DueAtHigherLevel(low, high - 1, elapsed);
      TimesDecrease(high - 2);
    }
  }

  /** `LEVEL_LINES` advances by 20 lines per level. */
  lemma LevelLinesStep(i: nat)
    requires i < |LevelLines|
    ensures LevelLines[i] == 20 * (i + 1)
  {
  }

  /** The `LEVEL_LINES` entry of a level. */
  function LinesFor(level: int): (n: nat)
    requires InTable(level)
    ensures n == 20 * level
  {
    LevelLinesStep(level - 1);
    LevelLines[level - 1]
  }

  /** The level check of `increase_line`, once the line count has been bumped
      to `lines`: one level up exactly when `lines` exceeds the current level's
      entry of `LEVEL_LINES`. There is no upper clamp. */
  function LevelAfter(level: int, lines: int): (r: int)
    requires InTable(level)
    ensures level <= r <= level + 1
  {
    if lines > LinesFor(level) then level + 1 else level
  }

  /** The level rises exactly when the line count passes 20 times the level. */
  lemma LevelAfterRises(level: int, lines: int)
    requires InTable(level)
    ensures LevelAfter(level, lines) == level + 1 <==> lines > 20 * level
  {
  }

  /** `n` successive calls of `increase_line` starting at (level, lines) all
      index the table in bounds. */
  predicate CanCount(level: int, lines: int, n: nat)
    decreases n
  {
    n == 0 || (InTable(level) && CanCount(LevelAfter(level, lines + 1), lines + 1, n - 1))
  }

  /** The level after `n` calls of `increase_line`. */
  function LevelAfterCount(level: int, lines: int, n: nat): (r: int)
    requires CanCount(level, lines, n)
    decreases n
    ensures level <= r <= level + n
  {
    if n == 0 then level
    else LevelAfterCount(LevelAfter(level, lines + 1), lines + 1, n - 1)
  }

  /** Runs of calls split at any point. */
  lemma {:induction false} CanCountSplit(level: int, lines: int, a: nat, b: nat)
    requires CanCount(level, lines, a + b)
    ensures CanCount(level, lines, a)
    ensures CanCount(LevelAfterCount(level, lines, a), lines + a, b)
    decreases a
  {
    if a > 0 {
      CanCountSplit(LevelAfter(level, lines + 1), lines + 1, a - 1, b);
    }
  }

  /** The level a game started at level 1 with no lines has reached after
      `lines` cleared lines. */
  function LevelFor(lines: nat): int
  {
    if lines == 0 then 1 else 1 + (lines - 1) / 20
  }

  /** One `increase_line` moves the closed form along, as long as the current
      level is still in the table. */
  lemma LevelForStep(lines: nat)
    requires lines <= 200
    ensures InTable(LevelFor(lines))
    ensures LevelAfter(LevelFor(lines), lines + 1) == LevelFor(lines + 1)
  {
    var v := LevelFor(lines);
    LevelLinesStep(v - 1);
  }

  /** The closed form without division: level v covers the counts from
      20 * (v - 1) + 1 to 20 * v, and a game with no lines is at level 1. */
  predicate LevelMatches(v: int, lines: nat)
  {
    if lines == 0 then v == 1 else 20 * (v - 1) < lines <= 20 * v
  }

  lemma LevelForMatches(lines: nat, v: int)
    ensures LevelMatches(v, lines) <==> v == LevelFor(lines)
  {
  }

  /** Counting from a matching level keeps the level matching, and stays in
      the table up to 201 lines. */
  lemma {:induction false} MatchedCount(v: int, lines: nat, n: nat)
    requires LevelMatches(v, lines) && lines + n <= 201
    ensures CanCount(v, lines, n)
    ensures LevelMatches(LevelAfterCount(v, lines, n), lines + n)
    decreases n
  {
    if n > 0 {
      assert InTable(v);
      LevelLinesStep(v - 1);
      var next := LevelAfter(v, lines + 1);
      assert LevelMatches(next, lines + 1);
      MatchedCount(next, lines + 1, n - 1);
    }
  }

  /** From the start of a game, the first 201 lines each index the table in
      bounds and the level follows the closed form. */
  lemma LevelClosedForm(lines: nat, n: nat)
    requires lines + n <= 201
    ensures CanCount(LevelFor(lines), lines, n)
    ensures LevelAfterCount(LevelFor(lines), lines, n) == LevelFor(lines + n)
  {
    LevelForMatches(lines, LevelFor(lines));
    MatchedCount(LevelFor(lines), lines, n);
    LevelForMatches(lines + n, LevelAfterCount(LevelFor(lines), lines, n));
  }

  /** The level check with the clamp the tables call for: the level stops at
      the last entry. */
  function LevelAfterCapped(level: int, lines: int): (r: int)
    requires InTable(level)
    ensures InTable(r) && level <= r <= level + 1
    ensures r == level + 1 <==> lines > LevelLines[level - 1] && level < 10
  {
    if lines > LevelLines[level - 1] && level < 10 then level + 1 else level
  }

  /** The level after `n` capped line increments: defined for every count and
      always inside the table. */
  function LevelAfterCountCapped(level: int, lines: int, n: nat): (r: int)
    requires InTable(level)
    decreases n
    ensures InTable(r) && level <= r
  {
    if n == 0 then level
    else LevelAfterCountCapped(LevelAfterCapped(level, lines + 1), lines + 1, n - 1)
  }

}
