/** The pure rules of lesson completion: base XP from the score and the
    lesson's points, the streak bonus, and the day-difference streak
    transition. */
module ProgressRules {
  import opened Wrappers
  import Scheduler
  import Store

  /** Points used when a lesson's exercises are worth nothing (`totalPoints || 20`). */
  const DefaultLessonPoints: int := 20
  const MinLessonXp: int := 10
  /** Streak length from which the 1.5x bonus applies. */
  const BonusStreak: int := 7

  function LessonPoints(totalPoints: int): int {
    if totalPoints == 0 then DefaultLessonPoints else totalPoints
  }

  /** `baseXp`: the score's share of the lesson's points, rounded, but never
      under 10. */
  function BaseXp(score: real, totalPoints: int): (r: int)
    ensures r >= MinLessonXp
    ensures r >= Scheduler.Round(score / 100.0 * LessonPoints(totalPoints) as real)
    ensures r == MinLessonXp || r == Scheduler.Round(score / 100.0 * LessonPoints(totalPoints) as real)
  {
    var earned := Scheduler.Round(score / 100.0 * LessonPoints(totalPoints) as real);
    if earned < MinLessonXp then MinLessonXp else earned
  }

  /** A perfect score on a lesson worth at least 10 points earns exactly
      its points; an empty lesson counts as 20 points. */
  lemma PerfectScoreEarnsLessonPoints(totalPoints: int)
    requires totalPoints >= MinLessonXp || totalPoints == 0
    ensures BaseXp(100.0, totalPoints) == LessonPoints(totalPoints)
  {
    Scheduler.RoundOfInt(LessonPoints(totalPoints));
  }

  /** `streakBonus`: None when there is no streak row (the source's `null`),
      otherwise whether the current streak is at least 7 days. */
  function StreakBonus(streak: Option<Store.Streak>): (r: Option<bool>)
    ensures r.Some? <==> streak.Some?
    ensures r == Some(true) <==> streak.Some? && streak.value.current >= BonusStreak
  {
    match streak
    case None => None
    case Some(s) => Some(s.current >= BonusStreak)
  }

  /** `xpEarned`: 1.5 times the base XP, rounded, when the bonus applies;
      the base XP otherwise. */
  function LessonXp(baseXp: int, bonus: Option<bool>): (r: int)
    ensures bonus != Some(true) ==> r == baseXp
    ensures bonus == Some(true) ==> r == Scheduler.Round(baseXp as real * 1.5)
    ensures baseXp >= 0 ==> r >= baseXp
  {
    if bonus == Some(true) then Scheduler.Round(baseXp as real * 1.5) else baseXp
  }

  /** With the bonus, a lesson earns at least 15 XP. */
  lemma BonusXpAtLeastFifteen(score: real, totalPoints: int)
    ensures LessonXp(BaseXp(score, totalPoints), Some(true)) >= 15
  {
    var b := BaseXp(score, totalPoints);
    Scheduler.RoundMonotone(15.0, b as real * 1.5);
    Scheduler.RoundOfInt(15);
  }

  /** `done / total * 100`: a percentage that is 100 exactly when everything
      is done, and within [0, 100] while `done` does not exceed `total`. */
  function Percent(done: nat, total: nat): (p: real)
    requires total > 0
    ensures p * total as real == done as real * 100.0
    ensures p == 100.0 <==> done == total
    ensures p >= 0.0
    ensures done <= total ==> p <= 100.0
  {
    var q := done as real / total as real;
    assert q * total as real == done as real;
    assert done <= total ==> q <= 1.0;
    q * 100.0
  }

  /** The calendar day (UTC) of a millisecond timestamp. */
  function DayNumber(t: int): int {
    t / Scheduler.DayMs
  }

  /** The midnight that starts the day of `t`. */
  function Midnight(t: int): int {
    DayNumber(t) * Scheduler.DayMs
  }

  const HourMs: int := 3_600_000

  /** The streak rule's day count as written: the gap between two midnights
      divided by 24 hours and floored. Where local midnights are not 24 hours
      apart (a daylight-saving change) this miscounts. */
  function FlooredDaysBetween(from: int, to: int): (r: int)
    ensures r * Scheduler.DayMs <= to - from < (r + 1) * Scheduler.DayMs
  {
    (to - from) / Scheduler.DayMs
  }

  /** Across a spring-forward change two consecutive local midnights are 23
      hours apart, and the floored count says they are the same day; two
      days later they are 47 hours apart and count as one day. */
  lemma SpringForwardMiscounted(lastMidnight: int)
    ensures FlooredDaysBetween(lastMidnight, lastMidnight + Scheduler.DayMs - HourMs) == 0
    ensures FlooredDaysBetween(lastMidnight, lastMidnight + 2 * Scheduler.DayMs - HourMs) == 1
  {
  }

  /** The day count intended: the gap between two midnights in days, rounded
      to the nearest whole day. */
  function DaysBetween(from: int, to: int): (r: int)
    ensures r * Scheduler.DayMs - Scheduler.DayMs / 2 <= to - from < r * Scheduler.DayMs + Scheduler.DayMs / 2
  {
    (to - from + Scheduler.DayMs / 2) / Scheduler.DayMs
  }

  /** Midnights `n` days apart, give or take less than half a day of clock
      change, are counted as `n` days. */
  lemma DaysBetweenToleratesShift(from: int, to: int, n: int, shift: int)
    requires -Scheduler.DayMs / 2 <= shift < Scheduler.DayMs / 2
    requires to - from == n * Scheduler.DayMs + shift
    ensures DaysBetween(from, to) == n
  {
  }

  /** The intended count agrees with the difference of UTC day numbers the
      streak rule uses. */
  lemma MidnightsDaysBetween(last: int, now: int)
    ensures DaysBetween(Midnight(last), Midnight(now)) == DayNumber(now) - DayNumber(last)
  {
    var n := DayNumber(now) - DayNumber(last);
    assert Midnight(now) - Midnight(last) == n * Scheduler.DayMs;
    DaysBetweenToleratesShift(Midnight(last), Midnight(now), n, 0);
  }

  /** Across a spring-forward change the intended count sees consecutive
      days as one day apart, and days two apart as two. */
  lemma SpringForwardCounted(lastMidnight: int)
    ensures DaysBetween(lastMidnight, lastMidnight + Scheduler.DayMs - HourMs) == 1
    ensures DaysBetween(lastMidnight, lastMidnight + 2 * Scheduler.DayMs - HourMs) == 2
  {
  }

  /** The streak after a lesson completion at `now`: a fresh (1, 1) row when
      there is none; otherwise by the number of days since the last activity:
      1 extends the run, 0 leaves it, anything else restarts it at 1. */
  function NextStreak(streak: Option<Store.Streak>, now: int): (r: Store.Streak)
    ensures r.lastActive == now
    ensures streak.None? ==> r.current == 1 && r.longest == 1
    ensures streak.Some? ==> r.longest >= streak.value.longest
    ensures streak.Some? && DayNumber(now) - DayNumber(streak.value.lastActive) == 1 ==>
              && r.current == streak.value.current + 1
              && r.longest == (if streak.value.longest < r.current then r.current else streak.value.longest)
    ensures streak.Some? && DayNumber(now) == DayNumber(streak.value.lastActive) ==>
              r.current == streak.value.current && r.longest == streak.value.longest
    ensures streak.Some? && DayNumber(now) - DayNumber(streak.value.lastActive) != 1
            && DayNumber(now) != DayNumber(streak.value.lastActive) ==>
              r.current == 1 && r.longest == streak.value.longest
  {
    match streak
    case None => Store.Streak(1, 1, now)
    case Some(s) =>
      var daysDiff := DaysBetween(Midnight(s.lastActive), Midnight(now));
      MidnightsDaysBetween(s.lastActive, now);
      if daysDiff == 1 then
        var current := s.current + 1;
        Store.Streak(current, if s.longest < current then current else s.longest, now)
      else if daysDiff == 0 then
        Store.Streak(s.current, s.longest, now)
      else
        Store.Streak(1, s.longest, now)
  }

  /** The longest run is never shorter than the current one. Signup seeds a
      row of (0, 0), which satisfies it; see `SeededStreakBreaksAfterGap`. */
  predicate StreakConsistent(s: Store.Streak) {
    s.current <= s.longest
  }

  /** Completing lessons keeps a consistent streak with a longest run of at
      least one day consistent. */
  lemma StreakConsistencyPreserved(streak: Store.Streak, now: int)
    requires StreakConsistent(streak) && streak.longest >= 1
    ensures StreakConsistent(NextStreak(Some(streak), now))
    ensures NextStreak(Some(streak), now).longest >= 1
  {
  }

  /** The row signup creates, (0, 0), followed by a completion two or more
      days later yields current 1 over longest 0: the longest run is not an
      upper bound of the current one in general. */
  lemma SeededStreakBreaksAfterGap(signupTime: int, now: int)
    requires DayNumber(now) - DayNumber(signupTime) >= 2
    ensures var r := NextStreak(Some(Store.Streak(0, 0, signupTime)), now);
            r.current == 1 && r.longest == 0 && !StreakConsistent(r)
  {
  }

  /** A second completion on the same day leaves current and longest as the
      first one left them. */
  lemma SameDayCompletionIsStable(streak: Option<Store.Streak>, t1: int, t2: int)
    requires DayNumber(t1) == DayNumber(t2)
    ensures var s1 := NextStreak(streak, t1);
            var s2 := NextStreak(Some(s1), t2);
            s2.current == s1.current && s2.longest == s1.longest
  {
  }

  /** The streak after completing a lesson on each of `n` consecutive days
      following the day of `s.lastActive`. */
  function DailyRun(s: Store.Streak, n: nat): Store.Streak
    decreases n
  {
    if n == 0 then s else NextStreak(Some(DailyRun(s, n - 1)), s.lastActive + n * Scheduler.DayMs)
  }

  /** One completion per day for n days in a row raises the current streak
      by n and the longest run to at least that. */
  lemma {:induction false} ConsecutiveDaysExtendStreak(s: Store.Streak, n: nat)
    ensures DailyRun(s, n).current == s.current + n
    ensures DailyRun(s, n).longest >= s.longest
    ensures n > 0 ==> DailyRun(s, n).longest >= s.current + n
    ensures DailyRun(s, n).lastActive == s.lastActive + n * Scheduler.DayMs
  {
    if n > 0 {
      ConsecutiveDaysExtendStreak(s, n - 1);
      var prev := DailyRun(s, n - 1);
      var now := s.lastActive + n * Scheduler.DayMs;
      assert DayNumber(now) == DayNumber(prev.lastActive) + 1 by {
        assert now == prev.lastActive + Scheduler.DayMs;
        DayNumberShift(prev.lastActive);
      }
    }
  }

  lemma DayNumberShift(t: int)
    ensures DayNumber(t + Scheduler.DayMs) == DayNumber(t) + 1
  {
    var d := DayNumber(t);
    var m := t % Scheduler.DayMs;
    assert t == d * Scheduler.DayMs + m;
    assert t + Scheduler.DayMs == (d + 1) * Scheduler.DayMs + m;
  }
}
