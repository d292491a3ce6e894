/** The SM-2 variant that schedules the next review of an exercise
    (`calculateNextReview`), together with `Math.round` on exact reals and
    the millisecond clock shared by the whole model. */
module Scheduler {

  /** Milliseconds in one day; `setDate(getDate() + n)` adds n of them. */
  const DayMs: int := 86_400_000

  /** Lowest ease factor the scheduler ever produces. */
  const MinEase: real := 1.3

  /** Lowest quality that counts as a successful recall. */
  const PassQuality: int := 3

  /** `Math.round`: the nearest integer, halves rounded up. */
  function Round(x: real): (r: int)
    ensures r as real <= x + 0.5 < r as real + 1.0
  {
    (x + 0.5).Floor
  }

  lemma RoundMonotone(x: real, y: real)
    requires x <= y
    ensures Round(x) <= Round(y)
  {
  }

  lemma RoundOfInt(n: int)
    ensures Round(n as real) == n
  {
  }

  function MaxReal(a: real, b: real): real {
    if a < b then b else a
  }

  /** The scheduling fields of a review-queue entry after one review;
      `nextReview` is a millisecond timestamp. */
  datatype Schedule = Schedule(interval: int, easeFactor: real, repetitions: int, nextReview: int)

  /** The SM-2 ease adjustment for a successful recall of the given quality. */
  function EaseDelta(quality: int): real {
    0.1 - (5 - quality) as real * (0.08 + (5 - quality) as real * 0.02)
  }

  /** Ease factor, interval (days), repetition count and next review time
      after a review of the given quality, from the entry's stored values. */
  function CalculateNextReview(currentInterval: int, repetitions: int, easeFactor: real,
                               quality: int, now: int): (r: Schedule)
    ensures r.easeFactor >= MinEase
    ensures quality >= PassQuality ==> r.repetitions == repetitions + 1
    ensures quality >= PassQuality && r.repetitions == 1 ==> r.interval == 1
    ensures quality >= PassQuality && r.repetitions == 2 ==> r.interval == 6
    ensures quality >= PassQuality && r.repetitions != 1 && r.repetitions != 2 ==>
              r.interval == Round(currentInterval as real * easeFactor)
    ensures quality >= PassQuality ==> r.easeFactor == MaxReal(MinEase, easeFactor + EaseDelta(quality))
    ensures quality < PassQuality ==> r.repetitions == 0 && r.interval == 1
    ensures quality < PassQuality ==> r.easeFactor == MaxReal(MinEase, easeFactor)
    ensures r.nextReview == now + r.interval * DayMs
  {
    var (ease, interval, reps) :=
      if quality >= PassQuality then
        var reps := repetitions + 1;
        var interval :=
          if reps == 1 then 1
          else if reps == 2 then 6
          else Round(currentInterval as real * easeFactor);
        (easeFactor + EaseDelta(quality), interval, reps)
      else
        (easeFactor, 1, 0);
    var clamped := if ease < MinEase then MinEase else ease;
    Schedule(interval, clamped, reps, now + interval * DayMs)
  }

  /** A scheduling state the queue can hold: interval at least a day,
      non-negative repetition count, ease at or above the floor. */
  predicate ValidState(interval: int, repetitions: int, easeFactor: real) {
    interval >= 1 && repetitions >= 0 && easeFactor >= MinEase
  }

  /** Scheduling from a valid state yields a valid state. */
  lemma ValidStatePreserved(interval: int, repetitions: int, easeFactor: real, quality: int, now: int)
    ensures ValidState(interval, repetitions, easeFactor) ==>
            var r := CalculateNextReview(interval, repetitions, easeFactor, quality, now);
            ValidState(r.interval, r.repetitions, r.easeFactor)
  {
    var r := CalculateNextReview(interval, repetitions, easeFactor, quality, now);
    if ValidState(interval, repetitions, easeFactor) && quality >= PassQuality && r.repetitions > 2 {
      assert interval as real * easeFactor >= 1.3 by {
        assert interval as real * easeFactor >= interval as real * 1.3;
      }
      RoundMonotone(1.0, interval as real * easeFactor);
      RoundOfInt(1);
    }
  }

  /** How the ease factor moves on a pass: up 0.1 at quality 5, unchanged at
      quality 4, down 0.14 (but not under the floor) at quality 3. */
  lemma EaseChangeOnPass(interval: int, repetitions: int, easeFactor: real, now: int)
    requires easeFactor >= MinEase
    ensures CalculateNextReview(interval, repetitions, easeFactor, 5, now).easeFactor == easeFactor + 0.1
    ensures CalculateNextReview(interval, repetitions, easeFactor, 4, now).easeFactor == easeFactor
    ensures CalculateNextReview(interval, repetitions, easeFactor, 3, now).easeFactor
              == MaxReal(MinEase, easeFactor - 0.14)
  {
  }

  /** Three correct answers in a row from a fresh entry give intervals of
      1, 6 and 15 days, and the ease factor stays at 2.5 throughout. */
  lemma FreshEntryPassChain(now: int)
    ensures var r1 := CalculateNextReview(1, 0, 2.5, 4, now);
            var r2 := CalculateNextReview(r1.interval, r1.repetitions, r1.easeFactor, 4, now);
            var r3 := CalculateNextReview(r2.interval, r2.repetitions, r2.easeFactor, 4, now);
            && r1.interval == 1 && r1.repetitions == 1 && r1.easeFactor == 2.5
            && r2.interval == 6 && r2.repetitions == 2 && r2.easeFactor == 2.5
            && r3.interval == 15 && r3.repetitions == 3 && r3.easeFactor == 2.5
  {
    var r2 := CalculateNextReview(1, 1, 2.5, 4, now);
    assert r2.interval == 6;
    assert Round(6.0 * 2.5) == 15;
  }

  /** Once the learning steps are behind, a pass never shortens the interval
      and lengthens every interval of two days or more. */
  lemma PassLengthensLongIntervals(interval: int, repetitions: int, easeFactor: real, quality: int, now: int)
    requires ValidState(interval, repetitions, easeFactor)
    requires repetitions >= 2 && quality >= PassQuality
    ensures CalculateNextReview(interval, repetitions, easeFactor, quality, now).interval >= interval
    ensures interval >= 2 ==> CalculateNextReview(interval, repetitions, easeFactor, quality, now).interval > interval
  {
    var x := interval as real * easeFactor;
    assert x >= interval as real * 1.3;
    if interval >= 2 {
      RoundMonotone((interval + 1) as real - 0.5, x);
      assert Round((interval + 1) as real - 0.5) == interval + 1;
    } else {
      RoundMonotone(interval as real, x);
      RoundOfInt(interval);
    }
  }
}
