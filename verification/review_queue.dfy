/** The per-learner review queue (`SpacedRepetitionService`): one entry per
    (user, exercise), created idempotently, advanced by the scheduler after
    every attempt, queried for due reviews and soft-deactivated. */
module ReviewQueue {
  import Scheduler
  import Content

  datatype QueueEntry = QueueEntry(userId: string, exerciseId: string, interval: int, easeFactor: real,
                                   repetitions: int, nextReview: int, isActive: bool)

  /** The unique key of an entry: (userId, exerciseId). */
  type Key = (string, string)

  /** Every entry is stored under its own (userId, exerciseId). */
  ghost predicate WellKeyed(q: map<Key, QueueEntry>) {
    forall k :: k in q ==> q[k].userId == k.0 && q[k].exerciseId == k.1
  }

  type Queue = q: map<Key, QueueEntry> | WellKeyed(q) witness map[]

  /** Every entry holds a scheduling state the scheduler can produce. */
  ghost predicate ValidQueue(q: Queue) {
    forall k :: k in q ==> Scheduler.ValidState(q[k].interval, q[k].repetitions, q[k].easeFactor)
  }

  const InitialInterval: int := 1
  const InitialEase: real := 2.5

  /** The entry `addToQueue` creates: due in one day, ease 2.5, no repetitions. */
  function NewEntry(userId: string, exerciseId: string, now: int): QueueEntry {
    QueueEntry(userId, exerciseId, InitialInterval, InitialEase, 0, now + Scheduler.DayMs, true)
  }

  /** `addToQueue`: the existing entry, untouched, or a freshly created one. */
  function AddToQueue(q: Queue, userId: string, exerciseId: string, now: int): (r: (Queue, QueueEntry))
    ensures (userId, exerciseId) in q ==> r.0 == q && r.1 == q[(userId, exerciseId)]
    ensures (userId, exerciseId) !in q ==> r.1 == NewEntry(userId, exerciseId, now)
    ensures r.0 == q[(userId, exerciseId) := r.1]
    ensures ValidQueue(q) ==> ValidQueue(r.0)
  {
    var key := (userId, exerciseId);
    if key in q then (q, q[key])
    else
      var entry := NewEntry(userId, exerciseId, now);
      (q[key := entry], entry)
  }

  /** Adding twice is adding once. */
  lemma AddToQueueIdempotent(q: Queue, userId: string, exerciseId: string, now: int, later: int)
    ensures var (q1, e1) := AddToQueue(q, userId, exerciseId, now);
            AddToQueue(q1, userId, exerciseId, later) == (q1, e1)
  {
  }

  /** The entry with the scheduler's output written into its scheduling
      fields; user, exercise and activity are kept. */
  function Rescheduled(e: QueueEntry, quality: int, now: int): (r: QueueEntry)
    ensures r.userId == e.userId && r.exerciseId == e.exerciseId && r.isActive == e.isActive
  {
    var s := Scheduler.CalculateNextReview(e.interval, e.repetitions, e.easeFactor, quality, now);
    e.(interval := s.interval, easeFactor := s.easeFactor, repetitions := s.repetitions, nextReview := s.nextReview)
  }

  /** `updateAfterAttempt`: schedules the stored entry, creating it first when
      there is none. Only the four scheduling fields of that one entry change,
      and they change exactly as the scheduler says from the stored values. */
  function UpdateAfterAttempt(q: Queue, userId: string, exerciseId: string, quality: int, now: int)
    : (r: (Queue, QueueEntry))
    ensures r.0.Keys == q.Keys + {(userId, exerciseId)}
    ensures forall k :: k in q && k != (userId, exerciseId) ==> r.0[k] == q[k]
    ensures r.0[(userId, exerciseId)] == r.1
    ensures var prior := if (userId, exerciseId) in q then q[(userId, exerciseId)] else NewEntry(userId, exerciseId, now);
            var s := Scheduler.CalculateNextReview(prior.interval, prior.repetitions, prior.easeFactor, quality, now);
            && r.1.userId == userId && r.1.exerciseId == exerciseId && r.1.isActive == prior.isActive
            && r.1.interval == s.interval && r.1.easeFactor == s.easeFactor
            && r.1.repetitions == s.repetitions && r.1.nextReview == s.nextReview
    ensures ValidQueue(q) ==> ValidQueue(r.0)
  {
    var key := (userId, exerciseId);
    if key !in q then
      var (q1, created) := AddToQueue(q, userId, exerciseId, now);
      var e := Rescheduled(created, quality, now);
      Scheduler.ValidStatePreserved(created.interval, created.repetitions, created.easeFactor, quality, now);
      (q1[key := e], e)
    else
      var e := Rescheduled(q[key], quality, now);
      Scheduler.ValidStatePreserved(q[key].interval, q[key].repetitions, q[key].easeFactor, quality, now);
      (q[key := e], e)
  }

  /** On a missing entry, `updateAfterAttempt` is `addToQueue` followed by
      scheduling from the defaults; on an existing one it is scheduling from
      the stored values. Both are: get-or-create, then schedule. */
  lemma UpdateIsAddThenSchedule(q: Queue, userId: string, exerciseId: string, quality: int, now: int)
    ensures var (q1, e) := AddToQueue(q, userId, exerciseId, now);
            var e' := Rescheduled(e, quality, now);
            UpdateAfterAttempt(q, userId, exerciseId, quality, now) == (q1[(userId, exerciseId) := e'], e')
  {
  }

  /** An incorrect answer always leaves the entry at one repetition-free day. */
  lemma FailedAttemptResets(q: Queue, userId: string, exerciseId: string, quality: int, now: int)
    requires quality < Scheduler.PassQuality
    ensures var e := UpdateAfterAttempt(q, userId, exerciseId, quality, now).1;
            e.repetitions == 0 && e.interval == 1 && e.nextReview == now + Scheduler.DayMs
  {
  }

  /** Whether an entry shows up in the learner's due reviews at time `now`. */
  predicate IsDue(e: QueueEntry, userId: string, now: int) {
    e.userId == userId && e.isActive && e.nextReview <= now
  }

  function DueSet(q: Queue, userId: string, now: int): set<QueueEntry> {
    set e | e in q.Values && IsDue(e, userId, now)
  }

  function LessonDueSet(q: Queue, userId: string, exerciseIds: seq<string>, now: int): set<QueueEntry> {
    set e | e in DueSet(q, userId, now) && e.exerciseId in exerciseIds
  }

  predicate SortedByReview(s: seq<QueueEntry>) {
    forall i, j :: 0 <= i < j < |s| ==> s[i].nextReview <= s[j].nextReview
  }

  predicate NoDup(s: seq<QueueEntry>) {
    forall i, j :: 0 <= i < j < |s| ==> s[i] != s[j]
  }

  /** Inserts `e` into a list sorted by next review time. */
  function Insert(s: seq<QueueEntry>, e: QueueEntry): (r: seq<QueueEntry>)
    requires SortedByReview(s)
    ensures |r| == |s| + 1
    ensures forall x :: x in r <==> x in s || x == e
    ensures SortedByReview(r)
    ensures NoDup(s) && e !in s ==> NoDup(r)
  {
    if s == [] || e.nextReview <= s[0].nextReview then [e] + s
    else
      var tail := Insert(s[1..], e);
      assert forall x :: x in tail ==> s[0].nextReview <= x.nextReview;
      NoDupTail(s, e);
      [s[0]] + tail
  }

  lemma NoDupTail(s: seq<QueueEntry>, e: QueueEntry)
    requires s != []
    ensures NoDup(s) && e !in s ==> NoDup(s[1..]) && e !in s[1..] && s[0] != e && s[0] !in s[1..]
  {
    forall k | 0 <= k < |s| - 1
      ensures s[1..][k] == s[k + 1]
    {
    }
  }

  /** Lists a set of entries in ascending order of next review time. */
  method SortByNextReview(entries: set<QueueEntry>) returns (r: seq<QueueEntry>)
    ensures |r| == |entries|
    ensures forall x :: x in r <==> x in entries
    ensures NoDup(r)
    ensures SortedByReview(r)
  {
    r := [];
    var rest := entries;
    while rest != {}
      invariant rest <= entries
      invariant forall x :: x in r <==> x in entries && x !in rest
      invariant |r| + |rest| == |entries|
      invariant NoDup(r)
      invariant SortedByReview(r)
      decreases |rest|
    {
      var e :| e in rest;
      r := Insert(r, e);
      rest := rest - {e};
    }
  }

  /** How many due reviews `getNextExercises` returns when no limit is given. */
  const DefaultLimit: nat := 10

  function Min(a: int, b: int): int {
    if a < b then a else b
  }

  /** `getNextExercises`: the learner's active entries due at `now`, earliest
      first, at most `limit` of them; an entry left out is due no earlier
      than every entry returned. */
  method GetNextExercises(q: Queue, userId: string, now: int, limit: nat) returns (r: seq<QueueEntry>)
    ensures |r| == Min(limit, |DueSet(q, userId, now)|)
    ensures forall x :: x in r ==> x in q.Values && IsDue(x, userId, now)
    ensures NoDup(r) && SortedByReview(r)
    ensures forall x, i :: x in DueSet(q, userId, now) && x !in r && 0 <= i < |r| ==>
              r[i].nextReview <= x.nextReview
  {
    var all := SortByNextReview(DueSet(q, userId, now));
    r := all[..Min(limit, |all|)];
    forall x | x in r
      ensures x in q.Values && IsDue(x, userId, now)
    {
      var i :| 0 <= i < |r| && r[i] == x;
      assert all[i] == x;
      assert x in DueSet(q, userId, now);
    }
    forall x, i | x in DueSet(q, userId, now) && x !in r && 0 <= i < |r|
      ensures r[i].nextReview <= x.nextReview
    {
      var j :| 0 <= j < |all| && all[j] == x;
      assert j >= |r|;
    }
  }

  /** `getDueExercisesByLesson`: the same filter restricted to the lesson's
      exercises, every one of them, earliest first. */
  method GetDueExercisesByLesson(q: Queue, cat: Content.Catalog, userId: string, lessonId: string, now: int)
    returns (r: seq<QueueEntry>)
    ensures forall x :: x in r <==>
              x in q.Values && IsDue(x, userId, now) && x.exerciseId in Content.LessonExerciseIds(cat, lessonId)
    ensures NoDup(r) && SortedByReview(r)
  {
    r := SortByNextReview(LessonDueSet(q, userId, Content.LessonExerciseIds(cat, lessonId), now));
  }

  datatype QueueStats = QueueStats(total: nat, due: nat, learning: nat, review: nat)

  function ActiveSet(q: Queue, userId: string): set<QueueEntry> {
    set e | e in q.Values && e.userId == userId && e.isActive
  }

  /** `getQueueStats`: active entries, those due, those still learning (no
      successful repetition yet) and those in review. */
  function GetQueueStats(q: Queue, userId: string, now: int): (r: QueueStats)
    ensures var active := ActiveSet(q, userId);
            && r.total == |active|
            && r.due == |set e | e in active && e.nextReview <= now|
            && r.learning == |set e | e in active && e.repetitions == 0|
            && r.review == |set e | e in active && e.repetitions > 0|
    ensures r.due <= r.total
    ensures r.learning + r.review <= r.total
    ensures ValidQueue(q) ==> r.learning + r.review == r.total
  {
    var active := ActiveSet(q, userId);
    var due := set e | e in active && e.nextReview <= now;
    var learning := set e | e in active && e.repetitions == 0;
    var review := set e | e in active && e.repetitions > 0;
    SubsetSize(due, active);
    assert learning !! review;
    SubsetSize(learning + review, active);
    assert ValidQueue(q) ==> active == learning + review;
    QueueStats(|active|, |due|, |learning|, |review|)
  }

  /** A list without duplicates has as many distinct elements as entries. */
  lemma {:induction false} NoDupElements(s: seq<QueueEntry>)
    requires NoDup(s)
    ensures |set x | x in s| == |s|
  {
    if s != [] {
      var t := s[1..];
      assert forall k :: 0 <= k < |t| ==> t[k] == s[k + 1];
      assert s[0] !in t;
      NoDupElements(t);
      assert (set x | x in s) == {s[0]} + (set x | x in t);
    }
  }

  /** A duplicate-free list drawn from a set, as long as the set, lists all
      of it. */
  lemma NoDupCovers(r: seq<QueueEntry>, entries: set<QueueEntry>)
    requires NoDup(r) && |r| == |entries|
    requires forall x :: x in r ==> x in entries
    ensures forall x :: x in entries ==> x in r
  {
    NoDupElements(r);
    var listed := set x | x in r;
    forall x | x in entries ensures x in r {
      if x !in r { SubsetSize(listed + {x}, entries); }
    }
  }

  lemma SubsetSize<T>(a: set<T>, b: set<T>)
    requires a <= b
    ensures |a| <= |b|
  {
    assert b == a + (b - a);
  }

  /** Queueing an exercise the learner has no entry for adds one active,
      still-learning entry: the total and the learning count grow by one,
      and nothing else changes before it first falls due a day later. */
  lemma NewExerciseCounted(q: Queue, userId: string, exerciseId: string, now: int, at: int)
    requires (userId, exerciseId) !in q
    requires at < now + Scheduler.DayMs
    ensures var before := GetQueueStats(q, userId, at);
            GetQueueStats(AddToQueue(q, userId, exerciseId, now).0, userId, at)
              == before.(total := before.total + 1, learning := before.learning + 1)
  {
    var q' := AddToQueue(q, userId, exerciseId, now).0;
    var e := NewEntry(userId, exerciseId, now);
    var active := ActiveSet(q, userId);
    assert e !in active;
    assert ActiveSet(q', userId) == active + {e} by {
      forall x | x in ActiveSet(q', userId) ensures x in active + {e} {
        var k :| k in q' && q'[k] == x;
        if k != (userId, exerciseId) { assert q[k] == x; }
      }
      assert q'[(userId, exerciseId)] == e;
      forall x | x in active ensures x in ActiveSet(q', userId) {
        var k :| k in q && q[k] == x;
        assert q'[k] == x;
      }
    }
    var a' := active + {e};
    assert (set x | x in a' && x.nextReview <= at) == (set x | x in active && x.nextReview <= at);
    assert (set x | x in a' && x.repetitions == 0) == (set x | x in active && x.repetitions == 0) + {e};
    assert (set x | x in a' && x.repetitions > 0) == (set x | x in active && x.repetitions > 0);
  }

  /** `deactivateExercise`: the matching entries become inactive; nothing is
      removed and no scheduling field moves. */
  function DeactivateExercise(q: Queue, userId: string, exerciseId: string): (r: Queue)
    ensures r.Keys == q.Keys
    ensures forall k :: k in q && k != (userId, exerciseId) ==> r[k] == q[k]
    ensures (userId, exerciseId) in q ==> r[(userId, exerciseId)] == q[(userId, exerciseId)].(isActive := false)
  {
    map k | k in q :: if q[k].userId == userId && q[k].exerciseId == exerciseId then q[k].(isActive := false) else q[k]
  }

  /** A deactivated exercise drops out of every due query and count until an
      entry for it is active again. */
  lemma DeactivatedNeverDue(q: Queue, userId: string, exerciseId: string, now: int)
    ensures forall e :: e in DueSet(DeactivateExercise(q, userId, exerciseId), userId, now) ==>
              e.exerciseId != exerciseId
    ensures forall e :: e in ActiveSet(DeactivateExercise(q, userId, exerciseId), userId) ==>
              e.exerciseId != exerciseId
  {
    var r := DeactivateExercise(q, userId, exerciseId);
    forall e | e in r.Values && e.userId == userId && e.isActive
      ensures e.exerciseId != exerciseId
    {
      var k :| k in r && r[k] == e;
    }
  }

  /** `addToQueue` applied to each exercise in turn. */
  function EnqueueAll(q: Queue, userId: string, exerciseIds: seq<string>, now: int): (r: Queue)
    ensures r.Keys == q.Keys + set x | x in exerciseIds :: (userId, x)
    ensures forall k :: k in q ==> r[k] == q[k]
    ensures forall k :: k in r && k !in q ==> r[k] == NewEntry(k.0, k.1, now)
    ensures ValidQueue(q) ==> ValidQueue(r)
    decreases |exerciseIds|
  {
    if exerciseIds == [] then q
    else
      var (q1, _) := AddToQueue(q, userId, exerciseIds[0], now);
      var r := EnqueueAll(q1, userId, exerciseIds[1..], now);
      KeysOfCons(userId, exerciseIds);
      r
  }

  lemma KeysOfCons(userId: string, exerciseIds: seq<string>)
    requires exerciseIds != []
    ensures (set x | x in exerciseIds :: (userId, x))
            == {(userId, exerciseIds[0])} + set x | x in exerciseIds[1..] :: (userId, x)
  {
    assert forall x :: x in exerciseIds <==> x == exerciseIds[0] || x in exerciseIds[1..];
  }

  /** `enqueueLessonExercises`: every exercise of the lesson gets an entry;
      entries that already exist are untouched. */
  function EnqueueLessonExercises(q: Queue, cat: Content.Catalog, userId: string, lessonId: string, now: int)
    : (r: Queue)
    ensures forall x :: x in Content.LessonExerciseIds(cat, lessonId) ==> (userId, x) in r
    ensures forall k :: k in q ==> k in r && r[k] == q[k]
    ensures forall k :: k in r && k !in q ==> k.0 == userId && k.1 in Content.LessonExerciseIds(cat, lessonId)
    ensures forall k :: k in r && k !in q ==> r[k] == NewEntry(k.0, k.1, now)
  {
    EnqueueAll(q, userId, Content.LessonExerciseIds(cat, lessonId), now)
  }

  /** Enqueueing a lesson again, at any later time, changes nothing. */
  lemma EnqueueLessonIdempotent(q: Queue, cat: Content.Catalog, userId: string, lessonId: string, now: int, later: int)
    ensures var q1 := EnqueueLessonExercises(q, cat, userId, lessonId, now);
            EnqueueLessonExercises(q1, cat, userId, lessonId, later) == q1
  {
    var q1 := EnqueueLessonExercises(q, cat, userId, lessonId, now);
    var q2 := EnqueueLessonExercises(q1, cat, userId, lessonId, later);
    assert q2.Keys == q1.Keys;
  }
}
