/** `ProgressService`: enrolment, the skill tree, lesson completion (the
    guarded workflow that awards XP, enqueues reviews, recomputes course
    progress and advances the streak) and course-progress recomputation. */
module Progress {
  import opened Wrappers
  import Content
  import ReviewQueue
  import Store
  import ProgressRules
  import SkillTree

  const CourseNotFound := AppError(404, "Course not found")
  const CourseNotPublished := AppError(400, "Course is not published")
  const NotEnrolledTree := AppError(404, "Not enrolled in this course")
  const LessonNotFound := AppError(404, "Lesson not found")
  const NotEnrolled := AppError(400, "Not enrolled in this course")
  const AlreadyCompleted := AppError(400, "Lesson already completed")

  /** `enrollInCourse`: fails for an unknown or unpublished course; returns
      an existing enrolment as it is; otherwise creates one. */
  function EnrollInCourse(db: Store.Db, userId: string, courseId: string, now: int)
    : (r: Result<(Store.Db, Store.Enrollment)>)
    ensures Content.FindCourse(db.catalog, courseId).None? ==> r == Err(CourseNotFound)
    ensures Content.FindCourse(db.catalog, courseId).Some? && !Content.FindCourse(db.catalog, courseId).value.isPublished
            ==> r == Err(CourseNotPublished)
    ensures r.Ok? <==> Content.FindCourse(db.catalog, courseId).Some? && Content.FindCourse(db.catalog, courseId).value.isPublished
    ensures r.Ok? && (userId, courseId) in db.enrollments ==> r.value == (db, db.enrollments[(userId, courseId)])
    ensures r.Ok? ==> r.value.0 == db.(enrollments := db.enrollments[(userId, courseId) := r.value.1])
    ensures r.Ok? && (userId, courseId) !in db.enrollments ==>
              r.value.1.progress == 0.0 && r.value.1.completedAt.None?
  {
    match Content.FindCourse(db.catalog, courseId)
    case None => Err(CourseNotFound)
    case Some(course) =>
      if !course.isPublished then Err(CourseNotPublished)
      else if (userId, courseId) in db.enrollments then Ok((db, db.enrollments[(userId, courseId)]))
      else
        var enrollment := Store.Enrollment(now, 0.0, None, None);
        Ok((db.(enrollments := db.enrollments[(userId, courseId) := enrollment]), enrollment))
  }

  /** Enrolling twice creates one enrolment: the second call changes nothing. */
  lemma EnrollIdempotent(db: Store.Db, userId: string, courseId: string, now: int, later: int)
    requires EnrollInCourse(db, userId, courseId, now).Ok?
    ensures var (db1, e1) := EnrollInCourse(db, userId, courseId, now).value;
            EnrollInCourse(db1, userId, courseId, later) == Ok((db1, e1))
  {
  }

  /** The published modules of the course, in order; none for an unknown course. */
  function TreeModules(cat: Content.Catalog, courseId: string): seq<Content.Module> {
    match Content.FindCourse(cat, courseId)
    case None => []
    case Some(c) => Content.PublishedModules(c.modules)
  }

  /** `getSkillTree`: fails unless the user is enrolled; otherwise the
      course's published modules in order, unlocking linearly: the first is
      open, each later one opens when the one before is completed. */
  function GetSkillTree(db: Store.Db, userId: string, courseId: string): (r: Result<seq<SkillTree.ModuleNode>>)
    ensures (userId, courseId) !in db.enrollments ==> r == Err(NotEnrolledTree)
    ensures r.Ok? <==> (userId, courseId) in db.enrollments
    ensures r.Ok? ==> |r.value| == |TreeModules(db.catalog, courseId)|
    ensures r.Ok? && |r.value| > 0 ==> !r.value[0].isLocked
    ensures r.Ok? ==> forall i :: 0 < i < |r.value| ==> (r.value[i].isLocked <==> !r.value[i - 1].isCompleted)
    ensures r.Ok? ==> forall i :: 0 <= i < |r.value| ==>
              (r.value[i].isCompleted <==>
                 SkillTree.ModuleDone(TreeModules(db.catalog, courseId)[i],
                                      Store.CompletedLessonIds(db.snapshots, userId, courseId)))
    ensures r.Ok? ==>
              var ms, done := TreeModules(db.catalog, courseId), Store.CompletedLessonIds(db.snapshots, userId, courseId);
              forall i :: 0 <= i < |r.value| ==>
                r.value[i] == SkillTree.ModuleNodeOf(ms[i], done, i == 0 || r.value[i - 1].isCompleted)
  {
    if (userId, courseId) !in db.enrollments then Err(NotEnrolledTree)
    else
      var completed := Store.CompletedLessonIds(db.snapshots, userId, courseId);
      Ok(SkillTree.ModuleNodes(TreeModules(db.catalog, courseId), completed, true))
  }

  /** Inside the tree, each lesson is locked exactly when the lesson before
      it is not completed, the first lesson of a module looking back at the
      previous module; the very first lesson is never locked. */
  lemma SkillTreeLessonLocks(db: Store.Db, userId: string, courseId: string, i: nat, j: nat)
    requires (userId, courseId) in db.enrollments
    requires i < |TreeModules(db.catalog, courseId)|
    requires j < |Content.PublishedLessons(TreeModules(db.catalog, courseId)[i].lessons)|
    ensures GetSkillTree(db, userId, courseId).Ok?
    ensures var tree := GetSkillTree(db, userId, courseId).value;
            var ls := Content.PublishedLessons(TreeModules(db.catalog, courseId)[i].lessons);
            var completed := Store.CompletedLessonIds(db.snapshots, userId, courseId);
            && i < |tree| && j < |tree[i].children|
            && (j == 0 && i == 0 ==> !tree[i].children[j].isLocked)
            && (j == 0 && i > 0 ==> (tree[i].children[j].isLocked <==> !tree[i - 1].isCompleted))
            && (j > 0 ==> (tree[i].children[j].isLocked <==> ls[j - 1].id !in completed))
            && (tree[i].children[j].isCompleted <==> ls[j].id in completed)
  {
    var ms := TreeModules(db.catalog, courseId);
    var completed := Store.CompletedLessonIds(db.snapshots, userId, courseId);
    assert GetSkillTree(db, userId, courseId) == Ok(SkillTree.ModuleNodes(ms, completed, true));
    SkillTree.ChildLocks(ms, completed, true, i, j);
  }

  /** The ids of the published lessons over all modules of a course. */
  function PublishedLessonIds(ms: seq<Content.Module>): set<string> {
    if ms == [] then {}
    else (set l | l in Content.PublishedLessons(ms[0].lessons) :: l.id) + PublishedLessonIds(ms[1..])
  }

  lemma {:induction false} IdsBound(ls: seq<Content.Lesson>)
    ensures |set l | l in ls :: l.id| <= |ls|
  {
    if ls != [] {
      IdsBound(ls[1..]);
      assert (set l | l in ls :: l.id) == {ls[0].id} + set l | l in ls[1..] :: l.id;
    }
  }

  lemma {:induction false} PublishedIdsBound(ms: seq<Content.Module>)
    ensures |PublishedLessonIds(ms)| <= Content.PublishedLessonCount(ms)
  {
    if ms != [] {
      PublishedIdsBound(ms[1..]);
      IdsBound(Content.PublishedLessons(ms[0].lessons));
    }
  }

  /** The number of lessons course progress is measured against: published
      lessons over all modules, or 0 for an unknown course. */
  function CountedLessons(cat: Content.Catalog, courseId: string): nat {
    match Content.FindCourse(cat, courseId)
    case None => 0
    case Some(course) => Content.PublishedLessonCount(course.modules)
  }

  /** `after` records `done` of `total` lessons at time `now`: the
      percentage, completion stamped exactly at 100 and cleared otherwise,
      the access time refreshed, the enrolment time kept. */
  predicate ProgressRecorded(before: Store.Enrollment, after: Store.Enrollment, done: nat, total: nat, now: int) {
    && after.progress * total as real == done as real * 100.0
    && (after.completedAt == Some(now) <==> done == total)
    && (after.completedAt.None? <==> done != total)
    && after.lastAccessedAt == Some(now)
    && after.enrolledAt == before.enrolledAt
  }

  /** The enrolment after recording `done` of `total` lessons at `now`. */
  function RecordProgress(e: Store.Enrollment, done: nat, total: nat, now: int): (r: Store.Enrollment)
    requires total > 0
    ensures ProgressRecorded(e, r, done, total, now)
  {
    var progress := ProgressRules.Percent(done, total);
    e.(progress := progress, lastAccessedAt := Some(now), completedAt := if progress == 100.0 then Some(now) else None)
  }

  /** `updateCourseProgress`: progress becomes the share of the course's
      published lessons (over all modules) the user has completed, the course
      is completed exactly at 100, and the access time is refreshed. Nothing
      changes for an unknown course or one without published lessons. */
  function UpdateCourseProgress(db: Store.Db, userId: string, courseId: string, now: int): (r: Store.Db)
    requires (userId, courseId) in db.enrollments
    ensures r == db.(enrollments := r.enrollments)
    ensures r.enrollments.Keys == db.enrollments.Keys
    ensures forall k :: k in db.enrollments && k != (userId, courseId) ==> r.enrollments[k] == db.enrollments[k]
    ensures CountedLessons(db.catalog, courseId) == 0 ==> r == db
    ensures CountedLessons(db.catalog, courseId) > 0 ==>
              ProgressRecorded(db.enrollments[(userId, courseId)], r.enrollments[(userId, courseId)],
                               |Store.CompletedLessonIds(db.snapshots, userId, courseId)|,
                               CountedLessons(db.catalog, courseId), now)
  {
    var total := CountedLessons(db.catalog, courseId);
    if total == 0 then db
    else
      var done := |Store.CompletedLessonIds(db.snapshots, userId, courseId)|;
      var e := RecordProgress(db.enrollments[(userId, courseId)], done, total, now);
      db.(enrollments := db.enrollments[(userId, courseId) := e])
  }

  /** Course progress stays within 100 when every completed lesson is one of
      the course's published lessons. (Completions of lessons unpublished
      later are still counted, so the bound needs this hypothesis.) */
  lemma CourseProgressAtMost100(db: Store.Db, userId: string, courseId: string, now: int)
    requires (userId, courseId) in db.enrollments
    requires Content.FindCourse(db.catalog, courseId).Some?
    requires Store.CompletedLessonIds(db.snapshots, userId, courseId)
             <= PublishedLessonIds(Content.FindCourse(db.catalog, courseId).value.modules)
    requires CountedLessons(db.catalog, courseId) > 0
    ensures 0.0 <= UpdateCourseProgress(db, userId, courseId, now).enrollments[(userId, courseId)].progress <= 100.0
  {
    var done := |Store.CompletedLessonIds(db.snapshots, userId, courseId)|;
    var total := CountedLessons(db.catalog, courseId);
    CompletedWithinCounted(db, userId, courseId);
    var r := UpdateCourseProgress(db, userId, courseId, now);
    RecordedWithin(db.enrollments[(userId, courseId)], r.enrollments[(userId, courseId)], done, total, now);
  }

  /** A recorded share of at most all lessons lies between 0 and 100. */
  lemma RecordedWithin(before: Store.Enrollment, after: Store.Enrollment, done: nat, total: nat, now: int)
    requires total > 0 && done <= total
    requires ProgressRecorded(before, after, done, total, now)
    ensures 0.0 <= after.progress <= 100.0
  {
    ScaledBound(after.progress, done, total);
  }

  /** When every completed lesson is a published lesson of the course, no
      more lessons are completed than progress counts. */
  lemma CompletedWithinCounted(db: Store.Db, userId: string, courseId: string)
    requires Content.FindCourse(db.catalog, courseId).Some?
    requires Store.CompletedLessonIds(db.snapshots, userId, courseId)
             <= PublishedLessonIds(Content.FindCourse(db.catalog, courseId).value.modules)
    ensures |Store.CompletedLessonIds(db.snapshots, userId, courseId)| <= CountedLessons(db.catalog, courseId)
  {
    var ms := Content.FindCourse(db.catalog, courseId).value.modules;
    PublishedIdsBound(ms);
    ReviewQueue.SubsetSize(Store.CompletedLessonIds(db.snapshots, userId, courseId), PublishedLessonIds(ms));
  }

  lemma ScaledBound(p: real, done: nat, total: nat)
    requires total > 0 && done <= total
    requires p * total as real == done as real * 100.0
    ensures 0.0 <= p <= 100.0
  {
    if p > 100.0 {
      assert p * total as real > 100.0 * total as real;
    }
  }

  /** What a lesson completion returns. */
  datatype LessonCompletion = LessonCompletion(lessonId: string, xpEarned: int, streakBonus: Option<bool>,
                                               completedAt: int)

  /** `completeLesson`. Checks, in order and before any write: the lesson
      exists (404), the user is enrolled in its course (400), the lesson was
      not completed before (400). Then: XP with the streak bonus; the
      snapshot and an XP transaction of the same amount; the lesson's
      exercises enqueued; course progress recomputed; the streak advanced. */
  function CompleteLesson(db: Store.Db, userId: string, lessonId: string, timeSpent: real, score: real, now: int)
    : (r: Result<(Store.Db, LessonCompletion)>)
    ensures Content.FindLesson(db.catalog, lessonId).None? ==> r == Err(LessonNotFound)
    ensures Content.FindLesson(db.catalog, lessonId).Some? ==>
              var courseId := Content.FindLesson(db.catalog, lessonId).value.courseId;
              && ((userId, courseId) !in db.enrollments ==> r == Err(NotEnrolled))
              && (((userId, courseId) in db.enrollments && Store.HasCompleted(db.snapshots, userId, lessonId))
                    ==> r == Err(AlreadyCompleted))
              && (r.Ok? <==> (userId, courseId) in db.enrollments && !Store.HasCompleted(db.snapshots, userId, lessonId))
    ensures r.Ok? ==>
              var (db', c) := r.value;
              var la := Content.FindLesson(db.catalog, lessonId).value;
              var baseXp := ProgressRules.BaseXp(score, Content.SumPoints(la.lesson.exercises));
              && c.lessonId == lessonId && c.completedAt == now
              && c.streakBonus == ProgressRules.StreakBonus(Store.StreakOf(db, userId))
              && c.xpEarned == ProgressRules.LessonXp(baseXp, c.streakBonus)
              && c.xpEarned >= baseXp >= ProgressRules.MinLessonXp
              && db'.snapshots == db.snapshots
                   + [Store.Snapshot(userId, la.courseId, lessonId, timeSpent, score, c.xpEarned, c.streakBonus, now)]
              && db'.xp == db.xp + [Store.XpTransaction(userId, c.xpEarned, Store.LessonCompleted, lessonId, "lesson")]
              && db'.streaks == db.streaks[userId := ProgressRules.NextStreak(Store.StreakOf(db, userId), now)]
              && db'.queue == ReviewQueue.EnqueueLessonExercises(db.queue, db.catalog, userId, lessonId, now)
              && db'.enrollments == UpdateCourseProgress(db.(snapshots := db'.snapshots), userId, la.courseId, now).enrollments
              && db'.users == db.users && db'.resetTokens == db.resetTokens
              && db'.catalog == db.catalog && db'.attempts == db.attempts
  {
    match Content.FindLesson(db.catalog, lessonId)
    case None => Err(LessonNotFound)
    case Some(la) =>
      var courseId := la.courseId;
      if (userId, courseId) !in db.enrollments then Err(NotEnrolled)
      else if Store.HasCompleted(db.snapshots, userId, lessonId) then Err(AlreadyCompleted)
      else
        var baseXp := ProgressRules.BaseXp(score, Content.SumPoints(la.lesson.exercises));
        var streak := Store.StreakOf(db, userId);
        var bonus := ProgressRules.StreakBonus(streak);
        var xpEarned := ProgressRules.LessonXp(baseXp, bonus);
        var snapshot := Store.Snapshot(userId, courseId, lessonId, timeSpent, score, xpEarned, bonus, now);
        var award := Store.XpTransaction(userId, xpEarned, Store.LessonCompleted, lessonId, "lesson");
        var db1 := db.(snapshots := db.snapshots + [snapshot], xp := db.xp + [award]);
        var db2 := db1.(queue := ReviewQueue.EnqueueLessonExercises(db1.queue, db1.catalog, userId, lessonId, now));
        var db3 := UpdateCourseProgress(db2, userId, courseId, now);
        var db4 := db3.(streaks := db3.streaks[userId := ProgressRules.NextStreak(streak, now)]);
        Ok((db4, LessonCompletion(lessonId, xpEarned, bonus, now)))
  }

  /** A lesson is completed exactly once: a second completion by the same
      user fails with "already completed" whatever its score or time, and the
      user's total XP grew by the first completion's award alone. */
  lemma CompleteLessonExactlyOnce(db: Store.Db, userId: string, lessonId: string,
                                  timeSpent: real, score: real, now: int,
                                  timeSpent2: real, score2: real, later: int)
    requires Content.FindLesson(db.catalog, lessonId).Some?
    requires (userId, Content.FindLesson(db.catalog, lessonId).value.courseId) in db.enrollments
    requires !Store.HasCompleted(db.snapshots, userId, lessonId)
    ensures var (db1, c) := CompleteLesson(db, userId, lessonId, timeSpent, score, now).value;
            && CompleteLesson(db1, userId, lessonId, timeSpent2, score2, later) == Err(AlreadyCompleted)
            && Store.TotalXp(db1.xp, userId) == Store.TotalXp(db.xp, userId) + c.xpEarned
  {
    var (db1, c) := CompleteLesson(db, userId, lessonId, timeSpent, score, now).value;
    var n := |db.snapshots|;
    assert db1.snapshots[n].userId == userId && db1.snapshots[n].lessonId == lessonId;
    assert Store.HasCompleted(db1.snapshots, userId, lessonId);
    Store.TotalXpAppend(db.xp, Store.XpTransaction(userId, c.xpEarned, Store.LessonCompleted, lessonId, "lesson"), userId);
  }
}
