/** The persisted state the services read and write, one field per table,
    with the queries several services share. Writes are modelled as
    functions from one state to the next. */
module Store {
  import opened Wrappers
  import Js
  import Content
  import ReviewQueue

  datatype User = User(id: string, email: string, username: string, passwordHash: string, role: string)

  /** What an access token is signed over. */
  datatype Claims = Claims(userId: string, email: string, role: string)

  datatype ResetToken = ResetToken(userId: string, expiresAt: int, usedAt: Option<int>)

  /** One per user: consecutive active days, the longest run, last activity. */
  datatype Streak = Streak(current: int, longest: int, lastActive: int)

  datatype Enrollment = Enrollment(enrolledAt: int, progress: real, lastAccessedAt: Option<int>,
                                   completedAt: Option<int>)

  /** One lesson completion; `streakBonus` is None when the learner had no
      streak row at completion time. */
  datatype Snapshot = Snapshot(userId: string, courseId: string, lessonId: string, timeSpent: real,
                               score: real, xpEarned: int, streakBonus: Option<bool>, completedAt: int)

  datatype XpReason = LessonCompleted | ExerciseCompleted | StreakBonus

  datatype XpTransaction = XpTransaction(userId: string, amount: int, reason: XpReason,
                                         sourceId: string, sourceType: string)

  datatype ExerciseAttempt = ExerciseAttempt(userId: string, exerciseId: string, answer: Js.JsValue,
                                             isCorrect: bool, score: int, timeSpent: real)

  datatype Db = Db(
    users: seq<User>,
    resetTokens: map<string, ResetToken>,
    catalog: Content.Catalog,
    enrollments: map<(string, string), Enrollment>,
    snapshots: seq<Snapshot>,
    xp: seq<XpTransaction>,
    streaks: map<string, Streak>,
    queue: ReviewQueue.Queue,
    attempts: seq<ExerciseAttempt>)

  /** A learner's total XP: the sum of their ledger entries. */
  function TotalXp(ledger: seq<XpTransaction>, userId: string): int {
    if ledger == [] then 0
    else
      var last := ledger[|ledger| - 1];
      TotalXp(ledger[..|ledger| - 1], userId) + (if last.userId == userId then last.amount else 0)
  }

  lemma TotalXpAppend(ledger: seq<XpTransaction>, t: XpTransaction, userId: string)
    ensures TotalXp(ledger + [t], userId) == TotalXp(ledger, userId) + (if t.userId == userId then t.amount else 0)
  {
    assert (ledger + [t])[..|ledger|] == ledger;
  }

  /** Whether a completion snapshot exists for (user, lesson). */
  predicate HasCompleted(snapshots: seq<Snapshot>, userId: string, lessonId: string) {
    exists i :: 0 <= i < |snapshots| && snapshots[i].userId == userId && snapshots[i].lessonId == lessonId
  }

  /** The distinct lessons of a course the user has completed. */
  function CompletedLessonIds(snapshots: seq<Snapshot>, userId: string, courseId: string): set<string> {
    set s | s in snapshots && s.userId == userId && s.courseId == courseId :: s.lessonId
  }

  /** The user's streak row, if there is one. */
  function StreakOf(db: Db, userId: string): Option<Streak> {
    if userId in db.streaks then Some(db.streaks[userId]) else None
  }
}
