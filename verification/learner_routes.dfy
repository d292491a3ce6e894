/** The two learner endpoints with logic of their own: the request checks of
    `POST /lessons/:id/complete`, and the grading, scoring, review update
    and XP award of `POST /exercises/:id/attempt`. The authenticated user's
    id is a parameter; path parameters are `None` when absent. */
module LearnerRoutes {
  import opened Wrappers
  import Js
  import Content
  import Store
  import Scheduler
  import ReviewQueue
  import ProgressRules
  import Progress

  const TimeSpentInvalid := AppError(400, "Valid timeSpent (seconds) is required")
  const ScoreInvalid := AppError(400, "Valid score (0-100) is required")
  const AttemptFieldsMissing := AppError(400, "answer and timeSpent are required")
  const ExerciseNotFound := AppError(404, "Exercise not found")

  /** `requireParam`: an absent or empty path parameter is a 400 naming it. */
  function RequireParam(value: Option<string>, name: string): (r: Result<string>)
    ensures r.Ok? <==> value.Some? && value.value != ""
    ensures r.Ok? ==> r.value == value.value
    ensures r.Err? ==> r.error == AppError(400, name + " is required")
  {
    if value.None? || value.value == "" then Err(AppError(400, name + " is required"))
    else Ok(value.value)
  }

  predicate ValidTimeSpent(timeSpent: Js.JsValue) {
    timeSpent.Number? && timeSpent.n >= 0.0
  }

  predicate ValidScore(score: Js.JsValue) {
    score.Number? && 0.0 <= score.n <= 100.0
  }

  /** `POST /lessons/:id/complete`: the body is checked first (time, then
      score), then the path parameter, and only then is the lesson completed.
      Whatever the service records therefore carries a score within [0, 100]
      and a non-negative time. */
  function CompleteLessonRoute(db: Store.Db, userId: string, id: Option<string>,
                               timeSpent: Js.JsValue, score: Js.JsValue, now: int)
    : (r: Result<(Store.Db, Progress.LessonCompletion)>)
    ensures !ValidTimeSpent(timeSpent) ==> r == Err(TimeSpentInvalid)
    ensures ValidTimeSpent(timeSpent) && !ValidScore(score) ==> r == Err(ScoreInvalid)
    ensures ValidTimeSpent(timeSpent) && ValidScore(score) && (id.None? || id.value == "") ==>
              r == Err(AppError(400, "id is required"))
    ensures ValidTimeSpent(timeSpent) && ValidScore(score) && id.Some? && id.value != "" ==>
              r == Progress.CompleteLesson(db, userId, id.value, timeSpent.n, score.n, now)
    ensures r.Ok? ==>
              var snapshots := r.value.0.snapshots;
              && |snapshots| == |db.snapshots| + 1
              && 0.0 <= snapshots[|db.snapshots|].score <= 100.0
              && snapshots[|db.snapshots|].timeSpent >= 0.0
  {
    if !ValidTimeSpent(timeSpent) then Err(TimeSpentInvalid)
    else if !ValidScore(score) then Err(ScoreInvalid)
    else
      var lessonId :- RequireParam(id, "id");
      Progress.CompleteLesson(db, userId, lessonId, timeSpent.n, score.n, now)
  }

  /** With a score the route admits, the base XP of a lesson lies between
      10 and the larger of 10 and the lesson's points. */
  lemma AdmittedScoreBoundsXp(score: real, totalPoints: int)
    requires 0.0 <= score <= 100.0
    requires totalPoints >= 0
    ensures ProgressRules.MinLessonXp <= ProgressRules.BaseXp(score, totalPoints)
    ensures ProgressRules.BaseXp(score, totalPoints) == ProgressRules.MinLessonXp
            || ProgressRules.BaseXp(score, totalPoints) <= ProgressRules.LessonPoints(totalPoints)
  {
    var points := ProgressRules.LessonPoints(totalPoints) as real;
    assert score / 100.0 * points <= points by {
      assert score / 100.0 <= 1.0;
    }
    Scheduler.RoundMonotone(score / 100.0 * points, points);
    Scheduler.RoundOfInt(ProgressRules.LessonPoints(totalPoints));
  }

  /** The lower-cased forms of the alternatives, in order. */
  function LowerAll(forms: seq<string>): (r: seq<string>)
    ensures |r| == |forms|
    ensures forall i :: 0 <= i < |forms| ==> r[i] == Js.ToLower(forms[i])
  {
    seq(|forms|, i requires 0 <= i < |forms| => Js.ToLower(forms[i]))
  }

  /** The user's answer as compared: trimmed and lower-cased when it is a
      string, the empty string otherwise. */
  function NormalizedAnswer(answer: Js.JsValue): string {
    if answer.Str? then Js.ToLower(Js.Trim(answer.s)) else ""
  }

  /** Every form an exercise accepts: its canonical answer, then its
      alternatives (none when the exercise lists none). */
  function AcceptedForms(ex: Content.Exercise): seq<string> {
    [ex.correctAnswer] + ex.alternatives
  }

  /** Whether a normalised answer is accepted: it equals the lower-cased
      form of one of the accepted forms. The accepted forms themselves are
      lower-cased but not trimmed. */
  function Matches(ex: Content.Exercise, userAnswer: string): (r: bool)
    ensures r <==> exists i :: 0 <= i < |AcceptedForms(ex)| && Js.ToLower(AcceptedForms(ex)[i]) == userAnswer
  {
    var isCorrect := userAnswer == Js.ToLower(ex.correctAnswer) || userAnswer in LowerAll(ex.alternatives);
    assert isCorrect ==> exists i :: 0 <= i < |AcceptedForms(ex)|
                                     && Js.ToLower(AcceptedForms(ex)[i]) == userAnswer by {
      if userAnswer == Js.ToLower(ex.correctAnswer) {
        assert AcceptedForms(ex)[0] == ex.correctAnswer;
      } else if userAnswer in LowerAll(ex.alternatives) {
        var k :| 0 <= k < |ex.alternatives| && LowerAll(ex.alternatives)[k] == userAnswer;
        assert AcceptedForms(ex)[k + 1] == ex.alternatives[k];
      }
    }
    assert (exists i :: 0 <= i < |AcceptedForms(ex)| && Js.ToLower(AcceptedForms(ex)[i]) == userAnswer)
           ==> isCorrect by {
      if i :| 0 <= i < |AcceptedForms(ex)| && Js.ToLower(AcceptedForms(ex)[i]) == userAnswer {
        if i > 0 {
          assert LowerAll(ex.alternatives)[i - 1] == userAnswer;
        }
      }
    }
    isCorrect
  }

  /** Grading: an answer is correct exactly when, trimmed and lower-cased
      (or taken as the empty string when it is not a string), it matches
      the lower-cased form of one of the accepted forms. */
  function Grade(ex: Content.Exercise, answer: Js.JsValue): (r: bool)
    ensures r <==> exists i :: 0 <= i < |AcceptedForms(ex)|
                                && Js.ToLower(AcceptedForms(ex)[i]) == NormalizedAnswer(answer)
  {
    Matches(ex, NormalizedAnswer(answer))
  }

  /** Each accepted form, typed as it is stored (and without surrounding
      whitespace), is graded correct. */
  lemma AcceptedFormIsCorrect(ex: Content.Exercise, i: nat)
    requires i < |AcceptedForms(ex)|
    requires Js.IsTrimmed(AcceptedForms(ex)[i])
    ensures Grade(ex, Js.Str(AcceptedForms(ex)[i]))
  {
    Js.TrimOfTrimmed(AcceptedForms(ex)[i]);
  }

  /** Whitespace around a string answer does not change its grade. */
  lemma PaddingIgnored(ex: Content.Exercise, pre: string, s: string, post: string)
    requires Js.AllWhitespace(pre) && Js.AllWhitespace(post)
    requires Js.IsTrimmed(s)
    ensures Grade(ex, Js.Str(pre + s + post)) == Grade(ex, Js.Str(s))
  {
    PaddedNormalizesAlike(pre, s, post);
  }

  /** A padded trimmed string normalises to what the string itself does. */
  lemma PaddedNormalizesAlike(pre: string, s: string, post: string)
    requires Js.AllWhitespace(pre) && Js.AllWhitespace(post)
    requires Js.IsTrimmed(s)
    ensures NormalizedAnswer(Js.Str(pre + s + post)) == NormalizedAnswer(Js.Str(s))
  {
    Js.TrimIgnoresPadding(pre, s, post);
    Js.TrimOfTrimmed(s);
  }

  /** The letter case of a string answer does not change its grade. */
  lemma LetterCaseIgnored(ex: Content.Exercise, s: string)
    ensures Grade(ex, Js.Str(Js.ToUpper(s))) == Grade(ex, Js.Str(s))
  {
    Js.TrimUpper(s);
    Js.LowerOfUpper(Js.Trim(s));
    assert NormalizedAnswer(Js.Str(Js.ToUpper(s))) == NormalizedAnswer(Js.Str(s));
  }

  /** Since stored forms are not trimmed, a canonical answer with whitespace
      at either end cannot be matched by any answer when there are no
      alternatives. */
  lemma PaddedCanonicalNeverMatches(ex: Content.Exercise, answer: Js.JsValue)
    requires ex.alternatives == []
    requires !Js.IsTrimmed(ex.correctAnswer)
    ensures !Grade(ex, answer)
  {
    NormalizedDiffersFromPadded(answer, ex.correctAnswer);
    assert LowerAll(ex.alternatives) == [];
  }

  /** A normalised answer never equals a lower-cased string with whitespace
      at an end. */
  lemma NormalizedDiffersFromPadded(answer: Js.JsValue, form: string)
    requires !Js.IsTrimmed(form)
    ensures NormalizedAnswer(answer) != Js.ToLower(form)
  {
    Js.LowerKeepsTrimmed(form);
    if answer.Str? {
      Js.LowerKeepsTrimmed(Js.Trim(answer.s));
    }
  }

  /** The SM-2 quality an attempt reports: 4 when correct, 2 when not, so a
      correct attempt passes and a wrong one fails the review. */
  function AttemptQuality(isCorrect: bool): (q: int)
    ensures isCorrect <==> q >= Scheduler.PassQuality
    ensures 0 <= q <= 5
  {
    if isCorrect then 4 else 2
  }

  /** What an attempt returns: the new attempt's id, the grade, the score,
      and the canonical answer only when the attempt was wrong. */
  datatype AttemptResponse = AttemptResponse(id: nat, isCorrect: bool, score: int, correctAnswer: Option<string>)

  /** `POST /exercises/:id/attempt`. Checks, in order: the path parameter
      (400), a truthy answer and a numeric time (400), the exercise exists
      (404). Then the attempt is recorded, the review entry is scheduled
      with the attempt's quality, and a correct attempt earns the exercise's
      points as XP. */
  function AttemptExercise(db: Store.Db, userId: string, id: Option<string>,
                           answer: Js.JsValue, timeSpent: Js.JsValue, now: int)
    : (r: Result<(Store.Db, AttemptResponse)>)
    ensures (id.None? || id.value == "") ==> r == Err(AppError(400, "id is required"))
    ensures id.Some? && id.value != "" && (!Js.Truthy(answer) || !timeSpent.Number?) ==>
              r == Err(AttemptFieldsMissing)
    ensures id.Some? && id.value != "" && Js.Truthy(answer) && timeSpent.Number?
            && Content.FindExercise(db.catalog, id.value).None?
            ==> r == Err(ExerciseNotFound)
    ensures r.Ok? <==> id.Some? && id.value != "" && Js.Truthy(answer) && timeSpent.Number?
                       && Content.FindExercise(db.catalog, id.value).Some?
    ensures r.Ok? ==>
              var (db', resp) := r.value;
              var ex := Content.FindExercise(db.catalog, id.value).value;
              && ex.id == id.value
              && resp.isCorrect == Grade(ex, answer)
              && resp.score == (if resp.isCorrect then ex.points else 0)
              && (resp.correctAnswer.Some? <==> !resp.isCorrect)
              && (resp.correctAnswer.Some? ==> resp.correctAnswer.value == ex.correctAnswer)
              && resp.id == |db.attempts|
              && db'.attempts == db.attempts
                   + [Store.ExerciseAttempt(userId, id.value, answer, resp.isCorrect, resp.score, timeSpent.n)]
              && db'.queue == ReviewQueue.UpdateAfterAttempt(db.queue, userId, id.value,
                                                             AttemptQuality(resp.isCorrect), now).0
              && (resp.isCorrect ==>
                    db'.xp == db.xp + [Store.XpTransaction(userId, resp.score, Store.ExerciseCompleted, id.value, "exercise")])
              && (!resp.isCorrect ==> db'.xp == db.xp)
              && db'.users == db.users && db'.resetTokens == db.resetTokens && db'.catalog == db.catalog
              && db'.enrollments == db.enrollments && db'.snapshots == db.snapshots
              && db'.streaks == db.streaks
  {
    var exerciseId :- RequireParam(id, "id");
    if !Js.Truthy(answer) || !timeSpent.Number? then Err(AttemptFieldsMissing)
    else
      match Content.FindExercise(db.catalog, exerciseId)
      case None => Err(ExerciseNotFound)
      case Some(ex) =>
        var isCorrect := Grade(ex, answer);
        var score := if isCorrect then ex.points else 0;
        var attempt := Store.ExerciseAttempt(userId, exerciseId, answer, isCorrect, score, timeSpent.n);
        var queue := ReviewQueue.UpdateAfterAttempt(db.queue, userId, exerciseId, AttemptQuality(isCorrect), now).0;
        var xp := if isCorrect
                  then db.xp + [Store.XpTransaction(userId, score, Store.ExerciseCompleted, exerciseId, "exercise")]
                  else db.xp;
        var db' := db.(attempts := db.attempts + [attempt], queue := queue, xp := xp);
        Ok((db', AttemptResponse(|db.attempts|, isCorrect, score, if isCorrect then None else Some(ex.correctAnswer))))
  }

  /** An attempt adds exactly its score to the learner's total XP: the
      exercise's points when correct, nothing when wrong. */
  lemma AttemptXpEqualsScore(db: Store.Db, userId: string, id: Option<string>,
                             answer: Js.JsValue, timeSpent: Js.JsValue, now: int)
    requires id.Some? && id.value != "" && Js.Truthy(answer) && timeSpent.Number?
    requires Content.FindExercise(db.catalog, id.value).Some?
    ensures var (db', resp) := AttemptExercise(db, userId, id, answer, timeSpent, now).value;
            Store.TotalXp(db'.xp, userId) == Store.TotalXp(db.xp, userId) + resp.score
  {
    var (db', resp) := AttemptExercise(db, userId, id, answer, timeSpent, now).value;
    if resp.isCorrect {
      Store.TotalXpAppend(db.xp, Store.XpTransaction(userId, resp.score, Store.ExerciseCompleted, id.value, "exercise"),
                          userId);
    }
  }

  /** A wrong attempt resets the exercise's review: no repetitions, a one-day
      interval, due again a day from now. A correct one counts a repetition. */
  lemma AttemptReschedulesReview(db: Store.Db, userId: string, id: Option<string>,
                                 answer: Js.JsValue, timeSpent: Js.JsValue, now: int)
    requires id.Some? && id.value != "" && Js.Truthy(answer) && timeSpent.Number?
    requires Content.FindExercise(db.catalog, id.value).Some?
    ensures var (db', resp) := AttemptExercise(db, userId, id, answer, timeSpent, now).value;
            var key := (userId, id.value);
            var before := if key in db.queue then db.queue[key].repetitions else 0;
            && key in db'.queue
            && (!resp.isCorrect ==>
                  db'.queue[key].repetitions == 0 && db'.queue[key].interval == 1
                  && db'.queue[key].nextReview == now + Scheduler.DayMs)
            && (resp.isCorrect ==> db'.queue[key].repetitions == before + 1)
  {
    var (db', resp) := AttemptExercise(db, userId, id, answer, timeSpent, now).value;
    var q := AttemptQuality(resp.isCorrect);
    if !resp.isCorrect {
      ReviewQueue.FailedAttemptResets(db.queue, userId, id.value, q, now);
    }
  }

  /** `GET /spaced-repetition/next`: the learner's next due reviews, earliest
      first, at most the requested number of them, or the default of 10 when
      the request names no limit; when no more are due than that, all of
      them. */
  method NextReviewsRoute(q: ReviewQueue.Queue, userId: string, now: int, limit: Option<nat>)
    returns (r: seq<ReviewQueue.QueueEntry>)
    ensures limit.None? ==> |r| == ReviewQueue.Min(ReviewQueue.DefaultLimit, |ReviewQueue.DueSet(q, userId, now)|)
    ensures limit.Some? ==> |r| == ReviewQueue.Min(limit.value, |ReviewQueue.DueSet(q, userId, now)|)
    ensures forall x :: x in r ==> x in ReviewQueue.DueSet(q, userId, now)
    ensures ReviewQueue.NoDup(r) && ReviewQueue.SortedByReview(r)
    ensures forall x, i :: x in ReviewQueue.DueSet(q, userId, now) && x !in r && 0 <= i < |r| ==>
              r[i].nextReview <= x.nextReview
    ensures |ReviewQueue.DueSet(q, userId, now)| <= (if limit.Some? then limit.value else ReviewQueue.DefaultLimit)
            ==> forall x :: x in ReviewQueue.DueSet(q, userId, now) ==> x in r
  {
    var n := if limit.Some? then limit.value else ReviewQueue.DefaultLimit;
    r := ReviewQueue.GetNextExercises(q, userId, now, n);
    if |ReviewQueue.DueSet(q, userId, now)| <= n {
      ReviewQueue.NoDupCovers(r, ReviewQueue.DueSet(q, userId, now));
    }
  }

  /** The seed's "Good morning" exercise. */
  function SeedGreeting(): Content.Exercise {
    Content.Exercise("ex", 15, "Buenos días", ["buenos dias", "Buenos dias"])
  }

  /** Every accepted form is still correct typed in capitals and with
      whitespace around it. */
  lemma ShoutedPaddedFormIsCorrect(ex: Content.Exercise, i: nat, pre: string, post: string)
    requires i < |AcceptedForms(ex)|
    requires Js.IsTrimmed(AcceptedForms(ex)[i])
    requires Js.AllWhitespace(pre) && Js.AllWhitespace(post)
    ensures Grade(ex, Js.Str(pre + Js.ToUpper(AcceptedForms(ex)[i]) + post))
  {
    var s := AcceptedForms(ex)[i];
    AcceptedFormIsCorrect(ex, i);
    LetterCaseIgnored(ex, s);
    if s != [] {
      Js.UpperKeepsWhitespace(s[0]);
      Js.UpperKeepsWhitespace(s[|s| - 1]);
    }
    PaddingIgnored(ex, pre, Js.ToUpper(s), post);
  }

  /** Its canonical answer typed in capitals, accented capital included,
      with surrounding spaces is correct. */
  lemma SeedGreetingShouted()
    ensures Grade(SeedGreeting(), Js.Str("  BUENOS DÍAS "))
  {
    assert Js.IsTrimmed("Buenos días");
    ShoutedPaddedFormIsCorrect(SeedGreeting(), 0, "  ", " ");
    UpperSeedGreeting();
  }

  /** The seed greeting shouted and padded, written out: upper-casing maps
      the accented small i to its accented capital. */
  lemma UpperSeedGreeting()
    ensures "  " + Js.ToUpper("Buenos días") + " " == "  BUENOS DÍAS "
  {
    var u := Js.ToUpper("Buenos días");
    assert u[0] == 'B';
    assert u[1] == 'U';
    assert u[2] == 'E';
    assert u[3] == 'N';
    assert u[4] == 'O';
    assert u[5] == 'S';
    assert u[6] == ' ';
    assert u[7] == 'D';
    assert u[8] == 'Í';
    assert u[9] == 'A';
    assert u[10] == 'S';
  }

  /** A trimmed answer whose length differs from every accepted form's is
      wrong: lower-casing keeps lengths. */
  lemma LengthMismatchIsWrong(ex: Content.Exercise, s: string)
    requires Js.IsTrimmed(s)
    requires forall i :: 0 <= i < |AcceptedForms(ex)| ==> |AcceptedForms(ex)[i]| != |s|
    ensures !Grade(ex, Js.Str(s))
  {
    Js.TrimOfTrimmed(s);
  }

  /** Its unaccented alternative is correct. */
  lemma SeedGreetingAlternative()
    ensures Grade(SeedGreeting(), Js.Str("buenos dias"))
  {
    assert Js.IsTrimmed("buenos dias");
    AcceptedFormIsCorrect(SeedGreeting(), 1);
  }

  /** A partial answer is wrong. */
  lemma SeedGreetingPartial()
    ensures !Grade(SeedGreeting(), Js.Str("buenos"))
  {
    assert Js.IsTrimmed("buenos");
    assert forall i :: 0 <= i < |AcceptedForms(SeedGreeting())| ==> |AcceptedForms(SeedGreeting())[i]| == 11;
    LengthMismatchIsWrong(SeedGreeting(), "buenos");
  }

  /** The seed's "Hello" exercise. */
  function SeedHello(): Content.Exercise {
    Content.Exercise("hello", 10, "Hola", [])
  }

  /** "Adiós" is a wrong answer to it. */
  lemma SeedHelloRejectsGoodbye()
    ensures !Grade(SeedHello(), Js.Str("Adiós"))
  {
    assert Js.IsTrimmed("Adiós");
    assert forall i :: 0 <= i < |AcceptedForms(SeedHello())| ==> |AcceptedForms(SeedHello())[i]| == 4;
    LengthMismatchIsWrong(SeedHello(), "Adiós");
  }
}
