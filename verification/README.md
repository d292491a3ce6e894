# Language-learning API: scheduling, progress, grading and auth in Dafny

This project models the server-side core of a language-learning API and
proves properties of that model. The API is written in TypeScript with
Express and Prisma. The model covers five parts:

- **SM-2 scheduler and review queue.** `calculateNextReview` computes the
  next interval, ease factor and repetition count. The `SpacedRepetitionService`
  keeps one review entry per (learner, exercise). It creates entries
  idempotently, reschedules them after every attempt, lists due entries,
  counts them and deactivates them.
- **Progress service.** It covers enrolment, the skill tree with its
  linear unlock chain, and lesson completion. Completion runs three guards,
  then computes XP with a streak bonus, writes a snapshot and an XP
  transaction, enqueues the lesson's exercises for review, recomputes course
  progress and advances the daily streak.
- **Learner routes.** The request checks of `POST /lessons/:id/complete`,
  and the grading, score, SM-2 quality and XP award of
  `POST /exercises/:id/attempt`.
- **Auth service.** Signup with its ordered field checks, the email
  pattern and the conflict message; login with a uniform failure; and the
  password-reset token lifecycle (issue, then use once within one hour).
- **Auth middleware.** Bearer-header parsing and the role gates.

The database is one immutable value, `Store.Db`. It holds users, reset
tokens, the course catalogue, enrolments, completion snapshots, the XP
ledger, streaks, the review queue and exercise attempts. Every service
operation is a pure function from one `Db` to the next, or to an
`AppError` carrying the HTTP status and message the source throws.

Time is a single millisecond clock `now` passed as a parameter. A calendar
day is `now / 86_400_000` (UTC days). Foreign calls are parameters:

- bcrypt hash and compare;
- JWT sign (over the claims and the issue time, from which the token's
  issue and expiry stamps come) and verify;
- the new user's id;
- the reset token.

`Math.round` is `floor(x + 0.5)` over exact reals.

Where the repository's tests and its code disagree, the model follows the
code. The scheduler tests expect an ease factor near 2.36 after a
quality-4 review. The code's SM-2 formula leaves the ease unchanged at
quality 4 and raises it by 0.1 at quality 5. `Scheduler.EaseChangeOnPass`
proves the latter.

Files: `wrappers.dfy` (Option, Result, AppError), `js.dfy` (JavaScript
values, `trim`, `toLowerCase`/`toUpperCase` on ASCII and Latin-1, UTF-16 `length`), `scheduler.dfy`,
`review_queue.dfy`, `content.dfy` (catalogue), `store.dfy` (tables),
`progress_rules.dfy` (XP and streak rules), `skill_tree.dfy`,
`progress.dfy`, `learner_routes.dfy`, `auth_service.dfy`,
`auth_middleware.dfy`.

## Model

| member | source | states |
|---|---|---|
| Scheduler.CalculateNextReview | apps/api/src/services/spaced-repetition.service.ts:24-65 | On a pass (quality ≥ 3) repetitions go up by exactly one; the interval is 1, then 6, then round(old interval × incoming ease); the ease moves by the SM-2 delta. On a fail, repetitions are 0, the interval is 1 and the ease is not recomputed. The ease is never below 1.3. The next review is now plus the interval in days. |
| Scheduler.ValidStatePreserved | apps/api/src/services/spaced-repetition.service.ts:34-54 | From a state with interval ≥ 1, repetitions ≥ 0 and ease ≥ 1.3, every quality leads to such a state again. |
| Scheduler.EaseChangeOnPass | apps/api/src/services/spaced-repetition.service.ts:45-54 | A pass raises the ease by 0.1 at quality 5, keeps it at quality 4, and lowers it by 0.14 (floored at 1.3) at quality 3. |
| Scheduler.FreshEntryPassChain | apps/api/src/services/spaced-repetition.service.test.ts:6-28 | Three quality-4 reviews of a fresh entry give intervals 1, 6 and 15 with repetitions 1, 2, 3, and the ease stays 2.5. |
| Scheduler.PassLengthensLongIntervals | apps/api/src/services/spaced-repetition.service.test.ts:131-136 | Past the learning steps a pass never shortens the interval and strictly lengthens any interval of two days or more. |
| Scheduler.Round | apps/api/src/services/spaced-repetition.service.ts:42 | `Math.round` yields the integer within half a unit of its argument, halves rounded up. |
| ReviewQueue.AddToQueue | apps/api/src/services/spaced-repetition.service.ts:68-98 | An existing entry is returned and the queue is unchanged. Otherwise the new entry has interval 1, ease 2.5, no repetitions, is active and is due in one day. A valid queue stays valid. |
| ReviewQueue.AddToQueueIdempotent | apps/api/src/services/spaced-repetition.service.ts:78-80 | Adding the same exercise again, at any time, changes nothing and returns the same entry. |
| ReviewQueue.UpdateAfterAttempt | apps/api/src/services/spaced-repetition.service.ts:100-152 | Only the (user, exercise) entry changes. Its four scheduling fields are the scheduler's output from the stored values, or from the defaults when the entry is new. Every other entry is untouched. |
| ReviewQueue.UpdateIsAddThenSchedule | apps/api/src/services/spaced-repetition.service.ts:114-140 | Updating after an attempt equals get-or-create through `addToQueue`, followed by scheduling that entry. |
| ReviewQueue.FailedAttemptResets | apps/api/src/services/spaced-repetition.service.ts:47-50 | After a failed review the entry has no repetitions, a one-day interval and is due one day from now. |
| ReviewQueue.SortByNextReview | apps/api/src/services/spaced-repetition.service.ts:168-170 | The result lists exactly the given entries, once each, in ascending order of next review. |
| ReviewQueue.Insert | apps/api/src/services/spaced-repetition.service.ts:168-170 | Inserting into a list sorted by next review keeps it sorted, adds exactly the new entry, and keeps it duplicate-free. |
| LearnerRoutes.NextReviewsRoute | apps/api/src/routes/learner.routes.ts:178-184 | The route returns min(limit, number due) of the learner's due entries, with a limit of 10 when the request gives none. They are distinct and earliest first, and no due entry left out is earlier than one returned. When no more are due than the limit, every due entry is returned. |
| ReviewQueue.GetNextExercises | apps/api/src/services/spaced-repetition.service.ts:154-173 | The result holds only the learner's active entries due by now, earliest first, min(limit, number due) of them. No entry left out is due earlier than one returned. |
| ReviewQueue.GetDueExercisesByLesson | apps/api/src/services/spaced-repetition.service.ts:210-238 | The result holds exactly the learner's active, due entries for the lesson's exercises, with no cap, earliest first. |
| ReviewQueue.GetQueueStats | apps/api/src/services/spaced-repetition.service.ts:240-281 | total counts the learner's active entries; due counts those whose next review is at or before now; learning counts those with no repetitions and review those with some. So due ≤ total, and on a valid queue (no negative repetition counts) learning + review = total. |
| ReviewQueue.NewExerciseCounted | apps/api/src/services/spaced-repetition.service.ts:240-281 | Queueing an exercise the learner has no entry for raises total and learning by one. Due and review stay the same until the new entry falls due a day later. |
| ReviewQueue.DeactivateExercise | apps/api/src/services/spaced-repetition.service.ts:283-293 | No entry is removed. Only the matching entry changes, and only its active flag, which becomes false. |
| ReviewQueue.DeactivatedNeverDue | apps/api/src/services/spaced-repetition.service.ts:283-293 | After deactivation the exercise is neither due nor active for the learner. |
| ReviewQueue.EnqueueAll | apps/api/src/services/spaced-repetition.service.ts:301-303 | `addToQueue` over a list of exercises adds exactly their keys. Existing entries are unchanged, and new ones are default entries. |
| ReviewQueue.EnqueueLessonExercises | apps/api/src/services/spaced-repetition.service.ts:295-304 | Every exercise of the lesson ends up with an entry for the learner. Existing entries are untouched, and nothing outside the lesson is added. Each new entry is the default one `addToQueue` creates. |
| ReviewQueue.EnqueueLessonIdempotent | apps/api/src/services/spaced-repetition.service.ts:295-304 | Enqueueing a lesson a second time changes nothing. |
| Progress.EnrollInCourse | apps/api/src/services/progress.service.ts:43-80 | An unknown course is a 404 and an unpublished one a 400. It succeeds exactly for a published course. An existing enrolment is returned as it is; a new one starts at 0 % and is not completed. |
| Progress.EnrollIdempotent | apps/api/src/services/progress.service.ts:68-70 | A second enrolment returns the first and creates nothing. |
| Progress.GetSkillTree | apps/api/src/services/progress.service.ts:82-175 | A 404 unless the learner is enrolled. Otherwise there is one node per published module, in order. The first node is unlocked, and node i is locked exactly when node i-1 is not completed. A module is completed exactly when it has published lessons and all are completed. Each node is that module's node: its id, title, progress and lesson children are computed from the learner's completed lessons in the course, with the lock taken from the node before it. |
| Progress.SkillTreeLessonLocks | apps/api/src/services/progress.service.ts:143-157 | The very first lesson is unlocked. A module's first lesson is locked exactly when the previous module is not completed. Any later lesson is locked exactly when the lesson before it is not completed. |
| SkillTree.LessonNodes | apps/api/src/services/progress.service.ts:143-158 | One node per lesson. A node is completed and at 100 % exactly when its lesson is completed, else at 0 %. The lock rule is the same as above. |
| SkillTree.ModuleProgress | apps/api/src/services/progress.service.ts:137-141 | Module progress is 0 for a module without lessons. Otherwise progress × lessons = completed lessons × 100. It lies in [0, 100], and is 100 exactly when the module has lessons and all are completed, so an empty module is never completed. |
| SkillTree.ModuleNodes | apps/api/src/services/progress.service.ts:132-172 | Each module node is built with its predecessor's completion as the unlock flag, and is completed exactly when its module is done. |
| SkillTree.ChildLocks | apps/api/src/services/progress.service.ts:144-157 | Lesson locks across module boundaries follow the previous lesson, or the previous module for a module's first lesson. |
| Progress.CompleteLesson | apps/api/src/services/progress.service.ts:177-324 | The checks run in order: unknown lesson 404, not enrolled 400, already completed 400. It succeeds exactly otherwise. On success it appends a snapshot and an XP transaction of the same amount; the XP is the base XP with the streak bonus. The lesson's exercises are enqueued, course progress is recomputed and the streak is advanced. Users, tokens, catalogue and attempts are unchanged. |
| Progress.CompleteLessonExactlyOnce | apps/api/src/services/progress.service.ts:213-222 | Completing the same lesson again fails with "already completed", and the learner's total XP grew by the first award only. |
| ProgressRules.BaseXp | apps/api/src/services/progress.service.ts:232-233 | Base XP is at least 10. It is either 10 or the rounded score share of the lesson's points, with 20 standing in for 0 points, and it is never below that share. |
| ProgressRules.PerfectScoreEarnsLessonPoints | apps/api/src/services/progress.service.ts:233 | A score of 100 earns exactly the lesson's points when they are at least 10, or 20 for a lesson worth nothing. Lessons worth 1 to 9 points earn the 10-point minimum instead and are outside this lemma. |
| ProgressRules.StreakBonus | apps/api/src/services/progress.service.ts:239 | The bonus is absent (null) without a streak row, and true exactly when the current streak is at least 7. |
| ProgressRules.LessonXp | apps/api/src/services/progress.service.ts:240 | With the bonus, XP is round(1.5 × base); without it, XP is the base. XP is never below the base. |
| ProgressRules.BonusXpAtLeastFifteen | apps/api/src/services/progress.service.ts:233-240 | A lesson with the streak bonus earns at least 15 XP. |
| ProgressRules.NextStreak | apps/api/src/services/progress.service.ts:272-316 | With no row the streak is (1, 1). A day difference of 1 adds one to the current run and makes the longest the larger of the old longest and the new current run; 0 keeps both; anything else restarts the current run at 1. The longest run never decreases. |
| ProgressRules.StreakConsistencyPreserved | apps/api/src/services/progress.service.ts:272-316 | A streak whose current run is at most its longest run (longest ≥ 1) stays so after a completion. |
| ProgressRules.FlooredDaysBetween | apps/api/src/services/progress.service.ts:278-281 | The as-written count is the largest whole number of 24-hour days that fit in the gap. |
| ProgressRules.DaysBetween | apps/api/src/services/progress.service.ts:278-281 | The intended count is the whole number of days nearest the gap, within half a day. NextStreak uses it. |
| ProgressRules.SpringForwardMiscounted | apps/api/src/services/progress.service.ts:278-281 | Flooring the gap between local midnights 23 hours apart gives 0 days, and 47 hours apart gives 1. |
| ProgressRules.DaysBetweenToleratesShift | apps/api/src/services/progress.service.ts:278-281 | Rounding counts midnights n days apart, give or take less than half a day of clock change, as n days. |
| ProgressRules.SpringForwardCounted | apps/api/src/services/progress.service.ts:278-281 | The rounded count sees 23 hours as 1 day and 47 hours as 2. |
| ProgressRules.MidnightsDaysBetween | apps/api/src/services/progress.service.ts:272-281 | For UTC midnights the rounded count equals the difference of UTC day numbers. |
| ProgressRules.SeededStreakBreaksAfterGap | apps/api/src/services/progress.service.ts:298-305 | Signup's (0, 0) row followed by a completion two or more days later gives current 1 > longest 0. |
| ProgressRules.SameDayCompletionIsStable | apps/api/src/services/progress.service.ts:291-297 | A second completion on the same day leaves current and longest unchanged. |
| ProgressRules.ConsecutiveDaysExtendStreak | apps/api/src/services/progress.service.ts:282-290 | One completion on each of n consecutive days raises the current run by n and the longest to at least that. |
| ProgressRules.Percent | apps/api/src/services/progress.service.ts:359 | The percentage times the total is 100 times the done count. It is 100 exactly when all are done, and lies in [0, 100] when done ≤ total. |
| Progress.UpdateCourseProgress | apps/api/src/services/progress.service.ts:326-373 | Nothing changes for an unknown course or one with no published lessons. Otherwise only this enrolment changes: progress is the completed share of published lessons across all modules, completedAt is set exactly at 100 % and cleared otherwise, and the access time is refreshed. |
| Progress.CourseProgressAtMost100 | apps/api/src/services/progress.service.ts:342-359 | When every completed lesson is a published lesson of the course, recorded progress lies in [0, 100]. |
| LearnerRoutes.RequireParam | apps/api/src/routes/learner.routes.ts:11-16 | An absent or empty path parameter is a 400 "<name> is required"; otherwise the value passes through. |
| LearnerRoutes.CompleteLessonRoute | apps/api/src/routes/learner.routes.ts:84-106 | timeSpent must be a number ≥ 0, then score a number in [0, 100], then the id present. Each failure is its 400. Otherwise the result is the service's completion, whose snapshot carries a valid score and time. |
| LearnerRoutes.AdmittedScoreBoundsXp | apps/api/src/routes/learner.routes.ts:92-94 | With an admitted score, base XP is between 10 and the larger of 10 and the lesson's points. |
| LearnerRoutes.Matches | apps/api/src/routes/learner.routes.ts:127-130 | A normalised answer is accepted exactly when it equals the lower-cased canonical answer or a lower-cased alternative. |
| LearnerRoutes.Grade | apps/api/src/routes/learner.routes.ts:125-130 | An answer is correct exactly when its trimmed, lower-cased form (or "" for a non-string) equals a lower-cased accepted form. |
| LearnerRoutes.AcceptedFormIsCorrect | apps/api/src/routes/learner.routes.ts:125-130 | Each accepted form without surrounding whitespace, typed as stored, is correct. |
| LearnerRoutes.PaddingIgnored | apps/api/src/routes/learner.routes.ts:126 | Whitespace around a string answer does not change its grade. |
| LearnerRoutes.LetterCaseIgnored | apps/api/src/routes/learner.routes.ts:126-128 | Upper-casing a string answer does not change its grade, under the modelled case mapping (ASCII and Latin-1 letters). |
| LearnerRoutes.PaddedCanonicalNeverMatches | apps/api/src/routes/learner.routes.ts:126-128 | Stored forms are not trimmed. A canonical answer with whitespace at an end, and no alternatives, accepts no answer at all. |
| LearnerRoutes.LengthMismatchIsWrong | apps/api/src/routes/learner.routes.ts:126-130 | A trimmed answer whose length matches no accepted form is wrong. |
| LearnerRoutes.ShoutedPaddedFormIsCorrect | apps/api/src/routes/learner.routes.ts:126-130 | An accepted form typed in capitals (modelled case mapping) with whitespace around it is correct. |
| LearnerRoutes.SeedGreetingShouted | apps/api/prisma/seed.ts:377-380 | The seed's "Buenos días" answered as "  BUENOS DÍAS " is correct. |
| LearnerRoutes.SeedGreetingAlternative | apps/api/prisma/seed.ts:377-380 | The seed's unaccented alternative "buenos dias" is correct. |
| LearnerRoutes.SeedGreetingPartial | apps/api/prisma/seed.ts:377-380 | "buenos" alone is wrong for the seed greeting. |
| LearnerRoutes.SeedHelloRejectsGoodbye | apps/api/prisma/seed.ts:360-362 | "Adiós" is wrong for the seed's "Hola" exercise, which has no alternatives. |
| LearnerRoutes.AttemptQuality | apps/api/src/routes/learner.routes.ts:133 | The reported quality is a valid SM-2 quality. It passes the review exactly when the attempt is correct. |
| LearnerRoutes.AttemptExercise | apps/api/src/routes/learner.routes.ts:108-176 | The checks run in order: missing id 400, falsy answer or non-numeric time 400, unknown exercise 404. It succeeds exactly otherwise. The score is the points when correct, else 0. Every attempt is recorded and reschedules the review entry with its quality. XP equal to the score is appended exactly when correct. The canonical answer is revealed exactly when wrong. Nothing else changes. |
| LearnerRoutes.AttemptXpEqualsScore | apps/api/src/routes/learner.routes.ts:153-163 | An attempt raises the learner's total XP by exactly its score. |
| LearnerRoutes.AttemptReschedulesReview | apps/api/src/routes/learner.routes.ts:133-151 | A wrong attempt resets the review entry to no repetitions, due in one day; a correct one adds a repetition. |
| AuthService.IsValidEmail | apps/api/src/services/auth.service.ts:226-229 | The scanner accepts exactly the strings of `^[^\s@]+@[^\s@]+\.[^\s@]+$`. |
| AuthService.EmailExamples | apps/api/src/services/auth.service.test.ts:78-90 | "test@example.com" matches; "invalid-email" and "a b@c.de" do not. |
| AuthService.Signup | apps/api/src/services/auth.service.ts:40-115 | The checks run in order: a missing field, a password under 8, an invalid email, a username outside 3..20, lengths in UTF-16 code units; each is a 400. When all four pass and any user has the lower-cased email or username, the result is a 409. It succeeds exactly when the checks pass and no user conflicts. Then the user is stored lower-cased under the new id with the learner role and a (0, 0) streak, and is issued a token. |
| AuthService.ConflictMessage | apps/api/src/services/auth.service.ts:59-74 | The first matching user has the email exactly when some user has the email and no earlier user has the username; that decides between the two 409 messages. |
| AuthService.FirstUser | apps/api/src/services/auth.service.ts:59-66 | The lookup finds a matching user exactly when one exists, and none earlier matches. |
| AuthService.SignupKeepsAccountsWellFormed | apps/api/src/services/auth.service.ts:59-98 | Signup keeps emails and usernames unique and lower-case, and user ids unique. |
| AuthService.SignupTwiceRejected | apps/api/src/services/auth.service.ts:59-74 | After a signup, the same email again is a 409; with the same username too, the message is "Email already registered". |
| AuthService.SignupStreakThenGap | apps/api/src/services/auth.service.ts:90-96 | Signup's (0, 0) streak and a first lesson two days later give current 1 above longest 0. |
| AuthService.Login | apps/api/src/services/auth.service.ts:117-153 | A missing field is a 400. It succeeds exactly when the user stored under the lower-cased email exists and the password matches its hash. An unknown email and a wrong password give the same 401. A success is the stored user's view with a token signed over its claims at the login time. |
| AuthService.AstralLengths | apps/api/src/services/auth.service.ts:47-57 | Four emoji are 4 code points and exactly 8 UTF-16 units, the password minimum. Twenty emoji are 20 code points, the username maximum, but 40 units. |
| AuthService.SignupThenLogin | apps/api/src/services/auth.service.ts:78-153 | Logging in after signup, at any later time, with the same password succeeds with the signup's user view and a token signed over the new user's claims at the login time. |
| AuthService.RequestPasswordReset | apps/api/src/services/auth.service.ts:155-183 | A missing email is a 400 and an unknown user a 404. Otherwise one fresh, unused token for that user is stored, expiring exactly one hour later. |
| AuthService.ResetPassword | apps/api/src/services/auth.service.ts:185-224 | The checks run in order: missing field, password under 8 UTF-16 code units, unknown token, used token, expired token. It succeeds exactly when all pass. Then the token's user gets the new hash and the token is stamped used. |
| AuthService.SetPassword | apps/api/src/services/auth.service.ts:215-218 | Only the users with the token's user id get the new hash. |
| AuthService.ResetTokenSingleUse | apps/api/src/services/auth.service.ts:204-206 | A second use of a token, with any valid password at any time, is "already used". |
| AuthService.ResetTokenLifetime | apps/api/src/services/auth.service.ts:171 | A token is accepted exactly one hour after issue and refused as expired one millisecond later. |
| AuthService.ResetThenLogin | apps/api/src/services/auth.service.ts:185-224 | After a reset, the token's user can log in with the new password. |
| AuthService.SetPasswordLookup | apps/api/src/services/auth.service.ts:214-218 | Changing a password does not change whom a lookup by email finds. |
| AuthMiddleware.Authenticate | apps/api/src/middleware/auth.ts:9-33 | A missing header, or one not starting with "Bearer ", is 401 "No token provided". A token that fails verification is 401 "Invalid or expired token". Otherwise the user is the verified claims of the header minus its first 7 characters. |
| AuthMiddleware.BearerRoundTrip | apps/api/src/middleware/auth.ts:17-24 | "Bearer " + token hands exactly that token to verification. |
| AuthMiddleware.LowerCaseSchemeRejected | apps/api/src/middleware/auth.ts:17-19 | The scheme is case-sensitive: "bearer …" is "No token provided". |
| AuthMiddleware.RequireRole | apps/api/src/middleware/auth.ts:35-49 | No user is a 401, and a role outside the list is a 403. The request passes exactly when the user's role is listed. |
| AuthMiddleware.RequireAdmin | apps/api/src/middleware/auth.ts:51-57 | Passes exactly admins. |
| AuthMiddleware.RequireLearner | apps/api/src/middleware/auth.ts:59-65 | Passes exactly learners and admins. |
| AuthMiddleware.AdminPassesLearnerGate | apps/api/src/middleware/auth.ts:51-65 | Whoever passes the admin gate passes the learner gate. |
| AuthMiddleware.LearnerGateAdmits | apps/api/src/routes/learner.routes.ts:18-19 | Learner endpoints admit exactly a verified learner or admin. Other roles get a 403 and everything else a 401. |
| Js.Trim | apps/api/src/routes/learner.routes.ts:126 | `trim` returns the slice of the string between its leading and its trailing whitespace, and the slice neither starts nor ends with whitespace. |
| Js.Utf16LengthOfBmp | apps/api/src/services/auth.service.ts:47 | `length` counts one unit per code point up to U+FFFF. |
| Js.Utf16LengthOfAstral | apps/api/src/services/auth.service.ts:47 | `length` counts two units per code point above U+FFFF. |
| Js.TrimIgnoresPadding | apps/api/src/routes/learner.routes.ts:126 | `trim` drops whitespace added at either end of a string with none. |
| Js.TrimUpper | apps/api/src/routes/learner.routes.ts:126 | Trimming commutes with upper-casing (modelled case mapping). |
| Js.LowerKeepsTrimmed | apps/api/src/routes/learner.routes.ts:126-128 | Lower-casing neither adds nor removes whitespace at the ends. |
| Store.TotalXpAppend | apps/api/src/services/progress.service.ts:257-265 | Appending a transaction adds its amount to its own user's XP total only. |

## Left out

- Persistence: Prisma, `$transaction` atomicity and `Promise.all` concurrency. Writes happen in sequence on one immutable store, and each operation either fails before any write or applies all of them.
- Dates: `Date`, local-midnight truncation, time zones and DST. A day is a UTC day number of a millisecond clock. The streak's day count is the rounded form from the Findings table below, which equals the difference of UTC day numbers. `setDate(getDate() + n)` is `n × 86 400 000` ms.
- Floating point: IEEE-754 rounding in ease factors, percentages and XP. Exact reals are used, with `Math.round` as floor(x + 0.5).
- Text handling: full Unicode `toLowerCase`/`toUpperCase`. Case mapping covers the ASCII letters and the Latin-1 letters that map one to one (U+00C0–U+00DE except U+00D7, and U+00E0–U+00FE except U+00F7). Mappings that change length or leave Latin-1 are not modelled: "ß" upper-cases to "SS", "ÿ" to "Ÿ" and "µ" to "Μ" in JavaScript but stay unchanged here. So LearnerRoutes.LetterCaseIgnored, LearnerRoutes.ShoutedPaddedFormIsCorrect and Js.TrimUpper hold for the modelled mapping only. `trim` uses the ECMAScript whitespace set.
- Foreign calls: bcrypt, JSON Web Tokens, uuid and the password-reset email. Hashing, comparison, signing (given the claims and the clock) and verification are parameters; a new user id and a reset token are inputs; the email is not sent.
- AuthService.RequestPasswordReset: requires the token to be absent from the token table, which stands in for uuid uniqueness.
- AuthService.Signup: requires the new id to be fresh (no user or streak row has it), which stands in for the database's uuid default.
- `getProgressSnapshot`, `getUserEnrollments` and `getNextExerciseCards`: joins and aggregates with display rounding. Other route handlers, the content and profile services and the web app are also not part of this model.
- ReviewQueue.GetNextExercises: `limit` is a natural number. The route's `parseInt` of the query string, and negative or NaN limits, are not modelled.
- Request fields: NaN is not modelled. An absent auth field is the empty string, and auth fields are strings; non-string bodies to the auth service are not modelled.
- LearnerRoutes.AttemptExercise: the attempt id is the attempt's position in the attempt log rather than a uuid.
- Lookups that Prisma makes with `findFirst` and no ordering are modelled as the first match in table order.
- Users, lessons and exercises referenced by missing foreign keys are not modelled; ids in the catalogue are taken as unique.
- Profile and preferences rows created at signup are not modelled; signup creates the user and its streak.
- Skill-tree nodes: the constant `type` tag ("module" or "lesson") and the `sortOrder` field are not stored on nodes. Catalogue sequences are already in `sortOrder` order, and the nodes follow them.

## Findings

| source | as written | input that shows it | evidently intended | confidence | as-written member | corrected member |
|---|---|---|---|---|---|---|
| apps/api/src/services/progress.service.ts:278-281 | The day count floors the gap between two local midnights divided by 24 hours. | In a zone with daylight saving, the local midnights of the two days around a spring-forward change are 23 hours apart. The count is 0, so a lesson on the next day keeps the streak instead of extending it. Two days later the gap is 47 hours, the count is 1, and a missed day still extends the streak. | Count calendar days, for example by rounding the gap to the nearest whole day. | not executed; only when the server's time zone observes daylight saving | ProgressRules.FlooredDaysBetween; ProgressRules.SpringForwardMiscounted | ProgressRules.DaysBetween; ProgressRules.SpringForwardCounted |
