# Gamification engine of the learning tracker, in Dafny

This project models the progression engine of a gamified learning tracker. In the engine:

- Students earn experience points (XP) for logging in, completing topics, submitting quizzes,
  reviewing flashcards and completing daily challenges.
- The XP total decides a level.
- Logging in on consecutive days builds a streak. A streak survives a missed day by spending a
  freeze credit, and earns bonus XP and new credits at milestones.
- Every XP credit ends with a badge pass. The pass awards each badge from a fixed checklist
  whose condition the student now meets and which they do not yet hold.

## Modules

- `Levels` (`levels.dfy`): the level table and its lookup. `GetLevel` keeps the source's loop
  and is proved equal to `LevelFor`. Lemmas show that lookup picks the tier with the largest
  threshold reached and that the level is monotone in XP.
- `Records` (`records.dfy`): the stored rows as datatypes, the defaults of a new student and of
  a new progress row, and the name-to-badge catalog lookup.
- `Streaks` (`streaks.dfy`): the day-to-day streak transition with freeze forgiveness, the
  milestone bonuses 7 → 200, 14 → 400 and 30 → 1000, and the freeze credit earned on every
  multiple of seven. Lemmas cover:
  - the transition table;
  - the running maximum;
  - the freeze balance;
  - idempotence on the same day;
  - runs of consecutive logins.
- `Badges` (`badges.dfy`):
  - the twenty checklist rules and their conditions;
  - the checklist in the evaluator's order;
  - `Grants`, the ids that awarding a sequence of names adds. It starts from the earned set
    read once and skips a name missing from the catalog or already held.
  - Lemmas: a pass never grants a held badge and never grants one twice, and a second pass
    grants nothing.
- `Rewards` (`rewards.dfy`):
  - quiz scoring and XP, with the perfect bonus;
  - the best-score rule;
  - the decimal text of the quiz reason, with a round trip;
  - the daily challenge's track and position: the ordinal modulo 30, with the last (boss)
    challenge on Sundays;
  - the leaderboard rows.
- `Engine` (`engine.dfy`): the class `Db`. Its fields are the tables the engine writes:
  students, XP ledger, badge rows, topic progress, quiz results, daily challenges and
  flashcard progress. Its methods are:
  - `AddXp`, `UpdateStreak` and `CheckBadges`, the engine's helpers;
  - the route bodies: `Login`, `CompleteTopic`, `SubmitQuiz`, `TutorReplied`,
    `UpdateFlashcardProgress`, `GetTodayChallenge` and `SubmitChallenge`.

### The invariant `Db.Valid`

Every route method, and every helper that requires `Db.Valid`, preserves it. `Award` and
`AwardAll` are the steps inside `CheckBadges`: they state only the rows they add, and
`CheckBadges` re-establishes `Db.Valid` after them. `Db.Valid` says:

- every student's level is the one the table gives its XP;
- its current streak is at most its longest;
- its total equals the sum of its ledger entries;
- every ledger entry and badge row belongs to a known student;
- no badge is held twice;
- every badge row names a catalog badge.

Beside `Db.Valid`, every route and `AddStudent` keep `XpNonNegative` (every total is at least
0) and ensure `XpKept`: no student row disappears and no total goes down. `AddXp` itself
takes any amount, as `add_xp` does, so these two hold of the routes, whose amounts are never
negative, and not of `AddXp`.

### How each method is specified

Each state-changing method states its whole new state in terms of functions of the old state.
The functions are `Credit`, `AfterStreak`, `CompleteIn`, `AttemptIn`, `BadgeRows` and
`FirstStepsRows` / `ComebackRows`. Lemmas about those functions state what the source
promises. Some behaviour is modelled as the source writes it and is visible in the contracts
(a usage note, not a claim that anything is wrong):

- `SubmitChallenge` credits the student id of the request, not the challenge's owner.
- `SubmitChallenge` credits again on every resubmission.
- `UpdateFlashcardProgress` credits on every call once ten cards of the deck have rows.
- `CompleteTopic` credits even when the topic was already complete.

## Model

| member | source | states |
|---|---|---|
| Levels.LastAtMost | backend/main.py:129-134 | the position chosen is a tier whose threshold the total reaches, and every later tier's threshold lies above the total |
| Levels.GetLevel | backend/main.py:129-134 | the loop that overwrites the answer at each tier reached returns the level name of the last tier reached, or Explorer when none is reached |
| Levels.LevelTableAscending | backend/main.py:124-127 | the thresholds strictly ascend and start at 0 |
| Levels.LargestThresholdAtMost | backend/main.py:129-134 | in an ascending table the chosen tier has the largest threshold not above the total; no tier is chosen exactly when the total is below the first threshold |
| Levels.LastAtMostMonotone | backend/main.py:129-134 | a larger total never selects an earlier tier |
| Levels.LevelRankMonotone | backend/main.py:124-134 | the level never goes down as XP rises |
| Levels.LevelBands | backend/main.py:124-134 | Explorer below 500, Builder below 1500, Engineer below 3000, Scientist below 5000, Legend from 5000 |
| Levels.NegativeXpIsDefault | backend/main.py:129-134 | a negative total reads as Explorer |
| Levels.LevelName | backend/main.py:129-134 | definition: the name of the last tier reached, or Explorer when none is |
| Levels.LevelFor | backend/main.py:124-134 | definition: the level name the `XP_LEVELS` table gives a total |
| Records.NewStudent | backend/models.py:16-21 | definition: a student row with 0 XP, Explorer, both streaks and the freezes at 0, and no last login |
| Records.NewProgress | backend/models.py:54-56 | definition: a progress row not completed, with score 0 and no attempts |
| Records.NewStudentConsistent | backend/models.py:16-21 | a new student's defaults (0 XP, Explorer, streaks 0, no last login) agree with the level table and the streak invariant |
| Records.CatalogOf | backend/main.py:179 | the name-to-badge lookup holds exactly the names of the catalog rows |
| Records.CatalogFindsEachBadge | backend/models.py:81 | with unique names, the lookup by a badge's name gives that badge's id |
| Streaks.Advance | backend/main.py:149-163 | definition: the streak columns after a login, before the bonus and the freeze credit |
| Streaks.MilestoneBonus | backend/main.py:166-171 | definition: 200, 400 or 1000 XP at streaks 7, 14 and 30, else 0 |
| Streaks.EarnsFreeze | backend/main.py:173 | definition: a streak that is a multiple of seven earns a freeze |
| Streaks.StreakLogin | backend/main.py:147-175 | definition: the streak columns after a whole login, freeze credit included |
| Streaks.StreakTransitions | backend/main.py:147-160 | same day: nothing changes; yesterday: the streak grows by one; otherwise a freeze is spent to grow the streak when there is a streak and a freeze, else the streak restarts at 1 |
| Streaks.StreakLoginInvariants | backend/main.py:153-175 | after a new day's login the streak is at least 1, the longest streak is the running maximum, the last login is today, and nothing else in the row changes |
| Streaks.FreezeBalance | backend/main.py:153-175 | the freeze count loses the credit a gap consumes and gains one when the new streak is a multiple of seven |
| Streaks.SameDayIdempotent | backend/main.py:148-150 | a second login on the same day changes nothing |
| Streaks.GapUsesFreezeOrResets | backend/main.py:155-160 | when the last login is two or more days back and a streak is running, the streak restarts at 1 without a freeze, and continues by one while spending one freeze with a freeze |
| Streaks.FirstLoginStartsStreak | backend/main.py:153-163 | a new student's first login starts a streak of 1 with longest 1 and no freezes |
| Streaks.MilestonesExact | backend/main.py:165-174 | bonus XP exists only at streaks 7, 14 and 30, as 200, 400 and 1000, and every bonus streak but 30 also earns a freeze |
| Streaks.FreezeWithoutBonus | backend/main.py:165-174 | streaks 21 and 28 earn a freeze and no bonus; 30 earns the bonus and no freeze |
| Streaks.ConsecutiveLogins | backend/main.py:147-175 | n consecutive daily logins extend the streak by n, keep the longest as the maximum, and earn one freeze per multiple of seven passed |
| Streaks.FirstWeek | backend/main.py:147-175 | seven daily logins from a new student reach streak 7 with one freeze, the seventh carrying the 200 XP bonus |
| Badges.Holds | backend/main.py:187-267 | definition: the condition of each of the twenty checklist rules |
| Badges.Fired | backend/main.py:187-267 | definition: the rules of the checklist (`CHECKLIST`, in source order) whose condition holds |
| Badges.Checklist | backend/main.py:187-267 | definition: the badge names of the rules that fire, in order |
| Badges.TrackBadge | backend/main.py:223-230 | definition: the track badge the if/elif chain on the track id picks |
| Badges.Grant | backend/main.py:181-185 | definition: one award gives the named badge's id, unless the name is missing from the catalog or the id is held |
| Badges.Grants | backend/main.py:178-185 | definition: the ids the awards of a list of names add, each award seeing those before it |
| Badges.Select | backend/main.py:187-267 | the rules kept are exactly the rules of the list whose condition holds, and no more of them than in the list |
| Badges.ChecklistComplete | backend/main.py:187-267 | every one of the twenty badge rules is on the checklist |
| Badges.FiredExactly | backend/main.py:187-267 | a rule fires in a pass if and only if its condition holds for the student |
| Badges.GrantsAreNew | backend/main.py:178-185 | a pass never grants a held badge, never grants one twice, and grants only catalog ids of names tried |
| Badges.GrantsCover | backend/main.py:181-185 | after a pass every catalog badge tried is held |
| Badges.GrantsNothingWhenHeld | backend/main.py:181-185 | a pass over names whose badges are all held grants nothing |
| Badges.SecondPassGrantsNothing | backend/main.py:178-185 | rerunning a pass on what the first granted grants nothing |
| Badges.OnePathBadge | backend/main.py:220-230 | at most one track badge holds, and only the student's own track's |
| Badges.ClockBadgesExclusive | backend/main.py:257-262 | Night Owl and Early Bird never fire in the same pass |
| Rewards.CountCorrect | backend/main.py:804 | the count of correct answers is at most the number of answers, equals it exactly when every answer is correct, and is 0 exactly when none is |
| Rewards.ScoreRange | backend/main.py:804-806 | the score lies in [0, 100], is 100 exactly for a non-empty all-correct submission, and is above 0 exactly when an answer is correct |
| Rewards.QuizXpOfAnswers | backend/main.py:804-810 | a submission earns at most 10 per question plus 50, the full amount exactly when it is non-empty and all correct, and nothing when empty |
| Rewards.EightOfTen | backend/main.py:804-810 | eight of ten correct scores 80 and earns 80 XP |
| Rewards.BestScore | backend/main.py:827-828 | the stored score is replaced only by a higher one, so the kept score is the larger of the two |
| Rewards.BestOf | backend/main.py:822-829 | over a sequence of attempts the stored score is the maximum of the default and every attempt's score |
| Rewards.QuizScore | backend/main.py:806 | definition: correct / total * 100, or 0 for an empty submission |
| Rewards.QuizXp | backend/main.py:808-810 | definition: 10 per correct answer, plus 50 when the score is exactly 100 |
| Rewards.QuizXpBonus | backend/main.py:804-810 | the XP of a submission, stated without its score: 10 per correct answer, plus 50 exactly when it is non-empty and all correct |
| Rewards.QuizReason | backend/main.py:832 | definition: the ledger reason "Quiz: c/t correct" |
| Rewards.NatToString | backend/main.py:832 | a count is written as a non-empty string of decimal digits without leading zeros, as `str` writes it |
| Rewards.NatToStringRoundTrip | backend/main.py:832 | reading the digits of the reason text back gives the count |
| Rewards.Weekday | backend/main.py:1097 | the weekday of an ordinal lies in 0..6 |
| Rewards.WeekdayAnchor | backend/main.py:1097 | the weekday follows `date.weekday()` on proleptic ordinals: ordinal 1 and 2024-01-01 (738886) are Mondays, 2024-01-07 (738892) is a Sunday |
| Rewards.ChallengeTrack | backend/main.py:1093 | a student of a listed track draws their own track's challenges, any other student the gaming list |
| Rewards.DayIndex | backend/main.py:1094-1098 | the day's position lies inside the list |
| Rewards.DayIndexRotation | backend/main.py:1094-1098 | Sundays take the last (boss) challenge; on other days the position moves one step around the list per day |
| Rewards.OneSundayPerWeek | backend/main.py:1097 | exactly one day in seven consecutive days is a Sunday |
| Rewards.MessageFor | backend/main.py:1133-1144 | definition: position i shows the i-th of the four messages, or the default from the fifth position on |
| Rewards.MessagesDistinct | backend/main.py:1133-1144 | two positions show the same message exactly when they are the same position or both are past the fourth |
| Rewards.GetLeaderboard | backend/main.py:1129-1146 | one row per ranked student in ranking order, each showing that student's columns, rank i + 1 and the message of its position |
| Rewards.LeaderboardRanks | backend/main.py:1139-1145 | ranks strictly increase within 1..n, only the first row is the king's, and rows after the fourth show the default message |
| Engine.LoggedTotal | backend/main.py:142 | definition: the sum of a student's ledger amounts |
| Engine.HeldBy | backend/main.py:178 | definition: the ids of the badges a student holds |
| Engine.CountPerfect | backend/main.py:202-205 | definition: the number of a student's quiz results scoring exactly 100 |
| Engine.CountCompletedTopics | backend/main.py:212-215 | definition: the number of a student's completed progress rows |
| Engine.CountProgress | backend/main.py:251-253 | definition: the number of a student's progress rows |
| Engine.CountCompleted | backend/main.py:243-246 | definition: the number of a student's completed daily challenges |
| Engine.DeckRows | backend/main.py:1052-1055 | definition: the number of cards of a deck a student has a progress row for |
| Engine.AfterStreak | backend/main.py:147-175 | definition: the student row after the streak update: transition, milestone credit, freeze credit |
| Engine.StreakBonus | backend/main.py:165-171 | definition: the milestone XP of a login |
| Engine.BonusEntries | backend/main.py:165-171 | definition: the ledger entry of the milestone bonus, if any |
| Engine.CompleteIn | backend/main.py:661-672 | definition: the first row of the student and topic is marked completed, or a completed row is added |
| Engine.AttemptIn | backend/main.py:818-829 | definition: the first row of the student and topic keeps the better score and counts one more attempt, or a row with this score and one attempt is added |
| Engine.AttemptsAfter | backend/main.py:829 | definition: the attempt count of the row after an attempt |
| Engine.StoredScore | backend/models.py:55 | definition: the stored best score of a student's row for a topic, or the default 0 |
| Engine.StoredAttempts | backend/models.py:56 | definition: the stored attempt count of a student's row for a topic, or the default 0 |
| Engine.AttemptsIn | backend/main.py:818-829 | definition: the progress table after a run of attempts on one topic |
| Engine.AttemptStep | backend/main.py:818-829 | one attempt applies the best-score rule to the stored score and adds one attempt, whether or not the row existed |
| Engine.AttemptsKeepBestOf | backend/main.py:818-829 | after any run of attempts scoring at least 0, the stored score is the best of the earlier score and every attempt, and every attempt is counted |
| Engine.NewChallenge | backend/main.py:1093-1104 | definition: a new, uncompleted challenge row for today, on the student's track at the day's position |
| Engine.Db.ActivityOf | backend/main.py:202-266 | definition: the counts the badge pass reads from the tables, with the chat count, hour and ranking of the request |
| Engine.Db.BadgeRows | backend/main.py:177-269 | definition: the rows a badge pass adds: one per checklist badge that fires and is not yet held |
| Engine.Db.CreditRows | backend/main.py:144 | definition: the rows of the badge pass after a credit, none for an unknown student |
| Engine.Db.StreakRows | backend/main.py:165-171 | definition: the rows of the milestone credit's badge pass, none without a milestone |
| Engine.Credit | backend/main.py:140-141 | a credit adds the amount to the total, resets the level from the table, and changes no other column |
| Engine.Rows | backend/main.py:184 | the rows granting a list of ids are one row per id, in order, for the student |
| Engine.FindToday | backend/main.py:1081-1084 | the challenge row found is the first row of that student for that day, and none is found only when there is no such row |
| Engine.FindProgress | backend/main.py:661-664 | the progress row found is the first row of that student and topic, and none is found only when there is no such row |
| Engine.AfterStreakMatchesLogin | backend/main.py:147-175 | the streak update is the streak transition with its freeze credit plus the milestone XP, keeps the row consistent, and its ledger entries sum to the bonus |
| Engine.GrantedRowsDistinct | backend/main.py:181-185 | appending grants of new ids keeps the badge rows free of repeats and adds exactly those ids to what the student holds, and nothing to others |
| Engine.FindTodayAppend | backend/main.py:1100-1106 | a new row for a day without one becomes the row found for that day, and rows already found stay found |
| Engine.LedgerCredit | backend/main.py:140-142 | crediting a row together with its ledger entry keeps every total equal to the sum of its ledger entries |
| Engine.LedgerReplace | backend/main.py:153-174 | changing the streak columns of a row keeps the ledger invariant |
| Engine.FindProgressUpdate | backend/main.py:669-671 | updating the row found keeps it the row found |
| Engine.FindProgressAppend | backend/main.py:665-668 | a new row for a student and topic without one becomes the row found |
| Engine.CompleteIdempotent | backend/main.py:660-672 | marking a topic complete twice leaves the progress table as marking it once |
| Engine.CountUpdate | backend/main.py:212-215 | replacing one progress row changes the completed count by the difference of the two rows |
| Engine.CountAfterComplete | backend/main.py:660-672 | completing a topic raises the completed count by one unless the student's row for it was already complete |
| Engine.AttemptKeepsBest | backend/main.py:818-829 | after an attempt the student's row for the topic exists, counts one more attempt, holds at least the new score and at least the previous best, and keeps its completed flag |
| Engine.CreditsAdd | backend/main.py:140-141 | two credits are one credit of their sum |
| Engine.CreditToBuilder | backend/main.py:140-141 | 150 XP plus 400 reaches 550 and Builder |
| Engine.SecondLoginSameDay | backend/main.py:147-150 | after a login, a second login the same day changes no streak column and earns no bonus |
| Engine.HeldByRows | backend/main.py:184-185 | the rows granting ids add exactly those ids to what the student holds |
| Engine.NoEntriesNoTotal | backend/main.py:136-142 | a student with no ledger entry has a logged total of 0 |
| Engine.XpKeptByRow | backend/main.py:140 | replacing a row by one whose total is not lower keeps every student and never lowers a total, and keeps all totals at least 0 |
| Engine.Db.constructor | backend/models.py:78-85 | an empty database is valid, with the given track sizes, and, the badge names being unique, the catalog finds each badge's id by its name |
| Engine.Db.AddStudent | backend/models.py:16-21 | registering inserts the row with its defaults and keeps the invariant; no student disappears, no total goes down, and every total stays at least 0 |
| Engine.Db.Award | backend/main.py:181-185 | one award adds the badge of that name unless it is missing from the catalog or already held, updating the earned set |
| Engine.Db.AwardAll | backend/main.py:178-185 | awarding a list of names in order, from the earned set read once, appends exactly the rows `Grants` gives |
| Engine.Db.CheckBadges | backend/main.py:177-269 | the pass appends one row for every checklist badge that fires and is not held, in checklist order, and keeps the invariant |
| Engine.Db.AddXp | backend/main.py:136-145 | an unknown student gets 0 and no change; a known one gets the credit, one ledger entry and the badge pass on the updated row, and the new total is returned |
| Engine.Db.Post | backend/main.py:140-142 | the row is credited and one ledger entry appended |
| Engine.Db.UpdateStreak | backend/main.py:147-175 | the row becomes its streak update, the ledger gains the milestone entry if any, and the bonus's badge pass runs before the freeze credit |
| Engine.Db.StreakBonusXp | backend/main.py:165-171 | streaks 7, 14 and 30 credit 200, 400 and 1000 with their reasons, other streaks nothing |
| Engine.Db.AdvanceStreak | backend/main.py:151-164 | the streak columns take the day's transition and the new streak is returned |
| Engine.Db.AddFreeze | backend/main.py:173-175 | one more freeze credit, nothing else changed |
| Engine.Db.FirstStepsOnce | backend/main.py:457-463 | First Steps is granted at most once |
| Engine.Db.FirstStepsRows | backend/main.py:457-463 | a login adds at most the First Steps row, and only for a student holding no badge |
| Engine.Db.AwardFirstSteps | backend/main.py:457-463 | the badge rows gain the First Steps row exactly when the student holds none |
| Engine.Db.Login | backend/main.py:451-466 | an unknown student is refused with no change; otherwise the First Steps row (no badge pass) for a student without badges, then the streak update (with the milestone's badge pass, if a milestone is reached), then 20 XP with its ledger entry and its badge pass; no student disappears, no total goes down, and every total stays at least 0 |
| Engine.Db.CompleteTopic | backend/main.py:660-674 | the progress row is marked complete (created if missing), then 50 XP is credited on every call; no student disappears, no total goes down, and every total stays at least 0 |
| Engine.Db.ComebackRows | backend/main.py:834-846 | at most the Comeback Kid row is added; it is added exactly for a retry (more than one attempt) scoring above 0 when the badge is in the catalog and not yet held |
| Engine.Db.ComebackOnce | backend/main.py:834-846 | Comeback Kid is granted at most once |
| Engine.Db.SubmitQuiz | backend/main.py:803-846 | the score lies in [0, 100] and is 100 exactly for a non-empty all-correct submission; the XP is 10 per correct answer plus 50 exactly then; the result row, the best score and attempt count, the quiz XP with the reason text and its badge pass, then Comeback Kid for a retry that scored; no student disappears, no total goes down, and every total stays at least 0 |
| Engine.Db.CreditQuiz | backend/main.py:831-846 | the quiz XP is credited with its reason and badge pass, no total goes down, then Comeback Kid is added exactly as `ComebackRows` says |
| Engine.Db.RecordAttempt | backend/main.py:818-830 | the progress row keeps the best score and counts the attempt, or is created with this score and one attempt |
| Engine.Db.AwardComeback | backend/main.py:838-846 | Comeback Kid is added when the attempt qualifies, the badge exists and it is not held |
| Engine.Db.TutorReplied | backend/main.py:912 | a tutor reply credits 0 XP: the total is unchanged but a ledger entry is appended and the badge pass runs; no student disappears, no total goes down, and every total stays at least 0 |
| Engine.Db.UpdateFlashcardProgress | backend/main.py:1042-1057 | the card's progress is recorded, then 30 XP is credited whenever the student has rows for at least ten cards of the deck, else nothing changes; no student disappears, no total goes down, and every total stays at least 0 |
| Engine.Db.GetTodayChallenge | backend/main.py:1074-1110 | an unknown student is refused; a stored row for today is returned unchanged; otherwise a new row of the student's track and the day's position is added and returned |
| Engine.Db.SubmitChallenge | backend/main.py:1112-1125 | an unknown challenge is refused with no change; otherwise it is marked done with the response and 100 XP, and 100 XP is credited to the requesting student; no student disappears, no total goes down, and every total stays at least 0 |
| Engine.Db.PassTwiceGrantsNothing | backend/main.py:177-269 | a badge pass run again on the same state grants nothing more |
| Engine.Db.PassKeepsValid | backend/main.py:177-269 | the rows a pass adds keep the badge table free of repeats and inside the catalog |

## Left out

- The tutor, quiz-generation and flashcard-generation calls to the language model, HTTP
  routing, the response payloads, the frontend and the seed scripts. They are outside the
  engine.
- The routes' SQL queries that the model's tables do not hold become inputs, in `Env`:
  - the number of user chat messages;
  - the clock hour;
  - the ids of the students (role "student") ordered by XP.

  `Env.ranked` and `Env.hour` are read once per request. The source re-runs the ranking query
  and calls `datetime.now()` in every badge pass, so the model does not capture a ranking or
  clock hour that changes between two badge passes of the same request.
- The clock is an input: today's date is a parameter given as its proleptic ordinal.
  Timestamps (`created_at`, `completed_at`, `earned_at`, `reviewed_at`) are not modelled.
- The quiz score is an exact `real`, not a floating-point number, so float rounding of
  `correct / total * 100` is not modelled.
- Engine.Db.Login: the lookup by name and PIN is modelled as a lookup by student id. Age,
  PIN and the credential check are not modelled.
- Engine.Db.TutorReplied: the chat route's message storage, conversation history and its
  fallback and exception paths are not modelled. Only the zero-XP credit after a reply is.
- Engine.Db.GetTodayChallenge and Engine.Db.SubmitChallenge:
  - a challenge's id is its position in the challenge table;
  - a new challenge row records its track and list position instead of the challenge text
    and type.
- Engine.Db.constructor requires unique badge names, as the catalog's unique column
  promises. Under it, the name-to-badge lookup of the badge pass and the First Steps /
  Comeback Kid `.first()` queries find the same badge. Duplicate names, where the dictionary
  keeps the last row and `.first()` the first, are not modelled.
- Concurrency: requests are modelled one after another. The source's handlers can
  interleave: the badge grants check and then insert with no unique constraint on the
  student-badge table, and `total_xp` is read, changed and written back. The no-duplicate
  badge rows and the ledger agreement in `Db.Valid` are proved only for serial requests.
- Engine.Db.CheckBadges: the checklist decisions are all taken from the state before the
  first award, and then the names are awarded in order. In the source each condition is
  evaluated between awards. The two agree because no condition reads the badge table.
- Engine.Db.UpdateFlashcardProgress: the flashcard table is keyed by (student, deck, card),
  so the source's first-row lookup and its update in place become a map update.
- Concepts, topics and flashcard decks are not kept as tables. The number of topics of each
  track is a constant of the database, `topicCounts`.
- Quiz generation, the cached question pool and the other read-only routes are not modelled.
  They do not change XP, streaks or badges.
