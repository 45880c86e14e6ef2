/** The gamification engine over the stored tables: crediting XP with its ledger entry and
    badge pass, the login streak, and the reward rules of the routes that grant XP. */
module Engine {
  import opened Levels
  import opened Records
  import opened Streaks
  import opened Badges
  import opened Rewards

  /** What a request reads from outside the modelled tables: the number of chat messages the
      student has sent, the local clock hour, and the ids of the students ordered by XP. */
  datatype Env = Env(userMessages: nat, hour: nat, ranked: seq<int>)

  /** Badge names granted outside the checklist. */
  const FIRST_STEPS: string := "First Steps"
  const COMEBACK_KID: string := "Comeback Kid"

  const LOGIN_XP: int := 20
  const TOPIC_XP: int := 50
  const FLASHCARD_XP: int := 30
  const CHALLENGE_XP: int := 100
  const DECK_SIZE: nat := 10

  /** The sum of the ledger amounts of one student. */
  function LoggedTotal(log: seq<XPLog>, sid: int): int {
    if log == [] then 0
    else LoggedTotal(log[..|log| - 1], sid) + (if log[|log| - 1].studentId == sid then log[|log| - 1].amount else 0)
  }

  lemma LoggedTotalSnoc(log: seq<XPLog>, e: XPLog)
    ensures forall sid :: LoggedTotal(log + [e], sid) == LoggedTotal(log, sid) + (if e.studentId == sid then e.amount else 0)
  {
    assert (log + [e])[..|log|] == log;
  }

  /** A student row after `amount` XP: the new total and the level the table gives it. */
  function Credit(s: Student, amount: int): (t: Student)
    ensures t.totalXp == s.totalXp + amount && t.level == LevelFor(t.totalXp)
    ensures t.(totalXp := s.totalXp, level := s.level) == s
  {
    s.(totalXp := s.totalXp + amount, level := LevelFor(s.totalXp + amount))
  }

  predicate Consistent(s: Student) {
    s.level == LevelFor(s.totalXp) && s.currentStreak <= s.longestStreak
  }

  /** The ids of the badges a student holds. */
  function HeldBy(rows: seq<StudentBadge>, sid: int): set<int> {
    set r | r in rows && r.studentId == sid :: r.badgeId
  }

  /** The rows granting `ids` to one student. */
  function Rows(sid: int, ids: seq<int>): (rows: seq<StudentBadge>)
    ensures |rows| == |ids|
    ensures forall i :: 0 <= i < |ids| ==> rows[i] == StudentBadge(sid, ids[i])
  {
    if ids == [] then [] else Rows(sid, ids[..|ids| - 1]) + [StudentBadge(sid, ids[|ids| - 1])]
  }

  function CountPerfect(results: seq<QuizResult>, sid: int): nat {
    if results == [] then 0
    else
      var r := results[|results| - 1];
      CountPerfect(results[..|results| - 1], sid) + (if r.studentId == sid && r.score == 100.0 then 1 else 0)
  }

  function CountCompleted(rows: seq<DailyChallenge>, sid: int): nat {
    if rows == [] then 0
    else
      var r := rows[|rows| - 1];
      CountCompleted(rows[..|rows| - 1], sid) + (if r.studentId == sid && r.completed then 1 else 0)
  }

  /** The first challenge row of a student for a day. */
  function FindToday(rows: seq<DailyChallenge>, sid: int, today: Day): (r: Option<nat>)
    ensures r.Some? ==> r.value < |rows| && rows[r.value].studentId == sid && rows[r.value].date == today
    ensures r.Some? ==> forall j :: 0 <= j < r.value ==> !(rows[j].studentId == sid && rows[j].date == today)
    ensures r.None? ==> forall j :: 0 <= j < |rows| ==> !(rows[j].studentId == sid && rows[j].date == today)
  {
    if rows == [] then None
    else
      var prior := FindToday(rows[..|rows| - 1], sid, today);
      var last := rows[|rows| - 1];
      if prior.Some? then prior
      else if last.studentId == sid && last.date == today then Some(|rows| - 1)
      else None
  }

  /** The first progress row of a student for a topic. */
  function FindProgress(rows: seq<TopicProgress>, sid: int, topic: int): (r: Option<nat>)
    ensures r.Some? ==> r.value < |rows| && rows[r.value].studentId == sid && rows[r.value].topicId == topic
    ensures r.Some? ==> forall j :: 0 <= j < r.value ==> !(rows[j].studentId == sid && rows[j].topicId == topic)
    ensures r.None? ==> forall j :: 0 <= j < |rows| ==> !(rows[j].studentId == sid && rows[j].topicId == topic)
  {
    if rows == [] then None
    else
      var prior := FindProgress(rows[..|rows| - 1], sid, topic);
      var last := rows[|rows| - 1];
      if prior.Some? then prior
      else if last.studentId == sid && last.topicId == topic then Some(|rows| - 1)
      else None
  }

  /** The progress table after a topic is marked complete: the student's row for it is set
      completed, or a completed row is added. */
  function CompleteIn(rows: seq<TopicProgress>, sid: int, topic: int): seq<TopicProgress> {
    match FindProgress(rows, sid, topic)
    case Some(i) => rows[i := rows[i].(completed := true)]
    case None => rows + [NewProgress(sid, topic).(completed := true)]
  }

  /** The progress table after a quiz attempt scoring `score`: the best score is kept and the
      attempt counted, on a new row if there is none. */
  function AttemptIn(rows: seq<TopicProgress>, sid: int, topic: int, score: real): seq<TopicProgress> {
    match FindProgress(rows, sid, topic)
    case Some(i) => rows[i := rows[i].(quizScore := BestScore(rows[i].quizScore, score), quizAttempts := rows[i].quizAttempts + 1)]
    case None => rows + [NewProgress(sid, topic).(quizScore := score, quizAttempts := 1)]
  }

  /** The attempt count of the row after an attempt. */
  function AttemptsAfter(rows: seq<TopicProgress>, sid: int, topic: int): nat {
    match FindProgress(rows, sid, topic)
    case Some(i) => rows[i].quizAttempts + 1
    case None => 1
  }

  function CountCompletedTopics(rows: seq<TopicProgress>, sid: int): nat {
    if rows == [] then 0
    else
      var r := rows[|rows| - 1];
      CountCompletedTopics(rows[..|rows| - 1], sid) + (if r.studentId == sid && r.completed then 1 else 0)
  }

  function CountProgress(rows: seq<TopicProgress>, sid: int): nat {
    if rows == [] then 0
    else CountProgress(rows[..|rows| - 1], sid) + (if rows[|rows| - 1].studentId == sid then 1 else 0)
  }

  /** The number of cards of one deck a student has a progress row for. */
  function DeckRows(cards: map<(int, int, int), bool>, sid: int, deck: int): nat {
    |set k | k in cards && k.0 == sid && k.1 == deck|
  }

  /** The student row after the streak update of a login on `today`. */
  function AfterStreak(s: Student, today: Day): Student {
    if s.lastLogin == Some(today) then s
    else
      var t := Advance(s, today);
      var b := MilestoneBonus(t.currentStreak);
      var u := if b > 0 then Credit(t, b) else t;
      u.(streakFreezes := u.streakFreezes + if EarnsFreeze(t.currentStreak) then 1 else 0)
  }

  /** The milestone XP a login on `today` earns. */
  function StreakBonus(s: Student, today: Day): nat {
    if s.lastLogin == Some(today) then 0 else MilestoneBonus(Advance(s, today).currentStreak)
  }

  /** The ledger entries of the streak update. */
  function BonusEntries(s: Student, today: Day): seq<XPLog> {
    var b := StreakBonus(s, today);
    if b > 0 then [XPLog(s.id, b, BonusReason(Advance(s, today).currentStreak))] else []
  }

  /** The streak update is the streak transition with its freeze credit, plus the milestone XP;
      it keeps the row consistent and leaves every other column alone. */
  lemma AfterStreakMatchesLogin(s: Student, today: Day)
    requires Consistent(s)
    ensures var t := AfterStreak(s, today);
      && t.(totalXp := s.totalXp, level := s.level) == StreakLogin(s, today)
      && t.totalXp == s.totalXp + StreakBonus(s, today)
      && Consistent(t)
      && LoggedAmount(BonusEntries(s, today)) == StreakBonus(s, today)
  {
  }

  /** Writing a key twice keeps the second value. */
  lemma Overwrite<K, V>(m: map<K, V>, k: K, v: V, w: V)
    ensures m[k := v][k := w] == m[k := w]
  {
  }

  /** The streak update as the steps the login takes: the transition, the bonus credit, and
      the freeze credit. */
  lemma AfterStreakSteps(s: Student, today: Day)
    requires s.lastLogin != Some(today)
    ensures var t := Advance(s, today);
      var b := MilestoneBonus(t.currentStreak);
      var u := if b > 0 then Credit(t, b) else t;
      && StreakBonus(s, today) == b
      && AfterStreak(s, today) == (if t.currentStreak % 7 == 0 then u.(streakFreezes := u.streakFreezes + 1) else u)
      && BonusEntries(s, today) == (if b > 0 then [XPLog(s.id, b, BonusReason(t.currentStreak))] else [])
  {
    var t := Advance(s, today);
    var b := MilestoneBonus(t.currentStreak);
    var u := if b > 0 then Credit(t, b) else t;
    assert u.(streakFreezes := u.streakFreezes + 0) == u;
  }

  /** The sum of the amounts of some ledger entries. */
  function LoggedAmount(log: seq<XPLog>): int {
    if log == [] then 0 else LoggedAmount(log[..|log| - 1]) + log[|log| - 1].amount
  }

  /** A fresh row held every badge it was granted before, and the new ids are not among them. */
  lemma {:induction false} GrantedRowsDistinct(base: seq<StudentBadge>, sid: int, ids: seq<int>)
    requires NoDuplicates(base) && NoDuplicates(ids)
    requires forall i :: 0 <= i < |ids| ==> ids[i] !in HeldBy(base, sid)
    ensures NoDuplicates(base + Rows(sid, ids))
    ensures HeldBy(base + Rows(sid, ids), sid) == HeldBy(base, sid) + SetOf(ids)
    ensures forall other :: other != sid ==> HeldBy(base + Rows(sid, ids), other) == HeldBy(base, other)
  {
    var all := base + Rows(sid, ids);
    var rows := Rows(sid, ids);
    forall i, j | 0 <= i < j < |all|
      ensures all[i] != all[j]
    {
      if j >= |base| && i < |base| {
        assert all[j] == StudentBadge(sid, ids[j - |base|]);
        assert all[i] in base;
      } else if i >= |base| {
        assert all[i] == StudentBadge(sid, ids[i - |base|]) && all[j] == StudentBadge(sid, ids[j - |base|]);
      }
    }
    assert forall r :: r in rows ==> r.studentId == sid;
    assert forall id :: id in SetOf(ids) ==> StudentBadge(sid, id) in rows by {
      forall id | id in SetOf(ids) ensures StudentBadge(sid, id) in rows {
        var i :| 0 <= i < |ids| && ids[i] == id;
        assert rows[i] == StudentBadge(sid, id);
      }
    }
  }

  lemma RowsAppend(sid: int, a: seq<int>, b: seq<int>)
    ensures Rows(sid, a + b) == Rows(sid, a) + Rows(sid, b)
  {
  }

  /** A new challenge row for a student's track, marking the day's position in its list. */
  function NewChallenge(sid: int, pathId: string, today: Day): DailyChallenge {
    DailyChallenge(sid, today, ChallengeTrack(pathId), DayIndex(today, CHALLENGES_PER_TRACK), false, "", 0)
  }

  /** Adding a row for a day with no row makes the new row the one found for that day. */
  lemma FindTodayAppend(rows: seq<DailyChallenge>, c: DailyChallenge)
    requires FindToday(rows, c.studentId, c.date).None?
    ensures FindToday(rows + [c], c.studentId, c.date) == Some(|rows|)
    ensures forall sid, day :: FindToday(rows, sid, day).Some? ==> FindToday(rows + [c], sid, day) == FindToday(rows, sid, day)
  {
    assert (rows + [c])[..|rows|] == rows;
  }

  /** Every student row is keyed by its id, its level agrees with its XP, its total is what
      the ledger says, and every ledger entry belongs to a student. */
  ghost predicate Ledger(students: map<int, Student>, log: seq<XPLog>) {
    && (forall sid :: sid in students ==>
          students[sid].id == sid && Consistent(students[sid])
          && students[sid].totalXp == LoggedTotal(log, sid))
    && (forall i :: 0 <= i < |log| ==> log[i].studentId in students)
  }

  /** No student row disappears and no student's XP total goes down. */
  predicate XpKept(a: map<int, Student>, b: map<int, Student>) {
    forall id :: id in a ==> id in b && b[id].totalXp >= a[id].totalXp
  }

  /** Every student's XP total is at least 0. */
  predicate XpNonNegative(students: map<int, Student>) {
    forall id :: id in students ==> students[id].totalXp >= 0
  }

  /** A row whose total does not drop keeps the totals of a table kept, and non-negative. */
  lemma XpKeptByRow(students: map<int, Student>, sid: int, t: Student)
    requires sid in students && t.totalXp >= students[sid].totalXp
    ensures XpKept(students, students[sid := t])
    ensures XpNonNegative(students) ==> XpNonNegative(students[sid := t])
  {
  }

  /** No badge is held twice, and every row names a known student and a catalog badge. */
  ghost predicate BadgeTable(rows: seq<StudentBadge>, sids: set<int>, badgeIds: set<int>) {
    && NoDuplicates(rows)
    && (forall i :: 0 <= i < |rows| ==> rows[i].studentId in sids && rows[i].badgeId in badgeIds)
  }

  /** Crediting a student with its ledger entry keeps the ledger in agreement with the rows. */
  lemma LedgerCredit(students: map<int, Student>, log: seq<XPLog>, sid: int, amount: int, reason: string)
    requires Ledger(students, log) && sid in students
    ensures Ledger(students[sid := Credit(students[sid], amount)], log + [XPLog(sid, amount, reason)])
    ensures students[sid := Credit(students[sid], amount)].Keys == students.Keys
  {
    LoggedTotalSnoc(log, XPLog(sid, amount, reason));
  }

  /** Changing a row's other columns keeps the ledger, as long as the row stays consistent. */
  lemma LedgerReplace(students: map<int, Student>, log: seq<XPLog>, sid: int, t: Student)
    requires Ledger(students, log) && sid in students
    requires t.id == sid && Consistent(t) && t.totalXp == students[sid].totalXp
    ensures Ledger(students[sid := t], log)
    ensures students[sid := t].Keys == students.Keys
  {
  }

  /** Changing one row leaves the first row of that student and topic where it was. */
  lemma FindProgressUpdate(rows: seq<TopicProgress>, i: nat, r: TopicProgress)
    requires FindProgress(rows, r.studentId, r.topicId) == Some(i)
    ensures FindProgress(rows[i := r], r.studentId, r.topicId) == Some(i)
  {
    var rows' := rows[i := r];
    assert rows'[i] == r;
  }

  /** A new row for a student and topic without one becomes the row found for them. */
  lemma FindProgressAppend(rows: seq<TopicProgress>, r: TopicProgress)
    requires FindProgress(rows, r.studentId, r.topicId).None?
    ensures FindProgress(rows + [r], r.studentId, r.topicId) == Some(|rows|)
  {
    assert (rows + [r])[|rows|] == r;
  }

  /** Marking a topic complete twice leaves the table as marking it once. */
  lemma CompleteIdempotent(rows: seq<TopicProgress>, sid: int, topic: int)
    ensures CompleteIn(CompleteIn(rows, sid, topic), sid, topic) == CompleteIn(rows, sid, topic)
  {
    match FindProgress(rows, sid, topic)
    case Some(i) =>
      FindProgressUpdate(rows, i, rows[i].(completed := true));
    case None =>
      FindProgressAppend(rows, NewProgress(sid, topic).(completed := true));
  }

  /** What one row adds to a student's count of completed topics. */
  function CompletedBy(r: TopicProgress, sid: int): nat {
    if r.studentId == sid && r.completed then 1 else 0
  }

  /** Replacing one row changes the count by the difference of the two rows. */
  lemma {:induction false} CountUpdate(rows: seq<TopicProgress>, i: nat, r: TopicProgress, sid: int)
    requires i < |rows|
    ensures CountCompletedTopics(rows[i := r], sid) + CompletedBy(rows[i], sid)
         == CountCompletedTopics(rows, sid) + CompletedBy(r, sid)
    decreases |rows|
  {
    var n := |rows| - 1;
    var rows' := rows[i := r];
    if i < n {
      assert rows'[..n] == rows[..n][i := r];
      CountUpdate(rows[..n], i, r, sid);
    } else {
      assert rows'[..n] == rows[..n];
    }
  }

  /** Completing a topic raises the student's completed count by one, unless their row for it
      was already complete. */
  lemma CountAfterComplete(rows: seq<TopicProgress>, sid: int, topic: int)
    ensures var found := FindProgress(rows, sid, topic);
      CountCompletedTopics(CompleteIn(rows, sid, topic), sid)
        == CountCompletedTopics(rows, sid) + if found.Some? && rows[found.value].completed then 0 else 1
  {
    match FindProgress(rows, sid, topic)
    case Some(i) =>
      CountUpdate(rows, i, rows[i].(completed := true), sid);
    case None =>
      var rows' := rows + [NewProgress(sid, topic).(completed := true)];
      assert rows'[..|rows|] == rows;
  }

  /** An attempt keeps the best score and counts one more attempt on the row found. */
  lemma AttemptKeepsBest(rows: seq<TopicProgress>, sid: int, topic: int, score: real)
    ensures var rows' := AttemptIn(rows, sid, topic, score);
      var found := FindProgress(rows', sid, topic);
      && found.Some?
      && rows'[found.value].quizAttempts == AttemptsAfter(rows, sid, topic)
      && rows'[found.value].quizScore >= score
      && (FindProgress(rows, sid, topic).Some? ==>
            rows'[found.value].quizScore >= rows[FindProgress(rows, sid, topic).value].quizScore)
      && rows'[found.value].completed == (FindProgress(rows, sid, topic).Some? && rows[FindProgress(rows, sid, topic).value].completed)
  {
    match FindProgress(rows, sid, topic)
    case Some(i) =>
      FindProgressUpdate(rows, i, rows[i].(quizScore := BestScore(rows[i].quizScore, score), quizAttempts := rows[i].quizAttempts + 1));
    case None =>
      FindProgressAppend(rows, NewProgress(sid, topic).(quizScore := score, quizAttempts := 1));
  }

  /** The stored best score and attempt count of a student's row for a topic; with no row,
      the defaults a new row would get. */
  function StoredScore(rows: seq<TopicProgress>, sid: int, topic: int): real {
    match FindProgress(rows, sid, topic)
    case Some(i) => rows[i].quizScore
    case None => NewProgress(sid, topic).quizScore
  }

  function StoredAttempts(rows: seq<TopicProgress>, sid: int, topic: int): nat {
    match FindProgress(rows, sid, topic)
    case Some(i) => rows[i].quizAttempts
    case None => NewProgress(sid, topic).quizAttempts
  }

  /** The progress table after quiz attempts on one topic scoring `scores`, in order. */
  function AttemptsIn(rows: seq<TopicProgress>, sid: int, topic: int, scores: seq<real>): seq<TopicProgress>
    decreases |scores|
  {
    if scores == [] then rows
    else AttemptIn(AttemptsIn(rows, sid, topic, scores[..|scores| - 1]), sid, topic, scores[|scores| - 1])
  }

  /** One attempt applies the best-score rule to the stored score and counts one attempt. */
  lemma AttemptStep(rows: seq<TopicProgress>, sid: int, topic: int, score: real)
    requires score >= 0.0
    ensures StoredScore(AttemptIn(rows, sid, topic, score), sid, topic) == BestScore(StoredScore(rows, sid, topic), score)
    ensures StoredAttempts(AttemptIn(rows, sid, topic, score), sid, topic) == StoredAttempts(rows, sid, topic) + 1
  {
    match FindProgress(rows, sid, topic)
    case Some(i) =>
      FindProgressUpdate(rows, i, rows[i].(quizScore := BestScore(rows[i].quizScore, score), quizAttempts := rows[i].quizAttempts + 1));
    case None =>
      FindProgressAppend(rows, NewProgress(sid, topic).(quizScore := score, quizAttempts := 1));
  }

  /** After a run of attempts scoring at least 0, the stored score is the best of the score
      stored before and every attempt, and every attempt is counted. */
  lemma {:induction false} AttemptsKeepBestOf(rows: seq<TopicProgress>, sid: int, topic: int, scores: seq<real>)
    requires forall i :: 0 <= i < |scores| ==> scores[i] >= 0.0
    ensures StoredScore(AttemptsIn(rows, sid, topic, scores), sid, topic) == BestOf(StoredScore(rows, sid, topic), scores)
    ensures StoredAttempts(AttemptsIn(rows, sid, topic, scores), sid, topic) == StoredAttempts(rows, sid, topic) + |scores|
    decreases |scores|
  {
    if scores != [] {
      var init := scores[..|scores| - 1];
      AttemptsKeepBestOf(rows, sid, topic, init);
      AttemptStep(AttemptsIn(rows, sid, topic, init), sid, topic, scores[|scores| - 1]);
    }
  }

  /** Credits add up: two credits are one credit of the sum, with the level of the sum. */
  lemma CreditsAdd(s: Student, a: int, b: int)
    ensures Credit(Credit(s, a), b) == Credit(s, a + b)
  {
  }

  /** A student on 150 XP who earns 400 reaches 550 and the Builder level. */
  lemma CreditToBuilder(s: Student)
    requires s.totalXp == 150
    ensures Credit(s, 400).totalXp == 550 && Credit(s, 400).level == "Builder"
  {
    LevelBands(550);
  }

  /** A second login on the same day finds the streak done: it changes no streak column and
      earns no bonus, so only the login XP is added. */
  lemma SecondLoginSameDay(s: Student, today: Day)
    ensures var t := Credit(AfterStreak(s, today), LOGIN_XP);
      && AfterStreak(t, today) == t
      && StreakBonus(t, today) == 0
      && BonusEntries(t, today) == []
  {
  }

  /** The rows granting `ids` add exactly those ids to what the student holds. */
  lemma HeldByRows(base: seq<StudentBadge>, sid: int, ids: seq<int>)
    ensures HeldBy(base + Rows(sid, ids), sid) == HeldBy(base, sid) + SetOf(ids)
  {
    var rows := Rows(sid, ids);
    assert forall r :: r in rows ==> r.studentId == sid && r.badgeId in SetOf(ids);
    forall id | id in SetOf(ids)
      ensures id in HeldBy(base + rows, sid)
    {
      var i :| 0 <= i < |ids| && ids[i] == id;
      assert rows[i] == StudentBadge(sid, id);
      assert rows[i] in base + rows;
    }
  }

  class Db {
    /** The badge catalog by name, and the number of topics of each track. */
    const catalog: map<string, int>
    const topicCounts: map<string, nat>

    var students: map<int, Student>
    var xpLog: seq<XPLog>
    var studentBadges: seq<StudentBadge>
    var progress: seq<TopicProgress>
    var quizResults: seq<QuizResult>
    var challenges: seq<DailyChallenge>
    var flashcards: map<(int, int, int), bool>

    /** Every row's level agrees with its XP, every total is what the ledger says, every ledger
        entry and badge row belongs to a student, and no badge is held twice. */
    ghost predicate Valid()
      reads this`students, this`xpLog, this`studentBadges
    {
      Ledger(students, xpLog) && BadgeTable(studentBadges, students.Keys, catalog.Values)
    }

    constructor (badges: seq<Badge>, topicCounts: map<string, nat>)
      requires UniqueNames(badges)
      ensures Valid() && XpNonNegative(students)
      ensures catalog == CatalogOf(badges) && this.topicCounts == topicCounts
      ensures forall i :: 0 <= i < |badges| ==> catalog[badges[i].name] == badges[i].id
      ensures students == map[] && xpLog == [] && studentBadges == [] && progress == []
      ensures quizResults == [] && challenges == [] && flashcards == map[]
    {
      catalog := CatalogOf(badges);
      CatalogFindsEachBadge(badges);
      this.topicCounts := topicCounts;
      students := map[];
      xpLog := [];
      studentBadges := [];
      progress := [];
      quizResults := [];
      challenges := [];
      flashcards := map[];
    }

    /** Registering a student inserts the row with its defaults. */
    method AddStudent(sid: int, name: string, role: string, pathId: string, avatar: string)
      requires Valid() && sid !in students
      requires XpNonNegative(students)
      modifies this`students
      ensures Valid()
      ensures XpKept(old(students), students) && XpNonNegative(students)
      ensures students == old(students)[sid := NewStudent(sid, name, role, pathId, avatar)]
    {
      NewStudentConsistent(sid, name, role, pathId, avatar);
      assert LoggedTotal(xpLog, sid) == 0 by { NoEntriesNoTotal(xpLog, sid); }
      students := students[sid := NewStudent(sid, name, role, pathId, avatar)];
    }

    /** What the badge pass reads from the tables for a student, with the outside inputs. */
    function ActivityOf(s: Student, env: Env): Activity
      reads this`quizResults, this`progress, this`challenges
    {
      Activity(
        CountPerfect(quizResults, s.id),
        CountCompletedTopics(progress, s.id),
        if s.pathId in topicCounts then topicCounts[s.pathId] else 0,
        env.userMessages,
        CountCompleted(challenges, s.id),
        CountProgress(progress, s.id),
        env.hour,
        env.ranked)
    }

    /** The badge rows one pass adds for the student row `s`, holding the badges of `rows`. */
    function BadgeRows(rows: seq<StudentBadge>, s: Student, env: Env): seq<StudentBadge>
      reads this`quizResults, this`progress, this`challenges
    {
      Rows(s.id, Grants(catalog, HeldBy(rows, s.id), Checklist(s, ActivityOf(s, env))))
    }

    /** Partway through a pass: the rows added so far, and the ids now held, are those the
        awards of `tried` grant. */
    ghost predicate Awarded(sid: int, base: seq<StudentBadge>, held0: set<int>, tried: seq<string>,
                            existing: set<int>)
      reads this`studentBadges
    {
      var g := Grants(catalog, held0, tried);
      studentBadges == base + Rows(sid, g) && existing == held0 + SetOf(g)
    }

    /** The evaluator's `award`: add the badge of that name unless it is missing from the
        catalog or already held. */
    method Award(sid: int, name: string, existing: set<int>,
                 ghost base: seq<StudentBadge>, ghost held0: set<int>, ghost tried: seq<string>)
      returns (held: set<int>)
      requires Awarded(sid, base, held0, tried, existing)
      modifies this`studentBadges
      ensures Awarded(sid, base, held0, tried + [name], held)
    {
      ghost var g := Grants(catalog, held0, tried);
      GrantsSnoc(catalog, held0, tried, name);
      ghost var step := Grant(catalog, held0 + SetOf(g), name);
      RowsAppend(sid, g, step);
      if name in catalog && catalog[name] !in existing {
        studentBadges := studentBadges + [StudentBadge(sid, catalog[name])];
        held := existing + {catalog[name]};
        assert SetOf(g + step) == SetOf(g) + {catalog[name]};
      } else {
        held := existing;
        assert g + step == g;
      }
    }

    /** Awarding the badges of `names` in order, starting from the earned set read once
        before the first award. */
    method AwardAll(sid: int, names: seq<string>)
      modifies this`studentBadges
      ensures studentBadges == old(studentBadges) + Rows(sid, Grants(catalog, HeldBy(old(studentBadges), sid), names))
    {
      var existing := HeldBy(studentBadges, sid);
      ghost var base := studentBadges;
      ghost var held0 := existing;
      for i := 0 to |names|
        invariant Awarded(sid, base, held0, names[..i], existing)
      {
        assert names[..i + 1] == names[..i] + [names[i]];
        existing := Award(sid, names[i], existing, base, held0, names[..i]);
      }
      assert names[..|names|] == names;
    }

    /** The badge pass: every rule of the checklist that fires for the student, as the
        tables and `env` show them, has its badge awarded in checklist order. */
    method CheckBadges(sid: int, env: Env)
      requires Valid() && sid in students
      modifies this`studentBadges
      ensures Valid()
      ensures studentBadges == old(studentBadges) + BadgeRows(old(studentBadges), students[sid], env)
    {
      var s := students[sid];
      ghost var base := studentBadges;
      AwardAll(sid, Checklist(s, ActivityOf(s, env)));
      PassKeepsValid(base, s, ActivityOf(s, env));
    }

    /** After crediting `amount` XP with `reason` on the tables `students0` and `xpLog0`: an
        unknown student gets nothing, a known one has the amount added, the level reset from
        the table, and one ledger entry appended. */
    ghost predicate Credited(sid: int, amount: int, reason: string,
                             students0: map<int, Student>, xpLog0: seq<XPLog>)
      reads this`students, this`xpLog
    {
      if sid in students0 then
        && students == students0[sid := Credit(students0[sid], amount)]
        && xpLog == xpLog0 + [XPLog(sid, amount, reason)]
      else
        students == students0 && xpLog == xpLog0
    }

    /** The badge rows the pass after crediting `amount` XP adds to `rows`. */
    function CreditRows(rows: seq<StudentBadge>, students0: map<int, Student>, sid: int, amount: int, env: Env): seq<StudentBadge>
      reads this`quizResults, this`progress, this`challenges
    {
      if sid in students0 then BadgeRows(rows, Credit(students0[sid], amount), env) else []
    }

    /** Crediting XP: the total, the level, the ledger entry, then the badge pass. */
    method AddXp(sid: int, amount: int, reason: string, env: Env) returns (total: int)
      requires Valid()
      modifies this`students, this`xpLog, this`studentBadges
      ensures Valid()
      ensures Credited(sid, amount, reason, old(students), old(xpLog))
      ensures total == if sid in old(students) then students[sid].totalXp else 0
      ensures studentBadges == old(studentBadges) + CreditRows(old(studentBadges), old(students), sid, amount, env)
    {
      if sid !in students {
        return 0;
      }
      Post(sid, amount, reason);
      CheckBadges(sid, env);
      total := students[sid].totalXp;
    }

    /** The row and ledger update of a credit. */
    method Post(sid: int, amount: int, reason: string)
      requires Valid() && sid in students
      modifies this`students, this`xpLog
      ensures Valid()
      ensures students == old(students)[sid := Credit(old(students)[sid], amount)]
      ensures xpLog == old(xpLog) + [XPLog(sid, amount, reason)]
    {
      var s := students[sid];
      var level := GetLevel(s.totalXp + amount);
      var t := s.(totalXp := s.totalXp + amount, level := level);
      assert t == Credit(s, amount);
      LedgerCredit(students, xpLog, sid, amount, reason);
      students := students[sid := t];
      xpLog := xpLog + [XPLog(sid, amount, reason)];
    }

    /** The badge rows the streak update adds: those of the pass after a milestone bonus. */
    function StreakRows(rows: seq<StudentBadge>, s: Student, today: Day, env: Env): seq<StudentBadge>
      reads this`quizResults, this`progress, this`challenges
    {
      var b := StreakBonus(s, today);
      if b > 0 then BadgeRows(rows, Credit(Advance(s, today), b), env) else []
    }

    /** The streak update of a login: the transition, the milestone bonus XP (with its badge
        pass), then the freeze credit. */
    method UpdateStreak(sid: int, today: Day, env: Env)
      requires Valid() && sid in students
      modifies this`students, this`xpLog, this`studentBadges
      ensures Valid()
      ensures students == old(students)[sid := AfterStreak(old(students)[sid], today)]
      ensures xpLog == old(xpLog) + BonusEntries(old(students)[sid], today)
      ensures studentBadges == old(studentBadges) + StreakRows(old(studentBadges), old(students)[sid], today, env)
    {
      var s := students[sid];
      if s.lastLogin == Some(today) {
        return;
      }
      ghost var rows0 := students;
      var current := AdvanceStreak(sid, today);
      ghost var t := students[sid];
      StreakBonusXp(sid, current, env);
      ghost var u := students[sid];
      Overwrite(rows0, sid, t, u);
      if current % 7 == 0 {
        AddFreeze(sid);
        Overwrite(rows0, sid, u, students[sid]);
      }
      AfterStreakSteps(s, today);
    }

    /** The milestone bonus of a streak of 7, 14 or 30 days, as one credit with its reason. */
    method StreakBonusXp(sid: int, current: nat, env: Env)
      requires Valid() && sid in students
      modifies this`students, this`xpLog, this`studentBadges
      ensures Valid()
      ensures var b := MilestoneBonus(current);
        && students == old(students)[sid := if b > 0 then Credit(old(students)[sid], b) else old(students)[sid]]
        && xpLog == old(xpLog) + (if b > 0 then [XPLog(sid, b, BonusReason(current))] else [])
        && studentBadges == old(studentBadges) + (if b > 0 then BadgeRows(old(studentBadges), Credit(old(students)[sid], b), env) else [])
    {
      if current == 7 {
        var _ := AddXp(sid, 200, "7-day streak bonus!", env);
      } else if current == 14 {
        var _ := AddXp(sid, 400, "14-day streak bonus!", env);
      } else if current == 30 {
        var _ := AddXp(sid, 1000, "30-day streak bonus!", env);
      }
    }

    /** The day-to-day transition of the streak counters. */
    method AdvanceStreak(sid: int, today: Day) returns (current: nat)
      requires Valid() && sid in students && students[sid].lastLogin != Some(today)
      modifies this`students
      ensures Valid()
      ensures students == old(students)[sid := Advance(old(students)[sid], today)]
      ensures current == students[sid].currentStreak
    {
      var s := students[sid];
      var freezes := s.streakFreezes;
      current := s.currentStreak;
      if s.lastLogin == Some(today - 1) {
        current := current + 1;
      } else if current > 0 && freezes > 0 {
        freezes := freezes - 1;
        current := current + 1;
      } else {
        current := 1;
      }
      var longest := if current > s.longestStreak then current else s.longestStreak;
      var t := s.(currentStreak := current, longestStreak := longest, lastLogin := Some(today), streakFreezes := freezes);
      LedgerReplace(students, xpLog, sid, t);
      students := students[sid := t];
    }

    /** One more streak freeze. */
    method AddFreeze(sid: int)
      requires Valid() && sid in students
      modifies this`students
      ensures Valid()
      ensures students == old(students)[sid := old(students)[sid].(streakFreezes := old(students)[sid].streakFreezes + 1)]
    {
      var u := students[sid];
      LedgerReplace(students, xpLog, sid, u.(streakFreezes := u.streakFreezes + 1));
      students := students[sid := u.(streakFreezes := u.streakFreezes + 1)];
    }

    /** The First Steps row a login adds for a student who holds no badge yet. */
    function FirstStepsRows(rows: seq<StudentBadge>, sid: int): (added: seq<StudentBadge>)
      ensures |added| <= 1
      ensures forall r :: r in added ==> r.studentId == sid && FIRST_STEPS in catalog && r.badgeId == catalog[FIRST_STEPS]
      ensures added != [] ==> HeldBy(rows, sid) == {}
      ensures HeldBy(rows, sid) == {} && FIRST_STEPS in catalog ==> added != []
    {
      if HeldBy(rows, sid) == {} && FIRST_STEPS in catalog then [StudentBadge(sid, catalog[FIRST_STEPS])] else []
    }

    /** A login: the First Steps badge for a student without badges, the streak update, and
        the daily login XP; an unknown student is refused. */
    method Login(sid: int, today: Day, env: Env) returns (r: Option<Student>)
      requires Valid()
      requires XpNonNegative(students)
      modifies this`students, this`xpLog, this`studentBadges
      ensures Valid()
      ensures XpKept(old(students), students) && XpNonNegative(students)
      ensures sid !in old(students) ==>
        r == None && students == old(students) && xpLog == old(xpLog) && studentBadges == old(studentBadges)
      ensures sid in old(students) ==>
        var s0 := old(students)[sid];
        var streak := AfterStreak(s0, today);
        var rows1 := old(studentBadges) + FirstStepsRows(old(studentBadges), sid);
        var rows2 := rows1 + StreakRows(rows1, s0, today, env);
        && students == old(students)[sid := Credit(streak, LOGIN_XP)]
        && xpLog == old(xpLog) + BonusEntries(s0, today) + [XPLog(sid, LOGIN_XP, "Daily login bonus")]
        && studentBadges == rows2 + BadgeRows(rows2, Credit(streak, LOGIN_XP), env)
        && r == Some(students[sid])
    {
      if sid !in students {
        return None;
      }
      ghost var rows0 := students;
      AwardFirstSteps(sid);
      UpdateStreak(sid, today, env);
      ghost var t := students[sid];
      AfterStreakMatchesLogin(rows0[sid], today);
      var _ := AddXp(sid, LOGIN_XP, "Daily login bonus", env);
      Overwrite(rows0, sid, t, students[sid]);
      XpKeptByRow(rows0, sid, students[sid]);
      r := Some(students[sid]);
    }

    /** The First Steps badge for a student who holds no badge yet. */
    method AwardFirstSteps(sid: int)
      requires Valid() && sid in students
      modifies this`studentBadges
      ensures Valid()
      ensures studentBadges == old(studentBadges) + FirstStepsRows(old(studentBadges), sid)
    {
      if HeldBy(studentBadges, sid) == {} && FIRST_STEPS in catalog {
        GrantedRowsDistinct(studentBadges, sid, [catalog[FIRST_STEPS]]);
        studentBadges := studentBadges + [StudentBadge(sid, catalog[FIRST_STEPS])];
      }
    }

    /** Marking a topic complete: the progress row is created or updated (for any id), then
        the topic XP is credited on every call. */
    method CompleteTopic(sid: int, topic: int, env: Env) returns (total: int)
      requires Valid()
      requires XpNonNegative(students)
      modifies this`progress, this`students, this`xpLog, this`studentBadges
      ensures Valid()
      ensures XpKept(old(students), students) && XpNonNegative(students)
      ensures progress == CompleteIn(old(progress), sid, topic)
      ensures Credited(sid, TOPIC_XP, "Completed topic", old(students), old(xpLog))
      ensures studentBadges == old(studentBadges) + CreditRows(old(studentBadges), old(students), sid, TOPIC_XP, env)
      ensures total == if sid in old(students) then students[sid].totalXp else 0
    {
      var found := FindProgress(progress, sid, topic);
      if found.None? {
        progress := progress + [NewProgress(sid, topic).(completed := true)];
      } else {
        var i := found.value;
        progress := progress[i := progress[i].(completed := true)];
      }
      total := AddXp(sid, TOPIC_XP, "Completed topic", env);
    }

    /** The Comeback Kid row for a retried quiz that scored above zero, unless already held. */
    function ComebackRows(rows: seq<StudentBadge>, sid: int, attempts: nat, score: real): (added: seq<StudentBadge>)
      ensures |added| <= 1
      ensures added != [] ==> attempts > 1 && score > 0.0 && COMEBACK_KID in catalog && catalog[COMEBACK_KID] !in HeldBy(rows, sid)
      ensures attempts > 1 && score > 0.0 && COMEBACK_KID in catalog && catalog[COMEBACK_KID] !in HeldBy(rows, sid) ==> added != []
      ensures forall r :: r in added ==> r.studentId == sid && COMEBACK_KID in catalog && r.badgeId == catalog[COMEBACK_KID]
    {
      if attempts > 1 && score > 0.0 && COMEBACK_KID in catalog && catalog[COMEBACK_KID] !in HeldBy(rows, sid)
      then [StudentBadge(sid, catalog[COMEBACK_KID])]
      else []
    }

    /** A quiz submission: the score and XP of the answers, the result row, the best score and
        attempt count of the topic's progress row, the XP credit, then Comeback Kid for a retry
        that scored. */
    method SubmitQuiz(sid: int, topic: int, answers: seq<bool>, env: Env)
      returns (score: real, correct: nat, total: nat, xp: nat, totalXp: int)
      requires Valid()
      requires XpNonNegative(students)
      modifies this`quizResults, this`progress, this`students, this`xpLog, this`studentBadges
      ensures Valid()
      ensures XpKept(old(students), students) && XpNonNegative(students)
      ensures correct == CountCorrect(answers) && total == |answers|
      ensures score == QuizScore(correct, total) && xp == QuizXp(correct, score)
      ensures 0.0 <= score <= 100.0 && (score == 100.0 <==> total > 0 && correct == total)
      ensures xp == 10 * correct + if total > 0 && correct == total then PERFECT_BONUS else 0
      ensures quizResults == old(quizResults) + [QuizResult(sid, topic, score, total, correct, xp)]
      ensures progress == AttemptIn(old(progress), sid, topic, score)
      ensures Credited(sid, xp, QuizReason(correct, total), old(students), old(xpLog))
      ensures totalXp == if sid in old(students) then students[sid].totalXp else 0
      ensures var rows := old(studentBadges) + CreditRows(old(studentBadges), old(students), sid, xp, env);
        studentBadges == rows + if sid in old(students) then ComebackRows(rows, sid, AttemptsAfter(old(progress), sid, topic), score) else []
    {
      correct := CountCorrect(answers);
      total := |answers|;
      score := QuizScore(correct, total);
      xp := QuizXp(correct, score);
      ScoreRange(correct, total);
      QuizXpBonus(correct, total);
      quizResults := quizResults + [QuizResult(sid, topic, score, total, correct, xp)];
      var attempts := RecordAttempt(sid, topic, score);
      totalXp := CreditQuiz(sid, xp, QuizReason(correct, total), attempts, score, env);
    }

    /** The XP credit of a quiz with its badge pass, then Comeback Kid for a retry that scored. */
    method CreditQuiz(sid: int, xp: nat, reason: string, attempts: nat, score: real, env: Env) returns (totalXp: int)
      requires Valid()
      requires XpNonNegative(students)
      modifies this`students, this`xpLog, this`studentBadges
      ensures Valid()
      ensures XpKept(old(students), students) && XpNonNegative(students)
      ensures Credited(sid, xp, reason, old(students), old(xpLog))
      ensures totalXp == if sid in old(students) then students[sid].totalXp else 0
      ensures var rows := old(studentBadges) + CreditRows(old(studentBadges), old(students), sid, xp, env);
        studentBadges == rows + if sid in old(students) then ComebackRows(rows, sid, attempts, score) else []
    {
      totalXp := AddXp(sid, xp, reason, env);
      if sid in old(students) {
        XpKeptByRow(old(students), sid, students[sid]);
      }
      if sid in students {
        ghost var students1, xpLog1 := students, xpLog;
        AwardComeback(sid, attempts, score);
        assert students == students1 && xpLog == xpLog1;
      }
    }

    /** The best score and attempt count of the progress row after an attempt. */
    method RecordAttempt(sid: int, topic: int, score: real) returns (attempts: nat)
      modifies this`progress
      ensures progress == AttemptIn(old(progress), sid, topic, score)
      ensures attempts == AttemptsAfter(old(progress), sid, topic)
    {
      var found := FindProgress(progress, sid, topic);
      if found.None? {
        progress := progress + [NewProgress(sid, topic).(quizScore := score, quizAttempts := 1)];
        attempts := 1;
      } else {
        var i := found.value;
        var p := progress[i];
        if score > p.quizScore {
          p := p.(quizScore := score);
        }
        attempts := p.quizAttempts + 1;
        progress := progress[i := p.(quizAttempts := attempts)];
      }
    }

    /** Comeback Kid, awarded at most once. */
    method AwardComeback(sid: int, attempts: nat, score: real)
      requires Valid() && sid in students
      modifies this`studentBadges
      ensures Valid()
      ensures studentBadges == old(studentBadges) + ComebackRows(old(studentBadges), sid, attempts, score)
    {
      if attempts > 1 && score > 0.0 && COMEBACK_KID in catalog && catalog[COMEBACK_KID] !in HeldBy(studentBadges, sid) {
        GrantedRowsDistinct(studentBadges, sid, [catalog[COMEBACK_KID]]);
        studentBadges := studentBadges + [StudentBadge(sid, catalog[COMEBACK_KID])];
      }
    }

    /** Recording one card of a deck, then the session XP on every call once the student has
        rows for ten cards of that deck. */
    method UpdateFlashcardProgress(sid: int, deck: int, card: int, known: bool, env: Env)
      requires Valid()
      requires XpNonNegative(students)
      modifies this`flashcards, this`students, this`xpLog, this`studentBadges
      ensures Valid()
      ensures XpKept(old(students), students) && XpNonNegative(students)
      ensures flashcards == old(flashcards)[(sid, deck, card) := known]
      ensures DeckRows(flashcards, sid, deck) >= DECK_SIZE ==>
        && Credited(sid, FLASHCARD_XP, "Flashcard session complete", old(students), old(xpLog))
        && studentBadges == old(studentBadges) + CreditRows(old(studentBadges), old(students), sid, FLASHCARD_XP, env)
      ensures DeckRows(flashcards, sid, deck) < DECK_SIZE ==>
        students == old(students) && xpLog == old(xpLog) && studentBadges == old(studentBadges)
    {
      flashcards := flashcards[(sid, deck, card) := known];
      if DeckRows(flashcards, sid, deck) >= DECK_SIZE {
        var _ := AddXp(sid, FLASHCARD_XP, "Flashcard session complete", env);
      }
    }

    /** Today's challenge of a student: the stored row for today if there is one, otherwise a
        new row drawn from the student's track; an unknown student is refused. The result is
        the row's position. */
    method GetTodayChallenge(sid: int, today: Day) returns (r: Option<nat>)
      modifies this`challenges
      ensures sid !in students ==> r == None && challenges == old(challenges)
      ensures sid in students ==> r.Some? && FindToday(challenges, sid, today) == r
      ensures sid in students && FindToday(old(challenges), sid, today).Some? ==> challenges == old(challenges)
      ensures sid in students && FindToday(old(challenges), sid, today).None? ==>
        challenges == old(challenges) + [NewChallenge(sid, students[sid].pathId, today)]
    {
      if sid !in students {
        return None;
      }
      r := FindToday(challenges, sid, today);
      if r.Some? {
        return;
      }
      // The index as the route computes it inline; it equals `DayIndex`.
      var index := today % CHALLENGES_PER_TRACK;
      if Weekday(today) == SUNDAY {
        index := CHALLENGES_PER_TRACK - 1;
      }
      assert index == DayIndex(today, CHALLENGES_PER_TRACK);
      var s := students[sid];
      var c := DailyChallenge(sid, today, ChallengeTrack(s.pathId), index, false, "", 0);
      assert c == NewChallenge(sid, s.pathId, today);
      FindTodayAppend(challenges, c);
      challenges := challenges + [c];
      r := Some(|challenges| - 1);
    }

    /** Completing a challenge: the row is marked done with the response and its XP, then the
        XP goes to the student id given, which is not checked against the row's owner. */
    method SubmitChallenge(cid: int, sid: int, response: string, env: Env) returns (r: Option<int>)
      requires Valid()
      requires XpNonNegative(students)
      modifies this`challenges, this`students, this`xpLog, this`studentBadges
      ensures Valid()
      ensures XpKept(old(students), students) && XpNonNegative(students)
      ensures !(0 <= cid < |old(challenges)|) ==>
        r == None && challenges == old(challenges)
        && students == old(students) && xpLog == old(xpLog) && studentBadges == old(studentBadges)
      ensures 0 <= cid < |old(challenges)| ==>
        && challenges == old(challenges)[cid := old(challenges)[cid].(completed := true, response := response, xpEarned := CHALLENGE_XP)]
        && Credited(sid, CHALLENGE_XP, "Daily challenge completed!", old(students), old(xpLog))
        && studentBadges == old(studentBadges) + CreditRows(old(studentBadges), old(students), sid, CHALLENGE_XP, env)
        && r == Some(if sid in old(students) then students[sid].totalXp else 0)
    {
      if !(0 <= cid < |challenges|) {
        return None;
      }
      challenges := challenges[cid := challenges[cid].(completed := true, response := response, xpEarned := CHALLENGE_XP)];
      var total := AddXp(sid, CHALLENGE_XP, "Daily challenge completed!", env);
      r := Some(total);
    }

    /** After a tutor reply the chat route credits zero XP, which leaves the total alone but
        appends a ledger entry and runs the badge pass; an unknown student is refused. */
    method TutorReplied(sid: int, env: Env) returns (found: bool)
      requires Valid()
      requires XpNonNegative(students)
      modifies this`students, this`xpLog, this`studentBadges
      ensures Valid()
      ensures XpKept(old(students), students) && XpNonNegative(students)
      ensures found == (sid in old(students))
      ensures found ==>
        && students == old(students)
        && xpLog == old(xpLog) + [XPLog(sid, 0, "")]
        && studentBadges == old(studentBadges) + BadgeRows(old(studentBadges), old(students)[sid], env)
      ensures !found ==> students == old(students) && xpLog == old(xpLog) && studentBadges == old(studentBadges)
    {
      if sid !in students {
        return false;
      }
      ghost var s := students[sid];
      var _ := AddXp(sid, 0, "", env);
      assert Credit(s, 0) == s;
      found := true;
    }

    /** First Steps is granted at most once: after it, the student holds a badge. */
    lemma FirstStepsOnce(rows: seq<StudentBadge>, sid: int)
      ensures FirstStepsRows(rows + FirstStepsRows(rows, sid), sid) == []
    {
      var added := FirstStepsRows(rows, sid);
      if added != [] {
        assert StudentBadge(sid, catalog[FIRST_STEPS]) in rows + added;
        assert catalog[FIRST_STEPS] in HeldBy(rows + added, sid);
      } else {
        assert rows + added == rows;
      }
    }

    /** Comeback Kid is granted at most once: once awarded, no later submission adds it. */
    lemma ComebackOnce(rows: seq<StudentBadge>, sid: int, attempts: nat, score: real, attempts': nat, score': real)
      ensures var added := ComebackRows(rows, sid, attempts, score);
        added != [] ==> ComebackRows(rows + added, sid, attempts', score') == []
    {
      var added := ComebackRows(rows, sid, attempts, score);
      if added != [] {
        assert StudentBadge(sid, catalog[COMEBACK_KID]) in rows + added;
        assert catalog[COMEBACK_KID] in HeldBy(rows + added, sid);
      }
    }

    /** A badge pass run again on the same state grants nothing more. */
    lemma PassTwiceGrantsNothing(rows: seq<StudentBadge>, s: Student, env: Env)
      ensures BadgeRows(rows + BadgeRows(rows, s, env), s, env) == []
    {
      var names := Checklist(s, ActivityOf(s, env));
      var held := HeldBy(rows, s.id);
      var g := Grants(catalog, held, names);
      HeldByRows(rows, s.id, g);
      SecondPassGrantsNothing(catalog, held, names);
    }

    /** The rows a pass adds keep the table free of repeats and inside the catalog. */
    lemma PassKeepsValid(base: seq<StudentBadge>, s: Student, a: Activity)
      requires s.id in students
      requires BadgeTable(base, students.Keys, catalog.Values)
      requires studentBadges == base + Rows(s.id, Grants(catalog, HeldBy(base, s.id), Checklist(s, a)))
      ensures BadgeTable(studentBadges, students.Keys, catalog.Values)
    {
      var names := Checklist(s, a);
      var g := Grants(catalog, HeldBy(base, s.id), names);
      GrantsAreNew(catalog, HeldBy(base, s.id), names);
      GrantedRowsDistinct(base, s.id, g);
      forall i | |base| <= i < |studentBadges|
        ensures studentBadges[i].badgeId in catalog.Values
      {
        assert studentBadges[i] == StudentBadge(s.id, g[i - |base|]);
        assert IdOfSome(catalog, names, g[i - |base|]);
      }
    }
  }

  /** A ledger with no entry for a student sums to zero for that student. */
  lemma {:induction false} NoEntriesNoTotal(log: seq<XPLog>, sid: int)
    requires forall i :: 0 <= i < |log| ==> log[i].studentId != sid
    ensures LoggedTotal(log, sid) == 0
  {
    if log != [] {
      NoEntriesNoTotal(log[..|log| - 1], sid);
    }
  }
}
