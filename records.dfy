/** The stored records the engine reads and writes, with the defaults a new row gets. */
module Records {
  import opened Levels

  datatype Option<T> = None | Some(value: T)

  /** A calendar date, as its proleptic Gregorian ordinal (day 1 is 0001-01-01, a Monday). */
  type Day = int

  /** A student's row. `lastLogin` is `None` while the stored date is still the empty string. */
  datatype Student = Student(
    id: int,
    name: string,
    role: string,
    pathId: string,
    avatar: string,
    totalXp: int,
    level: string,
    currentStreak: nat,
    longestStreak: nat,
    lastLogin: Option<Day>,
    streakFreezes: nat)

  /** A student's progress on one topic. */
  datatype TopicProgress = TopicProgress(
    studentId: int, topicId: int, completed: bool, quizScore: real, quizAttempts: nat)

  datatype QuizResult = QuizResult(
    studentId: int, topicId: int, score: real,
    totalQuestions: nat, correctAnswers: nat, xpEarned: int)

  /** A catalog entry; description, icon and category do not affect the engine. */
  datatype Badge = Badge(id: int, name: string)

  datatype StudentBadge = StudentBadge(studentId: int, badgeId: int)

  /** A daily challenge row; the challenge itself is named by its track's list and its index there. */
  datatype DailyChallenge = DailyChallenge(
    studentId: int, date: Day, track: string, index: nat,
    completed: bool, response: string, xpEarned: int)

  datatype XPLog = XPLog(studentId: int, amount: int, reason: string)

  /** A student row as inserted, every engine column at its default. */
  function NewStudent(id: int, name: string, role: string, pathId: string, avatar: string): Student {
    Student(id, name, role, pathId, avatar, 0, "Explorer", 0, 0, None, 0)
  }

  function NewProgress(sid: int, topic: int): TopicProgress {
    TopicProgress(sid, topic, false, 0.0, 0)
  }

  /** The defaults of a new student agree with the level table and the streak invariants. */
  lemma NewStudentConsistent(id: int, name: string, role: string, pathId: string, avatar: string)
    ensures var s := NewStudent(id, name, role, pathId, avatar);
      && s.level == LevelFor(s.totalXp) && s.level == LevelFor(0)
      && s.currentStreak <= s.longestStreak && s.lastLogin == None
  {
    LevelBands(0);
  }

  /** The name-to-badge lookup the evaluator builds from the catalog rows (a later row wins). */
  function CatalogOf(badges: seq<Badge>): (m: map<string, int>)
    ensures m.Keys == set b | b in badges :: b.name
  {
    if badges == [] then map[]
    else CatalogOf(badges[..|badges| - 1])[badges[|badges| - 1].name := badges[|badges| - 1].id]
  }

  predicate UniqueNames(badges: seq<Badge>) {
    forall i, j :: 0 <= i < j < |badges| ==> badges[i].name != badges[j].name
  }

  /** Badge names are unique, so the lookup by a name gives exactly the one badge of that name. */
  lemma {:induction false} CatalogFindsEachBadge(badges: seq<Badge>)
    requires UniqueNames(badges)
    ensures forall i :: 0 <= i < |badges| ==> CatalogOf(badges)[badges[i].name] == badges[i].id
  {
    if badges != [] {
      var init := badges[..|badges| - 1];
      assert UniqueNames(init);
      CatalogFindsEachBadge(init);
    }
  }
}
