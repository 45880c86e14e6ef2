/** The reward arithmetic of the routes: quiz scoring and XP, the best-score rule, the daily
    challenge rotation, and the leaderboard rows. */
module Rewards {
  import opened Records

  // Quizzes

  /** The number of answers marked correct. */
  function CountCorrect(answers: seq<bool>): (c: nat)
    ensures c <= |answers|
    ensures c == |answers| <==> forall i :: 0 <= i < |answers| ==> answers[i]
    ensures c == 0 <==> forall i :: 0 <= i < |answers| ==> !answers[i]
  {
    if answers == [] then 0
    else CountCorrect(answers[..|answers| - 1]) + (if answers[|answers| - 1] then 1 else 0)
  }

  /** The percentage score; an empty submission scores 0. */
  function QuizScore(correct: nat, total: nat): real {
    if total > 0 then correct as real / total as real * 100.0 else 0.0
  }

  const PERFECT_BONUS: nat := 50

  /** Ten XP per correct answer, plus the bonus for a score of exactly 100. */
  function QuizXp(correct: nat, score: real): nat {
    10 * correct + if score == 100.0 then PERFECT_BONUS else 0
  }

  /** Scores lie in [0, 100], and 100 is reached exactly when every answer of a non-empty
      submission is correct. */
  lemma ScoreRange(correct: nat, total: nat)
    requires correct <= total
    ensures 0.0 <= QuizScore(correct, total) <= 100.0
    ensures QuizScore(correct, total) == 100.0 <==> total > 0 && correct == total
    ensures QuizScore(correct, total) > 0.0 <==> correct > 0
  {
    if total > 0 {
      var q := correct as real / total as real;
      assert q * total as real == correct as real;
      assert q <= 1.0;
      assert q == 1.0 <==> correct == total;
    }
  }

  /** The XP of a submission: at most ten per question plus the bonus, the bonus only for a
      perfect non-empty submission, and an empty submission earns nothing. */
  lemma QuizXpOfAnswers(answers: seq<bool>)
    ensures var c := CountCorrect(answers);
      var xp := QuizXp(c, QuizScore(c, |answers|));
      && (xp == 10 * |answers| + PERFECT_BONUS <==> |answers| > 0 && forall i :: 0 <= i < |answers| ==> answers[i])
      && xp <= 10 * |answers| + PERFECT_BONUS
      && (answers == [] ==> xp == 0)
  {
    ScoreRange(CountCorrect(answers), |answers|);
  }

  /** The XP of a scored submission, stated without the score: ten per correct answer, plus
      the bonus exactly when the submission is non-empty and every answer is correct. */
  lemma QuizXpBonus(correct: nat, total: nat)
    requires correct <= total
    ensures QuizXp(correct, QuizScore(correct, total))
         == 10 * correct + if total > 0 && correct == total then PERFECT_BONUS else 0
  {
    ScoreRange(correct, total);
  }

  /** Eight of ten correct scores 80 and earns 80 XP, with no bonus. */
  lemma EightOfTen()
    ensures QuizScore(8, 10) == 80.0 && QuizXp(8, QuizScore(8, 10)) == 80
  {
  }

  /** The stored best score: a new score replaces it only when strictly higher. */
  function BestScore(stored: real, score: real): (best: real)
    ensures best >= stored && best >= score
    ensures best == stored || best == score
  {
    if score > stored then score else stored
  }

  /** The best score of a sequence of attempts, starting from the stored default. */
  function BestOf(stored: real, scores: seq<real>): (best: real)
    ensures best >= stored
    ensures forall i :: 0 <= i < |scores| ==> best >= scores[i]
    ensures best == stored || exists i :: 0 <= i < |scores| && best == scores[i]
  {
    if scores == [] then stored
    else
      var prior := BestOf(stored, scores[..|scores| - 1]);
      var best := BestScore(prior, scores[|scores| - 1]);
      assert best == prior || best == scores[|scores| - 1];
      assert forall i :: 0 <= i < |scores| - 1 ==> scores[..|scores| - 1][i] == scores[i];
      best
  }

  /** The decimal digits of a count, as the reason text shows it. */
  function NatToString(n: nat): (s: string)
    ensures |s| >= 1
    ensures forall i :: 0 <= i < |s| ==> '0' <= s[i] <= '9'
    ensures |s| > 1 ==> s[0] != '0'
    decreases n
  {
    if n < 10 then [Digit(n)]
    else
      var prefix := NatToString(n / 10);
      assert |prefix| == 1 ==> prefix == [Digit(n / 10)] && n / 10 >= 1;
      prefix + [Digit(n % 10)]
  }

  function Digit(d: nat): char
    requires d < 10
  {
    "0123456789"[d]
  }

  /** The number a string of digits denotes. */
  function DigitsValue(s: string): nat
    requires forall i :: 0 <= i < |s| ==> '0' <= s[i] <= '9'
  {
    if s == [] then 0
    else DigitsValue(s[..|s| - 1]) * 10 + (s[|s| - 1] as int - '0' as int)
  }

  /** Reading the digits back gives the count. */
  lemma {:induction false} NatToStringRoundTrip(n: nat)
    ensures DigitsValue(NatToString(n)) == n
    decreases n
  {
    if n >= 10 {
      NatToStringRoundTrip(n / 10);
      var s := NatToString(n);
      assert s[..|s| - 1] == NatToString(n / 10);
    }
  }

  /** The ledger reason of a quiz submission. */
  function QuizReason(correct: nat, total: nat): string {
    "Quiz: " + NatToString(correct) + "/" + NatToString(total) + " correct"
  }

  // Daily challenges

  /** Python's weekday of a proleptic ordinal: Monday is 0, Sunday is 6. */
  function Weekday(day: Day): (w: nat)
    ensures w < 7
  {
    (day + 6) % 7
  }

  const SUNDAY: nat := 6

  /** The ordinal convention is Python's: 2024-01-01 (ordinal 738886) is a Monday and
      2024-01-07 a Sunday. */
  lemma WeekdayAnchor()
    ensures Weekday(1) == 0
    ensures Weekday(738886) == 0 && Weekday(738892) == SUNDAY
  {
  }

  /** The tracks that have their own challenge list, and the list size of every track. */
  const TRACKS: set<string> := {"gaming", "business", "developer", "ai_enthusiast"}
  const CHALLENGES_PER_TRACK: nat := 30

  /** The challenge list a student draws from: their own track's, or the gaming list. */
  function ChallengeTrack(pathId: string): (track: string)
    ensures track in TRACKS
    ensures pathId in TRACKS ==> track == pathId
    ensures pathId !in TRACKS ==> track == "gaming"
  {
    if pathId in TRACKS then pathId else "gaming"
  }

  /** The position of today's challenge: the ordinal modulo the list size, except on Sundays,
      which always take the last (boss) challenge. */
  function DayIndex(day: Day, size: nat): (i: nat)
    requires size > 0
    ensures i < size
  {
    if Weekday(day) == SUNDAY then size - 1 else day % size
  }

  /** Euclidean division has one remainder. */
  lemma ModUnique(x: int, m: nat, q: int, r: int)
    requires m > 0 && x == m * q + r && 0 <= r < m
    ensures x % m == r
  {
    var q', r' := x / m, x % m;
    assert m * (q - q') == r' - r;
    MulBound(m, q - q');
  }

  /** A non-zero multiple of `m` is at least `m` away from zero. */
  lemma MulBound(m: nat, k: int)
    ensures k >= 1 ==> m * k >= m
    ensures k <= -1 ==> m * k <= 0 - m as int
  {
    if k >= 1 {
      assert m * k == m * (k - 1) + m;
    } else if k <= -1 {
      assert m * k == m * (k + 1) - m;
    }
  }

  /** One day later, the ordinal's remainder moves one step around the list. */
  lemma ModSucc(day: int, size: nat)
    requires size > 0
    ensures (day + 1) % size == (day % size + 1) % size
  {
    var q, r := day / size, day % size;
    if r + 1 < size {
      ModUnique(day + 1, size, q, r + 1);
    } else {
      ModUnique(day + 1, size, q + 1, 0);
    }
  }

  /** Sundays give the boss challenge; other days rotate through the list one step per day. */
  lemma DayIndexRotation(day: Day, size: nat)
    requires size > 0
    ensures Weekday(day) == SUNDAY ==> DayIndex(day, size) == size - 1
    ensures Weekday(day) != SUNDAY && Weekday(day + 1) != SUNDAY ==>
      DayIndex(day + 1, size) == (DayIndex(day, size) + 1) % size
  {
    ModSucc(day, size);
  }

  /** Exactly one day of every seven consecutive days is a Sunday. */
  lemma OneSundayPerWeek(day: Day)
    ensures forall d :: day <= d < day + 7 ==> (Weekday(d) == SUNDAY <==> d == day + (SUNDAY - Weekday(day)) % 7)
  {
  }

  // Leaderboard

  const LEADER_MESSAGES: seq<string> := [
    "👑 The AI King!", "🔥 Almost there, keep pushing!",
    "💪 Time to grind!", "🚀 Last place today, Legend tomorrow!"
  ]

  const DEFAULT_MESSAGE: string := "Keep going! 🌟"

  /** The message shown at position `i` of the ranking. */
  function MessageFor(i: nat): string {
    if i < |LEADER_MESSAGES| then LEADER_MESSAGES[i] else DEFAULT_MESSAGE
  }

  /** Each of the first four positions has a message of its own, shared with no other
      position; every later position shares the default. */
  lemma MessagesDistinct(i: nat, j: nat)
    ensures MessageFor(i) == MessageFor(j) <==> i == j || (i >= |LEADER_MESSAGES| && j >= |LEADER_MESSAGES|)
  {
    var ms := LEADER_MESSAGES + [DEFAULT_MESSAGE];
    assert forall a, b :: 0 <= a < b < |ms| ==> ms[a] != ms[b] by {
      assert ms[0][0] != ms[1][0] && ms[0][0] != ms[2][0] && ms[0][0] != ms[3][0] && ms[0][0] != ms[4][0];
      assert ms[1][0] != ms[2][0] && ms[1][0] != ms[3][0] && ms[1][0] != ms[4][0];
      assert ms[2][0] != ms[3][0] && ms[2][0] != ms[4][0];
      assert ms[3][0] != ms[4][0];
    }
    var i', j' := if i < 4 then i else 4, if j < 4 then j else 4;
    assert MessageFor(i) == ms[i'] && MessageFor(j) == ms[j'];
  }

  datatype LeaderRow = LeaderRow(
    rank: nat, name: string, avatar: string, totalXp: int, level: string,
    currentStreak: nat, pathId: string, message: string)

  /** The row shown for the student at position `i` of the ranking. */
  predicate ShowsAt(row: LeaderRow, i: nat, s: Student) {
    && row.rank == i + 1
    && row.name == s.name && row.avatar == s.avatar && row.totalXp == s.totalXp
    && row.level == s.level && row.currentStreak == s.currentStreak && row.pathId == s.pathId
    && row.message == MessageFor(i)
  }

  /** The leaderboard of the ranked students: one row per student, in ranking order. */
  method GetLeaderboard(ranked: seq<Student>) returns (rows: seq<LeaderRow>)
    ensures |rows| == |ranked|
    ensures forall i :: 0 <= i < |ranked| ==> ShowsAt(rows[i], i, ranked[i])
  {
    rows := [];
    for i := 0 to |ranked|
      invariant |rows| == i
      invariant forall j :: 0 <= j < i ==> ShowsAt(rows[j], j, ranked[j])
    {
      var s := ranked[i];
      rows := rows + [LeaderRow(i + 1, s.name, s.avatar, s.totalXp, s.level, s.currentStreak, s.pathId, MessageFor(i))];
    }
  }

  /** Ranks run 1, 2, ... without gaps; only the first four rows carry their own message and
      only the first is the king's. */
  lemma LeaderboardRanks(rows: seq<LeaderRow>, ranked: seq<Student>)
    requires |rows| == |ranked|
    requires forall i :: 0 <= i < |ranked| ==> ShowsAt(rows[i], i, ranked[i])
    ensures forall i, j :: 0 <= i < j < |rows| ==> rows[i].rank < rows[j].rank
    ensures forall i :: 0 <= i < |rows| ==> 1 <= rows[i].rank <= |rows|
    ensures forall i :: 0 <= i < |rows| ==> (rows[i].message == "👑 The AI King!" <==> i == 0)
    ensures forall i :: 4 <= i < |rows| ==> rows[i].message == DEFAULT_MESSAGE
  {
    forall i | 0 <= i < |rows|
      ensures rows[i].message == "👑 The AI King!" <==> i == 0
    {
      assert ShowsAt(rows[i], i, ranked[i]);
      MessagesDistinct(i, 0);
    }
  }
}
