/** The badge rules: which badge names a student's current state qualifies for, in the order
    the evaluator tries them, and which catalog ids a pass over them grants without repeats. */
module Badges {
  import opened Records

  /** What the evaluator reads besides the student row: counts from the other tables, the
      local clock hour, and the ids of the non-admin students ordered by XP, highest first. */
  datatype Activity = Activity(
    perfectQuizzes: nat,
    completedTopics: nat,
    trackTopics: nat,
    userMessages: nat,
    completedChallenges: nat,
    progressRows: nat,
    hour: nat,
    ranked: seq<int>)

  /** The badges the evaluator's checklist can grant, one per rule. */
  datatype BadgeRule =
    | RisingStar | Legend | RocketStart | WeekWarrior | Perfectionist | DiamondMind
    | AllRounder | CuriousMind | Graduate | GameMaster | BusinessBrain | CodeWizard | AiPioneer
    | AiWhisperer | DeepThinker | ChallengeChampion | KnowledgeSeeker
    | NightOwl | EarlyBird | LeaderboardKing

  /** The catalog name each rule awards. */
  function BadgeName(r: BadgeRule): string {
    match r
    case RisingStar => "Rising Star"
    case Legend => "Legend"
    case RocketStart => "Rocket Start"
    case WeekWarrior => "Week Warrior"
    case Perfectionist => "Perfectionist"
    case DiamondMind => "Diamond Mind"
    case AllRounder => "All Rounder"
    case CuriousMind => "Curious Mind"
    case Graduate => "Graduate"
    case GameMaster => "Game Master"
    case BusinessBrain => "Business Brain"
    case CodeWizard => "Code Wizard"
    case AiPioneer => "AI Pioneer"
    case AiWhisperer => "AI Whisperer"
    case DeepThinker => "Deep Thinker"
    case ChallengeChampion => "Challenge Champion"
    case KnowledgeSeeker => "Knowledge Seeker"
    case NightOwl => "Night Owl"
    case EarlyBird => "Early Bird"
    case LeaderboardKing => "Leaderboard King"
  }

  function Names(rules: seq<BadgeRule>): (names: seq<string>)
    ensures |names| == |rules|
    ensures forall i :: 0 <= i < |rules| ==> names[i] == BadgeName(rules[i])
  {
    if rules == [] then [] else Names(rules[..|rules| - 1]) + [BadgeName(rules[|rules| - 1])]
  }

  predicate TrackComplete(a: Activity) {
    a.completedTopics >= a.trackTopics && a.trackTopics > 0
  }

  predicate NightOwlHour(hour: nat) {
    hour >= 22 || hour < 4
  }

  predicate EarlyBirdHour(hour: nat) {
    5 <= hour < 8
  }

  predicate TopOfLeaderboard(s: Student, a: Activity) {
    |a.ranked| > 0 && a.ranked[0] == s.id
  }

  /** The condition of each rule. The four track badges sit under the track-complete test in an
      if/elif chain on the track id, which is the same as testing the id separately. */
  predicate Holds(r: BadgeRule, s: Student, a: Activity) {
    match r
    case RisingStar => s.level == "Engineer"
    case Legend => s.level == "Legend"
    case RocketStart => s.totalXp >= 100
    case WeekWarrior => s.currentStreak >= 7
    case Perfectionist => a.perfectQuizzes >= 1
    case DiamondMind => a.perfectQuizzes >= 5
    case AllRounder => a.completedTopics >= 5
    case CuriousMind => TrackComplete(a)
    case Graduate => TrackComplete(a)
    case GameMaster => TrackComplete(a) && s.pathId == "gaming"
    case BusinessBrain => TrackComplete(a) && s.pathId == "business"
    case CodeWizard => TrackComplete(a) && s.pathId == "developer"
    case AiPioneer => TrackComplete(a) && s.pathId == "ai_enthusiast"
    case AiWhisperer => a.userMessages >= 50
    case DeepThinker => a.userMessages >= 100
    case ChallengeChampion => a.completedChallenges >= 30
    case KnowledgeSeeker => a.progressRows >= 10
    case NightOwl => NightOwlHour(a.hour)
    case EarlyBird => EarlyBirdHour(a.hour)
    case LeaderboardKing => TopOfLeaderboard(s, a)
  }

  /** The rules in the order the evaluator tries them: level, XP and streak; quiz and topic;
      chat, challenge, reading, time of day and leaderboard. */
  const PROFILE_RULES: seq<BadgeRule> := [RisingStar, Legend, RocketStart, WeekWarrior]
  const STUDY_RULES: seq<BadgeRule> := [
    Perfectionist, DiamondMind, AllRounder, CuriousMind, Graduate,
    GameMaster, BusinessBrain, CodeWizard, AiPioneer]
  const ENGAGEMENT_RULES: seq<BadgeRule> := [
    AiWhisperer, DeepThinker, ChallengeChampion, KnowledgeSeeker, NightOwl, EarlyBird, LeaderboardKing]
  const CHECKLIST: seq<BadgeRule> := PROFILE_RULES + STUDY_RULES + ENGAGEMENT_RULES

  /** The rules of `rules` whose condition holds, in their order there. */
  function Select(rules: seq<BadgeRule>, s: Student, a: Activity): (fired: seq<BadgeRule>)
    ensures |fired| <= |rules|
    ensures forall r :: r in fired <==> r in rules && Holds(r, s, a)
    decreases |rules|
  {
    if rules == [] then []
    else
      var init, last := rules[..|rules| - 1], rules[|rules| - 1];
      assert rules == init + [last];
      var fired := Select(init, s, a);
      if Holds(last, s, a) then fired + [last] else fired
  }

  /** The rules that fire, in the order the evaluator tries them. */
  function Fired(s: Student, a: Activity): seq<BadgeRule> {
    Select(CHECKLIST, s, a)
  }

  /** The badge names the checklist awards, in order. */
  function Checklist(s: Student, a: Activity): seq<string> {
    Names(Fired(s, a))
  }

  function SetOf(ids: seq<int>): set<int> {
    set i | i in ids
  }

  predicate NoDuplicates<T(==)>(xs: seq<T>) {
    forall i, j :: 0 <= i < j < |xs| ==> xs[i] != xs[j]
  }

  /** One award: the badge's id, unless the name is not in the catalog or the id is already held. */
  function Grant(catalog: map<string, int>, held: set<int>, name: string): seq<int> {
    if name in catalog && catalog[name] !in held then [catalog[name]] else []
  }

  /** The ids granted by awarding `names` in order, each award seeing the ones before it. */
  function Grants(catalog: map<string, int>, held: set<int>, names: seq<string>): seq<int>
    decreases |names|
  {
    if names == [] then []
    else
      var prior := Grants(catalog, held, names[..|names| - 1]);
      prior + Grant(catalog, held + SetOf(prior), names[|names| - 1])
  }

  lemma GrantsSnoc(catalog: map<string, int>, held: set<int>, names: seq<string>, name: string)
    ensures Grants(catalog, held, names + [name])
         == Grants(catalog, held, names) + Grant(catalog, held + SetOf(Grants(catalog, held, names)), name)
  {
    assert (names + [name])[..|names|] == names;
  }

  /** `id` is the catalog id of one of `names`. */
  ghost predicate IdOfSome(catalog: map<string, int>, names: seq<string>, id: int) {
    exists n :: n in names && n in catalog && catalog[n] == id
  }

  /** A pass grants nothing already held, nothing twice, and only catalog ids of names tried. */
  lemma {:induction false} GrantsAreNew(catalog: map<string, int>, held: set<int>, names: seq<string>)
    ensures var g := Grants(catalog, held, names);
      && NoDuplicates(g)
      && (forall i :: 0 <= i < |g| ==> g[i] !in held)
      && (forall i :: 0 <= i < |g| ==> IdOfSome(catalog, names, g[i]))
    decreases |names|
  {
    if names != [] {
      var init := names[..|names| - 1];
      GrantsAreNew(catalog, held, init);
      var last := names[|names| - 1];
      var prior := Grants(catalog, held, init);
      var g := Grants(catalog, held, names);
      assert g == prior + Grant(catalog, held + SetOf(prior), last);
      forall i | 0 <= i < |g|
        ensures IdOfSome(catalog, names, g[i])
      {
        if i < |prior| {
          assert g[i] == prior[i] && IdOfSome(catalog, init, prior[i]);
          var n :| n in init && n in catalog && catalog[n] == prior[i];
          assert n in names;
        } else {
          assert last in catalog && g[i] == catalog[last];
          assert last in names;
        }
      }
    }
  }

  /** After a pass, every catalog name tried is held, either before or by this pass. */
  lemma {:induction false} GrantsCover(catalog: map<string, int>, held: set<int>, names: seq<string>)
    ensures forall n :: n in names && n in catalog ==> catalog[n] in held + SetOf(Grants(catalog, held, names))
    decreases |names|
  {
    if names != [] {
      var init := names[..|names| - 1];
      GrantsCover(catalog, held, init);
      var prior := Grants(catalog, held, init);
      var g := Grants(catalog, held, names);
      assert g == prior + Grant(catalog, held + SetOf(prior), names[|names| - 1]);
      assert SetOf(prior) <= SetOf(g);
      forall n | n in names && n in catalog
        ensures catalog[n] in held + SetOf(g)
      {
        if n != names[|names| - 1] {
          assert n in init;
        }
      }
    }
  }

  /** A pass in which every catalog name tried is already held grants nothing. */
  lemma {:induction false} GrantsNothingWhenHeld(catalog: map<string, int>, held: set<int>, names: seq<string>)
    requires forall n :: n in names && n in catalog ==> catalog[n] in held
    ensures Grants(catalog, held, names) == []
    decreases |names|
  {
    if names != [] {
      var init := names[..|names| - 1];
      assert forall n :: n in init ==> n in names;
      GrantsNothingWhenHeld(catalog, held, init);
      assert names[|names| - 1] in names;
    }
  }

  /** Repeating a pass over the same names, holding what the first pass granted, grants nothing. */
  lemma SecondPassGrantsNothing(catalog: map<string, int>, held: set<int>, names: seq<string>)
    ensures Grants(catalog, held + SetOf(Grants(catalog, held, names)), names) == []
  {
    GrantsCover(catalog, held, names);
    GrantsNothingWhenHeld(catalog, held + SetOf(Grants(catalog, held, names)), names);
  }

  /** Every rule is on the checklist. */
  lemma ChecklistComplete()
    ensures forall r :: r in CHECKLIST
  {
    forall r: BadgeRule
      ensures r in CHECKLIST
    {
      match r
      case RisingStar => assert PROFILE_RULES[0] == r;
      case Legend => assert PROFILE_RULES[1] == r;
      case RocketStart => assert PROFILE_RULES[2] == r;
      case WeekWarrior => assert PROFILE_RULES[3] == r;
      case Perfectionist => assert STUDY_RULES[0] == r;
      case DiamondMind => assert STUDY_RULES[1] == r;
      case AllRounder => assert STUDY_RULES[2] == r;
      case CuriousMind => assert STUDY_RULES[3] == r;
      case Graduate => assert STUDY_RULES[4] == r;
      case GameMaster => assert STUDY_RULES[5] == r;
      case BusinessBrain => assert STUDY_RULES[6] == r;
      case CodeWizard => assert STUDY_RULES[7] == r;
      case AiPioneer => assert STUDY_RULES[8] == r;
      case AiWhisperer => assert ENGAGEMENT_RULES[0] == r;
      case DeepThinker => assert ENGAGEMENT_RULES[1] == r;
      case ChallengeChampion => assert ENGAGEMENT_RULES[2] == r;
      case KnowledgeSeeker => assert ENGAGEMENT_RULES[3] == r;
      case NightOwl => assert ENGAGEMENT_RULES[4] == r;
      case EarlyBird => assert ENGAGEMENT_RULES[5] == r;
      case LeaderboardKing => assert ENGAGEMENT_RULES[6] == r;
    }
  }

  /** A rule fires exactly when its condition holds. */
  lemma FiredExactly(s: Student, a: Activity)
    ensures forall r :: r in Fired(s, a) <==> Holds(r, s, a)
  {
    ChecklistComplete();
  }

  /** The track-specific badge the evaluator picks by an if/elif chain on the track id. */
  function TrackBadge(pathId: string): seq<BadgeRule> {
    if pathId == "gaming" then [GameMaster]
    else if pathId == "business" then [BusinessBrain]
    else if pathId == "developer" then [CodeWizard]
    else if pathId == "ai_enthusiast" then [AiPioneer]
    else []
  }

  const PATH_BADGES: set<BadgeRule> := {GameMaster, BusinessBrain, CodeWizard, AiPioneer}

  /** At most one track-specific rule holds, the one of the student's own track; with
      `FiredExactly` this bounds the track badges of a pass. */
  lemma OnePathBadge(s: Student, a: Activity)
    ensures forall p, q :: p in PATH_BADGES && q in PATH_BADGES && Holds(p, s, a) && Holds(q, s, a) ==> p == q
    ensures forall p :: p in PATH_BADGES && Holds(p, s, a) ==> p in TrackBadge(s.pathId)
  {
  }

  /** The night window (22:00 to 04:00) and the morning window (05:00 to 08:00) never overlap. */
  lemma ClockBadgesExclusive(s: Student, a: Activity)
    ensures !(Holds(NightOwl, s, a) && Holds(EarlyBird, s, a))
  {
  }
}
