/** The login-streak rules: the day-to-day transition with freeze forgiveness, the milestone
    bonus XP, and the freeze credit earned every seventh day. */
module Streaks {
  import opened Records

  /** The counters after a login on `today`, before any milestone bonus or freeze credit. */
  function Advance(s: Student, today: Day): Student {
    if s.lastLogin == Some(today) then s
    else
      var (cur, frz) :=
        if s.lastLogin == Some(today - 1) then (s.currentStreak + 1, s.streakFreezes)
        else if s.currentStreak > 0 && s.streakFreezes > 0 then (s.currentStreak + 1, s.streakFreezes - 1)
        else (1, s.streakFreezes);
      s.(currentStreak := cur,
         longestStreak := if cur > s.longestStreak then cur else s.longestStreak,
         lastLogin := Some(today),
         streakFreezes := frz)
  }

  /** Bonus XP for reaching a streak of exactly 7, 14 or 30 days. */
  function MilestoneBonus(streak: nat): nat {
    if streak == 7 then 200
    else if streak == 14 then 400
    else if streak == 30 then 1000
    else 0
  }

  function BonusReason(streak: nat): string {
    if streak == 7 then "7-day streak bonus!"
    else if streak == 14 then "14-day streak bonus!"
    else "30-day streak bonus!"
  }

  predicate EarnsFreeze(streak: nat) {
    streak % 7 == 0
  }

  /** The streak counters after a whole login: the transition, then the freeze credit. */
  function StreakLogin(s: Student, today: Day): Student {
    if s.lastLogin == Some(today) then s
    else
      var t := Advance(s, today);
      t.(streakFreezes := t.streakFreezes + if EarnsFreeze(t.currentStreak) then 1 else 0)
  }

  /** The transition table of a login. */
  lemma StreakTransitions(s: Student, today: Day)
    ensures var t := Advance(s, today);
      && (s.lastLogin == Some(today) ==> t == s)
      && (s.lastLogin == Some(today - 1) ==>
            t.currentStreak == s.currentStreak + 1 && t.streakFreezes == s.streakFreezes)
      && (s.lastLogin != Some(today) && s.lastLogin != Some(today - 1) ==>
            if s.currentStreak > 0 && s.streakFreezes > 0
            then t.currentStreak == s.currentStreak + 1 && t.streakFreezes == s.streakFreezes - 1
            else t.currentStreak == 1 && t.streakFreezes == s.streakFreezes)
  {
  }

  /** After a login the streak is at least 1, the longest streak is the running maximum,
      the last login is today, and nothing but the streak columns changed. */
  lemma StreakLoginInvariants(s: Student, today: Day)
    requires s.lastLogin != Some(today)
    ensures var t := StreakLogin(s, today);
      && t.currentStreak >= 1
      && t.currentStreak <= t.longestStreak
      && t.longestStreak == (if t.currentStreak > s.longestStreak then t.currentStreak else s.longestStreak)
      && t.lastLogin == Some(today)
      && t.(currentStreak := s.currentStreak, longestStreak := s.longestStreak,
            lastLogin := s.lastLogin, streakFreezes := s.streakFreezes) == s
  {
  }

  /** The freeze balance moves by at most one each way per login: it loses the credit a gap
      consumes and gains the credit a multiple of seven earns. */
  lemma FreezeBalance(s: Student, today: Day)
    requires s.lastLogin != Some(today)
    ensures var a := Advance(s, today);
      var used := if s.lastLogin != Some(today - 1) && s.currentStreak > 0 && s.streakFreezes > 0 then 1 else 0;
      var earned := if a.currentStreak % 7 == 0 then 1 else 0;
      StreakLogin(s, today).streakFreezes == s.streakFreezes - used + earned
  {
  }

  /** A second login on the same day changes nothing. */
  lemma SameDayIdempotent(s: Student, today: Day)
    ensures StreakLogin(StreakLogin(s, today), today) == StreakLogin(s, today)
  {
  }

  /** After a gap of at least one missed day, a running streak restarts at 1 without a freeze
      and continues by spending one freeze with one. */
  lemma GapUsesFreezeOrResets(s: Student, today: Day)
    requires s.lastLogin.Some? && s.lastLogin.value < today - 1 && s.currentStreak > 0
    ensures s.streakFreezes == 0 ==> StreakLogin(s, today).currentStreak == 1
    ensures s.streakFreezes > 0 ==>
      Advance(s, today).currentStreak == s.currentStreak + 1 &&
      Advance(s, today).streakFreezes == s.streakFreezes - 1
  {
  }

  /** A new student's first login takes the reset branch. */
  lemma FirstLoginStartsStreak(id: int, name: string, role: string, pathId: string, avatar: string, today: Day)
    ensures var t := StreakLogin(NewStudent(id, name, role, pathId, avatar), today);
      t.currentStreak == 1 && t.longestStreak == 1 && t.streakFreezes == 0 && t.lastLogin == Some(today)
  {
  }

  /** Bonus XP exists only at streaks 7, 14 and 30, in those amounts. */
  lemma MilestonesExact(streak: nat)
    ensures MilestoneBonus(streak) > 0 <==> streak == 7 || streak == 14 || streak == 30
    ensures streak == 7 ==> MilestoneBonus(streak) == 200
    ensures streak == 14 ==> MilestoneBonus(streak) == 400
    ensures streak == 30 ==> MilestoneBonus(streak) == 1000
    ensures MilestoneBonus(streak) > 0 && streak != 30 ==> EarnsFreeze(streak)
  {
  }

  /** Streaks of 21 and 28 earn a freeze credit but no bonus XP; 30 earns bonus XP but no credit. */
  lemma FreezeWithoutBonus()
    ensures EarnsFreeze(21) && MilestoneBonus(21) == 0
    ensures EarnsFreeze(28) && MilestoneBonus(28) == 0
    ensures !EarnsFreeze(30) && MilestoneBonus(30) == 1000
  {
  }

  /** Logging in on each day of `days` in turn. */
  function LoginOn(s: Student, days: seq<Day>): Student
    decreases |days|
  {
    if days == [] then s else LoginOn(StreakLogin(s, days[0]), days[1..])
  }

  /** The days `first`, `first + 1`, ..., `first + n - 1`. */
  function Consecutive(first: Day, n: nat): (days: seq<Day>)
    ensures |days| == n
    ensures forall i :: 0 <= i < n ==> days[i] == first + i
    decreases n
  {
    if n == 0 then [] else [first] + Consecutive(first + 1, n - 1)
  }

  /** Continuing a streak of `k` days (last login the day before `first`, no freezes
      needed) on `n` consecutive days gives a streak of `k + n` and earns one freeze credit
      for each multiple of seven passed. */
  lemma {:induction false} ConsecutiveLogins(s: Student, first: Day, n: nat)
    requires s.lastLogin == Some(first - 1) && s.currentStreak <= s.longestStreak
    ensures var t := LoginOn(s, Consecutive(first, n));
      && t.currentStreak == s.currentStreak + n
      && t.longestStreak == (if s.currentStreak + n > s.longestStreak then s.currentStreak + n else s.longestStreak)
      && t.streakFreezes == s.streakFreezes + (s.currentStreak + n) / 7 - s.currentStreak / 7
      && (n > 0 ==> t.lastLogin == Some(first + n - 1))
    decreases n
  {
    if n > 0 {
      var s1 := StreakLogin(s, first);
      assert Consecutive(first, n)[1..] == Consecutive(first + 1, n - 1);
      ConsecutiveLogins(s1, first + 1, n - 1);
    }
  }

  /** From a new student, seven consecutive daily logins reach a streak of 7 with one freeze credit,
      and the seventh login carries the 200 XP bonus. */
  lemma FirstWeek(id: int, name: string, role: string, pathId: string, avatar: string, first: Day)
    ensures var s := NewStudent(id, name, role, pathId, avatar);
      var before := LoginOn(s, Consecutive(first, 6));
      var after := LoginOn(s, Consecutive(first, 7));
      && after.currentStreak == 7 && after.longestStreak == 7 && after.streakFreezes == 1
      && Advance(before, first + 6).currentStreak == 7
      && MilestoneBonus(Advance(before, first + 6).currentStreak) == 200
  {
    var s := NewStudent(id, name, role, pathId, avatar);
    var s1 := StreakLogin(s, first);
    assert Consecutive(first, 7) == [first] + Consecutive(first + 1, 6);
    assert Consecutive(first, 6) == [first] + Consecutive(first + 1, 5);
    ConsecutiveLogins(s1, first + 1, 6);
    ConsecutiveLogins(s1, first + 1, 5);
    assert LoginOn(s, Consecutive(first, 6)) == LoginOn(s1, Consecutive(first + 1, 5));
    assert LoginOn(s, Consecutive(first, 7)) == LoginOn(s1, Consecutive(first + 1, 6));
  }
}
