/** The day-keyed streak rule of `updateStreak`. Calendar days are abstract
    day numbers: `today` is the current one and "yesterday" is `today - 1`. */
module Streak {
  import opened Wrappers

  /** `stats.lastActiveDate` (None until the first evaluation) and
      `stats.currentStreak`. */
  datatype StreakState = StreakState(lastActive: Option<int>, streak: int)

  /** The state of a session that has never evaluated the streak. */
  const Initial: StreakState := StreakState(None, 0)

  /** What every reachable state satisfies: no streak before the first
      evaluation, and a streak of at least one day after it. */
  predicate Consistent(s: StreakState) {
    if s.lastActive == None then s.streak == 0 else s.streak >= 1
  }

  /** The state after `updateStreak` on day `today`. Already evaluated today:
      nothing changes. Last evaluated yesterday: the streak grows by one.
      Otherwise (a gap, or the first evaluation): the streak restarts at
      one. In the last two cases today becomes the last active day; the
      branch is decided on the previous value. */
  function Evaluate(s: StreakState, today: int): (r: StreakState)
    ensures s.lastActive == Some(today) ==> r == s
    ensures s.lastActive != Some(today) ==> r.lastActive == Some(today)
    ensures s.lastActive == Some(today - 1) ==> r.streak == s.streak + 1
    ensures s.lastActive != Some(today) && s.lastActive != Some(today - 1) ==> r.streak == 1
    ensures Consistent(s) ==> Consistent(r)
  {
    if s.lastActive == Some(today) then s
    else if s.lastActive == Some(today - 1) then StreakState(Some(today), s.streak + 1)
    else StreakState(Some(today), 1)
  }

  /** Whether the evaluation posts the streak notification: only when the
      streak grew and its new value exceeds one. In a consistent state a
      streak that grows always exceeds one, so the notification follows
      every evaluation on the day after the last active one. */
  predicate Celebrates(s: StreakState, today: int): (b: bool)
    ensures b <==> s.lastActive == Some(today - 1) && Evaluate(s, today).streak > 1
    ensures Consistent(s) ==> (b <==> s.lastActive == Some(today - 1))
  {
    s.lastActive == Some(today - 1) && s.streak + 1 > 1
  }

  /** Evaluating twice on the same day is evaluating once, and the second
      evaluation posts nothing. */
  lemma EvaluateIdempotent(s: StreakState, today: int)
    ensures Evaluate(Evaluate(s, today), today) == Evaluate(s, today)
    ensures !Celebrates(Evaluate(s, today), today)
  {
  }

  /** The state after one evaluation on each of `k` consecutive days,
      starting on day `first`. */
  function Daily(s: StreakState, first: int, k: nat): StreakState
    decreases k
  {
    if k == 0 then s else Daily(Evaluate(s, first), first + 1, k - 1)
  }

  /** Evaluating on `k >= 1` consecutive days adds one day per day to
      whatever the first evaluation yields, and ends with the last of them
      as the last active day. */
  lemma {:induction false} DailyGrows(s: StreakState, first: int, k: nat)
    requires k >= 1
    ensures Daily(s, first, k).lastActive == Some(first + k - 1)
    ensures Daily(s, first, k).streak == Evaluate(s, first).streak + (k - 1)
    decreases k
  {
    if k > 1 {
      DailyGrows(Evaluate(s, first), first + 1, k - 1);
    }
  }
}
