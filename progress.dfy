/** The progress meter of `updateStats`: completed over total as a
    percentage, 0 for an empty list, and the three display tiers chosen by
    comparing that percentage with 100 and with 60. */
module Progress {

  /** Fill colour of the progress bar: the warning gradient once the daily
      goal is reached, the success gradient from 60%, the primary gradient
      otherwise. */
  datatype Tier = Goal | Good | Default

  /** `totalTasks > 0 ? (completedTasks / totalTasks) * 100 : 0`, computed on
      exact reals. */
  function Percent(completed: nat, total: nat): (p: real)
    ensures total == 0 ==> p == 0.0
    ensures 0.0 <= p
    ensures completed <= total ==> p <= 100.0
  {
    if total > 0 then
      var q := (completed as real) / (total as real);
      assert completed <= total ==> q <= 1.0;
      q * 100.0
    else 0.0
  }

  /** Comparing the percentage with a threshold is comparing integers:
      `p >= x` holds exactly when `100 * completed >= x * total`, and never
      for a positive threshold on an empty list. */
  lemma AtLeast(completed: nat, total: nat, x: nat)
    ensures Percent(completed, total) >= x as real
      <==> (total > 0 && 100 * completed >= x * total) || (total == 0 && x == 0)
  {
    if total > 0 {
      var q := (completed as real) / (total as real);
      assert q * (total as real) == completed as real;
      calc <==> {
        q * 100.0 >= x as real;
        q * 100.0 * (total as real) >= (x as real) * (total as real);
        (completed as real) * 100.0 >= (x * total) as real;
      }
    }
  }

  /** The tier `updateStats` selects for the given counts. */
  function TierOf(completed: nat, total: nat): (r: Tier)
    ensures r == Goal <==> total > 0 && completed >= total
    ensures r == Good <==> total > 0 && completed < total && 100 * completed >= 60 * total
    ensures r == Default <==> total == 0 || 100 * completed < 60 * total
  {
    var p := Percent(completed, total);
    AtLeast(completed, total, 100);
    AtLeast(completed, total, 60);
    if p >= 100.0 then Goal else if p >= 60.0 then Good else Default
  }

  /** Whether `updateStats` posts the "daily goal achieved" notification:
      the percentage reached 100 and the list is not empty. It does so on
      every call while that holds, not only when 100 is first reached. */
  function PostsGoal(completed: nat, total: nat): (b: bool)
    ensures b <==> TierOf(completed, total) == Goal
  {
    AtLeast(completed, total, 100);
    Percent(completed, total) >= 100.0 && total > 0
  }
}
