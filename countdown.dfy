/** The Pomodoro countdown: the `timer` object `{minutes, seconds,
    isRunning}` and what one tick of `updateTimer` does to it. The repeating
    one-second interval is modelled by `Deliver`: a tick reaches
    `updateTimer` only while the timer is armed, because `startTimer` arms
    the interval together with `isRunning` and `pauseTimer` clears both. */
module Countdown {

  /** Length of a session, in minutes; also the focus time one completed
      session adds. */
  const SessionMinutes: int := 25

  /** The countdown part of the `timer` object. */
  datatype Clock = Clock(minutes: int, seconds: int, running: bool)

  /** The state `resetTimer` produces: 25:00, stopped. */
  const Full: Clock := Clock(SessionMinutes, 0, false)

  /** Seconds left on the clock. */
  function Remaining(c: Clock): int {
    c.minutes * 60 + c.seconds
  }

  /** What every reachable clock satisfies: seconds in 0..59, minutes not
      negative, and never more than one session left. */
  predicate WellFormed(c: Clock) {
    0 <= c.minutes && 0 <= c.seconds <= 59 && Remaining(c) <= SessionMinutes * 60
  }

  /** 0:00, where the next tick completes the session. */
  predicate AtZero(c: Clock) {
    c.minutes == 0 && c.seconds == 0
  }

  /** Whether the next interval period completes a session: the timer runs
      and shows 0:00. */
  predicate Completes(c: Clock) {
    c.running && AtZero(c)
  }

  /** The effect of `updateTimer` on the clock. At 0:00 the session is over:
      the timer is paused and reset to 25:00. Anywhere else exactly one
      second comes off, the seconds stay in 0..59, and the clock keeps
      running or not as it was. */
  function Step(c: Clock): (r: Clock)
    ensures AtZero(c) ==> r == Full
    ensures WellFormed(c) && !AtZero(c) ==>
      WellFormed(r) && Remaining(r) == Remaining(c) - 1 && r.running == c.running
    ensures WellFormed(c) ==> WellFormed(r)
  {
    if c.seconds == 0 then
      if c.minutes == 0 then
        assert Remaining(Full) == SessionMinutes * 60;
        Full
      else
        var r := Clock(c.minutes - 1, 59, c.running);
        assert Remaining(r) == Remaining(c) - 1;
        r
    else
      var r := c.(seconds := c.seconds - 1);
      assert Remaining(r) == Remaining(c) - 1;
      r
  }

  /** One period of the one-second interval: a tick reaches `updateTimer`
      only while the timer runs. A stopped clock stays as it is, a period
      never starts the timer, and the clock stays in range. */
  function Deliver(c: Clock): (r: Clock)
    ensures !c.running ==> r == c
    ensures r.running ==> c.running
    ensures WellFormed(c) ==> WellFormed(r)
  {
    if c.running then Step(c) else c
  }

  /** The clock after `n` interval periods, with the number of sessions
      those periods completed. A paused clock consumes no period: it stays
      exactly as it is and completes nothing. At most one session completes,
      since completion leaves the clock stopped, and after it the clock is at
      25:00. The clock stays in range. */
  function Run(c: Clock, n: nat): (r: (Clock, nat))
    ensures !c.running ==> r == (c, 0)
    ensures r.1 <= 1 && (r.1 == 1 ==> r.0 == Full)
    ensures WellFormed(c) ==> WellFormed(r.0)
    decreases n
  {
    if n == 0 then (c, 0)
    else
      var done := if Completes(c) then 1 else 0;
      var rest := Run(Deliver(c), n - 1);
      (rest.0, rest.1 + done)
  }

  /** Running `a` periods and then `b` more is running `a + b` periods. */
  lemma {:induction false} RunSplit(c: Clock, a: nat, b: nat)
    ensures Run(c, a + b) == (Run(Run(c, a).0, b).0, Run(c, a).1 + Run(Run(c, a).0, b).1)
    decreases a
  {
    if a > 0 {
      RunSplit(Deliver(c), a - 1, b);
    }
  }

  /** One more period delivers one more tick to the clock reached so far,
      and counts one more session exactly when that clock completes one. */
  lemma RunStep(c: Clock, k: nat)
    ensures Run(c, k + 1).0 == Deliver(Run(c, k).0)
    ensures Run(c, k + 1).1 == Run(c, k).1 + (if Completes(Run(c, k).0) then 1 else 0)
  {
    RunSplit(c, k, 1);
    var x := Run(c, k).0;
    assert Run(x, 1) == (Deliver(x), if Completes(x) then 1 else 0) by {
      assert Run(Deliver(x), 0) == (Deliver(x), 0);
    }
  }

  /** A running clock with at least `n` seconds left loses exactly `n`
      seconds over `n` periods, keeps running and completes nothing. */
  lemma {:induction false} RunCountsDown(c: Clock, n: nat)
    requires WellFormed(c) && c.running && n <= Remaining(c)
    ensures WellFormed(Run(c, n).0) && Run(c, n).0.running
    ensures Remaining(Run(c, n).0) == Remaining(c) - n
    ensures Run(c, n).1 == 0
    decreases n
  {
    if n > 0 {
      assert !AtZero(c);
      RunCountsDown(Deliver(c), n - 1);
    }
  }

  /** A running clock at 0:00 completes the session on the next period and
      then stays at 25:00, stopped. */
  lemma RunFromZero(m: nat)
    requires m >= 1
    ensures Run(Clock(0, 0, true), m) == (Full, 1)
  {
    assert Deliver(Clock(0, 0, true)) == Full;
    assert Run(Full, m - 1) == (Full, 0);
  }

  /** A running clock reaches 0:00 after exactly as many periods as it has
      seconds left, having completed nothing. */
  lemma ReachesZero(c: Clock)
    requires WellFormed(c) && c.running
    ensures Run(c, Remaining(c)) == (Clock(0, 0, true), 0)
  {
    var k := Remaining(c);
    RunCountsDown(c, k);
    var z := Run(c, k).0;
    assert z.minutes == 0 && z.seconds == 0 && z.running;
  }

  /** Any period after that completes the session exactly once and leaves
      the clock at 25:00, stopped. */
  lemma SessionCompletes(c: Clock, m: nat)
    requires WellFormed(c) && c.running && m >= 1
    ensures Run(c, Remaining(c) + m) == (Full, 1)
  {
    var k := Remaining(c);
    ReachesZero(c);
    RunFromZero(m);
    RunSplit(c, k, m);
  }

  /** From a started clock at 25:00, 1500 periods reach 0:00 without
      completing the session. */
  lemma FullSessionReachesZero(c: Clock)
    requires c.running && c.minutes == SessionMinutes && c.seconds == 0
    ensures Run(c, 1500) == (Clock(0, 0, true), 0)
  {
    assert Remaining(c) == 1500;
    ReachesZero(c);
  }

  /** It is the 1501st period from a started clock at 25:00 that completes
      the session, and every later period leaves it completed once, at
      25:00, stopped. */
  lemma FullSession(c: Clock, n: nat)
    requires c.running && c.minutes == SessionMinutes && c.seconds == 0
    requires n >= 1501
    ensures Run(c, n) == (Full, 1)
  {
    assert Remaining(c) == 1500;
    SessionCompletes(c, n - 1500);
  }

  /** The `timer` object. Its interval handle is not modelled: it is armed
      exactly while `isRunning` holds. */
  class Timer {
    var minutes: int
    var seconds: int
    var isRunning: bool

    function State(): Clock
      reads this
    {
      Clock(minutes, seconds, isRunning)
    }

    ghost predicate Valid()
      reads this
    {
      WellFormed(State())
    }

    /** The timer as the page starts it: 25:00, stopped. */
    constructor ()
      ensures State() == Full && Valid()
    {
      minutes, seconds, isRunning := SessionMinutes, 0, false;
    }

    /** `startTimer`: arms a stopped timer; on a running one it does
        nothing. The time left is never touched. */
    method Start()
      modifies this
      ensures old(isRunning) ==> State() == old(State())
      ensures State() == old(State()).(running := true)
    {
      if !isRunning {
        isRunning := true;
      }
    }

    /** `pauseTimer`: disarms, keeping minutes and seconds exactly. */
    method Pause()
      modifies this
      ensures State() == old(State()).(running := false)
    {
      isRunning := false;
    }

    /** `resetTimer`: pauses, then restores 25:00, whatever the state was. */
    method Reset()
      modifies this
      ensures State() == Full && Valid()
    {
      Pause();
      minutes := SessionMinutes;
      seconds := 0;
    }
  }
}
