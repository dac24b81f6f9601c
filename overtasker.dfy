/** The OVERTASKER state engine: the task list, the `stats` object, the
    Pomodoro timer and the achievements container, and the operations the
    page calls on them. Each operation runs to completion before the next
    one, as the single-threaded event loop guarantees. */
module Overtasker {
  import opened Wrappers
  import opened Text
  import opened Tasks
  import opened Progress
  import opened Countdown
  import opened Streak
  import opened Notes

  const TaskDoneMessage: string := "✅ Great job! Task completed!"
  const SessionMessage: string := "🍅 Fantastic! Pomodoro session completed!"
  const GoalMessage: string := "🎯 Daily goal achieved! You're on fire!"
  const WelcomeMessage: string := "👋 Welcome to OVERTASKER! Start by adding your first task."

  /** The text before and after the day count in the streak notification. */
  const StreakPrefix: string := "🔥 "
  const StreakSuffix: string := " day streak! Keep it up!"

  /** The streak notification for a streak of `n` days: between the fixed
      prefix and suffix stand the decimal digits of `n`, and nothing else. */
  function StreakMessage(n: nat): (m: string)
    ensures |StreakPrefix| + |StreakSuffix| < |m|
    ensures m[..|StreakPrefix|] == StreakPrefix && m[|m| - |StreakSuffix|..] == StreakSuffix
  {
    var d := Decimal(n);
    var m := StreakPrefix + d + StreakSuffix;
    assert m[..|StreakPrefix|] == StreakPrefix;
    assert m[|m| - |StreakSuffix|..] == StreakSuffix;
    m
  }

  /** Between the prefix and the suffix the streak notification holds only
      decimal digits, and they read back as the streak length. */
  lemma StreakMessageCount(n: nat)
    ensures var m := StreakMessage(n);
      var d := m[|StreakPrefix|..|m| - |StreakSuffix|];
      (forall k :: 0 <= k < |d| ==> '0' <= d[k] <= '9') && DecValue(d) == n
  {
    var m := StreakMessage(n);
    assert m[|StreakPrefix|..|m| - |StreakSuffix|] == Decimal(n);
  }

  /** What `updateStats` posts for the given list: the goal notification
      exactly when the list is not empty and every task in it is completed,
      nothing otherwise. */
  function GoalPosts(tasks: seq<Task>): (msgs: seq<string>)
    ensures msgs == [] || msgs == [GoalMessage]
    ensures msgs == [GoalMessage] <==> |tasks| > 0 && forall k :: 0 <= k < |tasks| ==> tasks[k].completed
  {
    CountExtremes(tasks, Completed);
    if PostsGoal(Count(tasks, Completed), |tasks|) then [GoalMessage] else []
  }

  /** What a completed session posts: the session notification, then
      whatever the goal check posts. */
  function SessionPosts(tasks: seq<Task>): (msgs: seq<string>)
    ensures |msgs| >= 1 && msgs[0] == SessionMessage && msgs[1..] == GoalPosts(tasks)
  {
    [SessionMessage] + GoalPosts(tasks)
  }

  /** What flipping the flag of `t` posts: "Task completed" exactly when the
      new flag is true, and nothing otherwise. */
  function DonePosts(t: Task): (msgs: seq<string>)
    ensures msgs == [] || msgs == [TaskDoneMessage]
    ensures msgs != [] <==> t.completed
  {
    if t.completed then [TaskDoneMessage] else []
  }

  /** What the streak evaluation on `today` posts from state `s`: the
      notification for the new streak exactly when the evaluation
      celebrates, and nothing otherwise. */
  function StreakPosts(s: StreakState, today: int): (msgs: seq<string>)
    ensures msgs != [] <==> Celebrates(s, today)
    ensures msgs == [] || msgs == [StreakMessage(Evaluate(s, today).streak)]
  {
    if Celebrates(s, today) then [StreakMessage(s.streak + 1)] else []
  }

  /** The values of the `stats` object at one moment. */
  datatype Figures = Figures(
    tasksCompleted: int, pomodoroSessions: int, totalFocusTime: int,
    todayTasks: int, currentStreak: int, lastActiveDate: Option<int>)

  /** The `stats` object. `totalFocusTime` is in minutes. */
  class Stats {
    var tasksCompleted: int
    var pomodoroSessions: int
    var totalFocusTime: int
    var todayTasks: int
    var currentStreak: int
    var lastActiveDate: Option<int>

    function Snapshot(): Figures
      reads this
    {
      Figures(tasksCompleted, pomodoroSessions, totalFocusTime, todayTasks, currentStreak, lastActiveDate)
    }

    function StreakView(): StreakState
      reads this
    {
      StreakState(lastActiveDate, currentStreak)
    }

    /** All counters at zero, no active day yet. */
    constructor ()
      ensures Snapshot() == Figures(0, 0, 0, 0, 0, None)
    {
      tasksCompleted, pomodoroSessions, totalFocusTime := 0, 0, 0;
      todayTasks, currentStreak, lastActiveDate := 0, 0, None;
    }
  }

  /** The page's state: the `tasks` array and the `stats`, `timer` and
      achievements-container objects. */
  class App {
    var tasks: seq<Task>
    const stats: Stats
    const timer: Timer
    const board: Board

    /** The invariant every operation keeps: the completed counter matches
        the list, the day counter never falls below the number of tasks,
        focus time is 25 minutes per completed session, the streak is
        consistent, the timer is in range and the achievement list holds at
        most five entries with distinct keys. */
    ghost predicate Valid()
      reads this, stats, timer, board
    {
      && stats.tasksCompleted == Count(tasks, Completed)
      && |tasks| <= stats.todayTasks
      && 0 <= stats.pomodoroSessions
      && stats.totalFocusTime == 25 * stats.pomodoroSessions
      && Consistent(stats.StreakView())
      && timer.Valid()
      && board.Valid() && |board.notes| <= MaxVisible
    }

    /** `todayTasks` counts exactly the tasks created on `today`. Every
        operation keeps this for a fixed `today`. */
    ghost predicate TodayConsistent(today: int)
      reads this, stats
    {
      stats.todayTasks == Count(tasks, CreatedOn(today))
    }

    /** The state right after page load: no tasks, zero stats, the timer at
        25:00 stopped, and the achievement list as the markup fills it. */
    constructor (initialNotes: seq<string>)
      requires |initialNotes| <= MaxVisible
      ensures Valid() && tasks == []
      ensures fresh(stats) && fresh(timer) && fresh(board)
      ensures stats.Snapshot() == Figures(0, 0, 0, 0, 0, None)
      ensures timer.State() == Full
      ensures board.nextKey == |initialNotes| && |board.notes| == |initialNotes|
      ensures forall d :: TodayConsistent(d)
    {
      tasks := [];
      stats := new Stats();
      timer := new Timer();
      board := new Board(initialNotes);
    }

    /** `updateStats`, less its rendering: posts the goal notification when
        the progress is at 100% and the list is not empty, on every call
        where that holds. */
    method UpdateStats()
      requires Valid()
      modifies board
      ensures Valid()
      ensures board.notes == PostAll(old(board.notes), old(board.nextKey), GoalPosts(tasks))
      ensures board.nextKey == old(board.nextKey) + |GoalPosts(tasks)|
    {
      PostAllSingle(board.notes, board.nextKey, GoalMessage);
      var totalTasks := |tasks|;
      var completedTasks := Count(tasks, Completed);
      var progressPercent := Percent(completedTasks, totalTasks);
      if progressPercent >= 100.0 {
        if totalTasks > 0 {
          var _ := board.Post(GoalMessage);
        }
      }
    }

    /** `addTask`: a blank input changes nothing; otherwise one task with the
        trimmed text, not completed and created today, is appended and the
        day counter goes up by one. No notification follows, since the list
        now has an unfinished task. */
    method AddTask(input: string, id: int, today: int)
      requires Valid()
      modifies this, stats, board
      ensures Valid()
      ensures Trim(input) == [] ==> tasks == old(tasks) && stats.Snapshot() == old(stats.Snapshot())
      ensures Trim(input) != [] ==>
        && tasks == old(tasks) + [Task(id, Trim(input), false, today)]
        && stats.Snapshot() == old(stats.Snapshot()).(todayTasks := old(stats.todayTasks) + 1)
      ensures board.notes == old(board.notes) && board.nextKey == old(board.nextKey)
      ensures old(TodayConsistent(today)) ==> TodayConsistent(today)
    {
      var text := Trim(input);
      if text == [] {
        return;
      }
      var task := Task(id, text, false, today);
      CountAppend(tasks, task, Completed);
      CountAppend(tasks, task, CreatedOn(today));
      tasks := tasks + [task];
      stats.todayTasks := stats.todayTasks + 1;
      assert !tasks[|tasks| - 1].completed;
      UpdateStats();
    }

    /** `toggleTask`: an unknown id changes nothing. Otherwise the first task
        with that id has its flag flipped, the completed counter follows it
        by one, "Task completed" is posted only when the flag became true,
        and the goal check of `updateStats` runs. */
    method ToggleTask(id: int)
      requires Valid()
      modifies this, stats, board
      ensures Valid()
      ensures FindIndex(old(tasks), id) == -1 ==>
        tasks == old(tasks) && stats.Snapshot() == old(stats.Snapshot())
        && board.notes == old(board.notes) && board.nextKey == old(board.nextKey)
      ensures var i := FindIndex(old(tasks), id);
        i >= 0 ==>
          && tasks == Toggled(old(tasks), i)
          && stats.Snapshot() == old(stats.Snapshot()).(tasksCompleted :=
               old(stats.tasksCompleted) + (if tasks[i].completed then 1 else -1))
          && board.notes == PostAll(old(board.notes), old(board.nextKey), DonePosts(tasks[i]) + GoalPosts(tasks))
          && board.nextKey == old(board.nextKey) + |DonePosts(tasks[i]) + GoalPosts(tasks)|
      ensures forall d :: Count(tasks, CreatedOn(d)) == Count(old(tasks), CreatedOn(d))
    {
      var i := FindIndex(tasks, id);
      if i >= 0 {
        ghost var notes0, key0 := board.notes, board.nextKey;
        Flip(i);
        ghost var done, goal := DonePosts(tasks[i]), GoalPosts(tasks);
        ghost var notes1, key1 := board.notes, board.nextKey;
        assert notes1 == PostAll(notes0, key0, done) && key1 == key0 + |done|;
        PostAllAppend(notes0, key0, done, goal);
        UpdateStats();
        assert board.notes == PostAll(notes1, key1, goal);
        assert board.notes == PostAll(notes0, key0, done + goal);
      }
    }

    /** The flag flip of `toggleTask` on the task at `i`: the counter
        follows the new flag and "Task completed" is posted when it became
        true. */
    method Flip(i: nat)
      requires Valid() && i < |tasks|
      modifies this, stats, board
      ensures Valid()
      ensures tasks == Toggled(old(tasks), i)
      ensures stats.Snapshot() == old(stats.Snapshot()).(tasksCompleted :=
        old(stats.tasksCompleted) + (if tasks[i].completed then 1 else -1))
      ensures board.notes == PostAll(old(board.notes), old(board.nextKey), DonePosts(tasks[i]))
      ensures board.nextKey == old(board.nextKey) + |DonePosts(tasks[i])|
      ensures forall d :: Count(tasks, CreatedOn(d)) == Count(old(tasks), CreatedOn(d))
    {
      PostAllSingle(board.notes, board.nextKey, TaskDoneMessage);
      ToggledCounts(tasks, i);
      tasks := Toggled(tasks, i);
      var task := tasks[i];
      stats.tasksCompleted := stats.tasksCompleted + (if task.completed then 1 else -1);
      if task.completed {
        var _ := board.Post(TaskDoneMessage);
        assert [TaskDoneMessage][1..] == [];
      }
    }

    /** `deleteTask`: an unknown id changes nothing. Otherwise the first task
        with that id is spliced out, the others keeping their order; the
        completed counter drops by one if that task was completed and the
        day counter if it was created today, both read from the task before
        it is removed; then the goal check of `updateStats` runs. */
    method DeleteTask(id: int, today: int)
      requires Valid()
      modifies this, stats, board
      ensures Valid()
      ensures FindIndex(old(tasks), id) == -1 ==>
        tasks == old(tasks) && stats.Snapshot() == old(stats.Snapshot())
        && board.notes == old(board.notes) && board.nextKey == old(board.nextKey)
      ensures var i := FindIndex(old(tasks), id);
        i >= 0 ==>
          && tasks == Removed(old(tasks), i)
          && stats.Snapshot() == old(stats.Snapshot()).(
               tasksCompleted := old(stats.tasksCompleted) - Weight(Completed, old(tasks)[i]),
               todayTasks := old(stats.todayTasks) - Weight(CreatedOn(today), old(tasks)[i]))
          && board.notes == PostAll(old(board.notes), old(board.nextKey), GoalPosts(tasks))
          && board.nextKey == old(board.nextKey) + |GoalPosts(tasks)|
      ensures old(TodayConsistent(today)) ==> TodayConsistent(today)
    {
      var taskIndex := FindIndex(tasks, id);
      if taskIndex > -1 {
        Unlink(taskIndex, today);
        UpdateStats();
      }
    }

    /** The splice step of `deleteTask` on the task at `i`: the counters
        follow the task that goes, and the invariant still holds. */
    method Unlink(i: nat, today: int)
      requires Valid() && i < |tasks|
      modifies this, stats
      ensures Valid()
      ensures tasks == Removed(old(tasks), i)
      ensures stats.Snapshot() == old(stats.Snapshot()).(
        tasksCompleted := old(stats.tasksCompleted) - Weight(Completed, old(tasks)[i]),
        todayTasks := old(stats.todayTasks) - Weight(CreatedOn(today), old(tasks)[i]))
      ensures old(TodayConsistent(today)) ==> TodayConsistent(today)
    {
      ghost var before := stats.Snapshot();
      var task := tasks[i];
      CountRemoved(tasks, i, Completed);
      CountRemoved(tasks, i, CreatedOn(today));
      if task.completed {
        stats.tasksCompleted := stats.tasksCompleted - 1;
      }
      if task.createdAt == today {
        stats.todayTasks := stats.todayTasks - 1;
      }
      assert stats.tasksCompleted == old(stats.tasksCompleted) - Weight(Completed, task);
      assert stats.todayTasks == old(stats.todayTasks) - Weight(CreatedOn(today), task);
      tasks := Removed(tasks, i);
      assert stats.Snapshot() == before.(tasksCompleted := before.tasksCompleted - Weight(Completed, task),
        todayTasks := before.todayTasks - Weight(CreatedOn(today), task));
    }

    /** `editTask`: the first task with that id gets the trimmed new text,
        unless that is blank or no task has the id, in which case nothing
        changes. Flags, order, the stats and the achievement list are never
        touched. */
    method EditTask(id: int, newText: string)
      requires Valid()
      modifies this
      ensures Valid()
      ensures var i := FindIndex(old(tasks), id);
        if i >= 0 && Trim(newText) != [] then
          tasks == old(tasks)[i := old(tasks)[i].(text := Trim(newText))]
        else
          tasks == old(tasks)
      ensures forall d :: Count(tasks, CreatedOn(d)) == Count(old(tasks), CreatedOn(d))
    {
      var i := FindIndex(tasks, id);
      var text := Trim(newText);
      if i >= 0 && text != [] {
        RetextedCounts(tasks, i, text, Completed);
        forall d ensures Count(tasks[i := tasks[i].(text := text)], CreatedOn(d)) == Count(tasks, CreatedOn(d)) {
          RetextedCounts(tasks, i, text, CreatedOn(d));
        }
        tasks := tasks[i := tasks[i].(text := text)];
      }
    }

    /** `updateTimer`, less its rendering. Away from 0:00 one second comes
        off the clock and nothing else changes. At 0:00 the session is
        complete: the timer is paused, one session and 25 focus minutes are
        added, the session notification is posted, the timer is reset to
        25:00 and the goal check of `updateStats` runs, in that order. */
    method UpdateTimer()
      requires Valid()
      modifies timer, stats, board
      ensures Valid()
      ensures timer.State() == Step(old(timer.State()))
      ensures !AtZero(old(timer.State())) ==>
        stats.Snapshot() == old(stats.Snapshot())
        && board.notes == old(board.notes) && board.nextKey == old(board.nextKey)
      ensures AtZero(old(timer.State())) ==>
        && stats.Snapshot() == old(stats.Snapshot()).(
             pomodoroSessions := old(stats.pomodoroSessions) + 1,
             totalFocusTime := old(stats.totalFocusTime) + 25)
        && board.notes == PostAll(old(board.notes), old(board.nextKey), SessionPosts(tasks))
        && board.nextKey == old(board.nextKey) + 1 + |GoalPosts(tasks)|
    {
      if timer.seconds == 0 {
        if timer.minutes == 0 {
          CompleteSession();
          return;
        }
        timer.minutes := timer.minutes - 1;
        timer.seconds := 59;
      } else {
        timer.seconds := timer.seconds - 1;
      }
    }

    /** The 0:00 branch of `updateTimer`: pause, count the session and its
        25 minutes, post the session notification, reset to 25:00, then run
        the goal check. */
    method CompleteSession()
      requires Valid() && AtZero(timer.State())
      modifies timer, stats, board
      ensures Valid()
      ensures timer.State() == Full
      ensures stats.Snapshot() == old(stats.Snapshot()).(
        pomodoroSessions := old(stats.pomodoroSessions) + 1,
        totalFocusTime := old(stats.totalFocusTime) + 25)
      ensures board.notes == PostAll(old(board.notes), old(board.nextKey), SessionPosts(tasks))
      ensures board.nextKey == old(board.nextKey) + 1 + |GoalPosts(tasks)|
    {
      ghost var notes0, key0 := board.notes, board.nextKey;
      EndSession();
      ghost var notes1, key1 := board.notes, board.nextKey;
      PostAllAppend(notes0, key0, [SessionMessage], GoalPosts(tasks));
      timer.Reset();
      UpdateStats();
      assert board.notes == PostAll(notes1, key1, GoalPosts(tasks));
    }

    /** The first half of the 0:00 branch: pause, count the session and its
        25 minutes, and post the session notification. */
    method EndSession()
      requires Valid() && AtZero(timer.State())
      modifies timer, stats, board
      ensures Valid()
      ensures timer.State() == old(timer.State()).(running := false)
      ensures stats.Snapshot() == old(stats.Snapshot()).(
        pomodoroSessions := old(stats.pomodoroSessions) + 1,
        totalFocusTime := old(stats.totalFocusTime) + 25)
      ensures board.notes == PostAll(old(board.notes), old(board.nextKey), [SessionMessage])
      ensures board.nextKey == old(board.nextKey) + 1
    {
      PostAllSingle(board.notes, board.nextKey, SessionMessage);
      timer.Pause();
      stats.pomodoroSessions := stats.pomodoroSessions + 1;
      stats.totalFocusTime := stats.totalFocusTime + 25;
      var _ := board.Post(SessionMessage);
    }

    /** One period of the one-second interval: it is armed exactly while the
        timer runs, so a stopped timer consumes no tick. */
    method Tick()
      requires Valid()
      modifies timer, stats, board
      ensures Valid()
      ensures timer.State() == Deliver(old(timer.State()))
      ensures !Completes(old(timer.State())) ==>
        stats.Snapshot() == old(stats.Snapshot())
        && board.notes == old(board.notes) && board.nextKey == old(board.nextKey)
      ensures Completes(old(timer.State())) ==>
        && stats.Snapshot() == old(stats.Snapshot()).(
             pomodoroSessions := old(stats.pomodoroSessions) + 1,
             totalFocusTime := old(stats.totalFocusTime) + 25)
        && board.notes == PostAll(old(board.notes), old(board.nextKey), SessionPosts(tasks))
        && board.nextKey == old(board.nextKey) + |SessionPosts(tasks)|
    {
      if timer.isRunning {
        UpdateTimer();
      }
    }

    /** `n` periods of the one-second interval. The clock and the completed
        sessions follow `Run`; each completed session adds 25 minutes of
        focus time and posts the session and goal notifications, and
        nothing else changes. */
    method RunTimer(n: nat)
      requires Valid()
      modifies timer, stats, board
      ensures Valid()
      ensures timer.State() == Run(old(timer.State()), n).0
      ensures stats.Snapshot() == old(stats.Snapshot()).(
        pomodoroSessions := old(stats.pomodoroSessions) + Run(old(timer.State()), n).1,
        totalFocusTime := old(stats.totalFocusTime) + 25 * Run(old(timer.State()), n).1)
      ensures board.notes == PostAll(old(board.notes), old(board.nextKey),
                                     if Run(old(timer.State()), n).1 == 1 then SessionPosts(tasks) else [])
      ensures board.nextKey == old(board.nextKey) + (if Run(old(timer.State()), n).1 == 1 then |SessionPosts(tasks)| else 0)
    {
      ghost var c0, s0 := timer.State(), stats.Snapshot();
      ghost var notes0, key0 := board.notes, board.nextKey;
      PostAllSingle(notes0, key0, SessionMessage);
      var k := 0;
      while k < n
        invariant 0 <= k <= n
        invariant Valid()
        invariant timer.State() == Run(c0, k).0
        invariant stats.Snapshot() == s0.(
          pomodoroSessions := s0.pomodoroSessions + Run(c0, k).1,
          totalFocusTime := s0.totalFocusTime + 25 * Run(c0, k).1)
        invariant board.notes == PostAll(notes0, key0, if Run(c0, k).1 == 1 then SessionPosts(tasks) else [])
        invariant board.nextKey == key0 + (if Run(c0, k).1 == 1 then |SessionPosts(tasks)| else 0)
      {
        RunStep(c0, k);
        Tick();
        k := k + 1;
      }
    }

    /** `startTimer` on a fresh 25:00 clock followed by `n >= 1501` interval
        periods: exactly one session is completed and counted, its
        notifications are posted, and the timer is back at 25:00, stopped. */
    method StartAndRun(n: nat)
      requires Valid() && timer.State() == Full && n >= 1501
      modifies timer, stats, board
      ensures Valid()
      ensures timer.State() == Full
      ensures stats.Snapshot() == old(stats.Snapshot()).(
        pomodoroSessions := old(stats.pomodoroSessions) + 1,
        totalFocusTime := old(stats.totalFocusTime) + 25)
      ensures board.notes == PostAll(old(board.notes), old(board.nextKey), SessionPosts(tasks))
    {
      timer.Start();
      FullSession(timer.State(), n);
      RunTimer(n);
    }

    /** `updateStreak(today)`: evaluated already today, nothing happens.
        Otherwise the streak follows `Evaluate`, the streak notification is
        posted when the streak grew past one day, and the goal check of
        `updateStats` runs. */
    method UpdateStreak(today: int)
      requires Valid()
      modifies stats, board
      ensures Valid()
      ensures stats.StreakView() == Evaluate(old(stats.StreakView()), today)
      ensures stats.tasksCompleted == old(stats.tasksCompleted) && stats.todayTasks == old(stats.todayTasks)
      ensures stats.pomodoroSessions == old(stats.pomodoroSessions)
      ensures stats.totalFocusTime == old(stats.totalFocusTime)
      ensures old(stats.lastActiveDate) == Some(today) ==>
        board.notes == old(board.notes) && board.nextKey == old(board.nextKey)
      ensures old(stats.lastActiveDate) != Some(today) ==>
        board.notes == PostAll(old(board.notes), old(board.nextKey),
                               StreakPosts(old(stats.StreakView()), today) + GoalPosts(tasks))
        && board.nextKey == old(board.nextKey) + |StreakPosts(old(stats.StreakView()), today) + GoalPosts(tasks)|
    {
      if stats.lastActiveDate != Some(today) {
        NewDay(today);
      }
    }

    /** `updateStreak` on a day other than the last active one: the streak
        step, then the goal check. */
    method NewDay(today: int)
      requires Valid() && stats.lastActiveDate != Some(today)
      modifies stats, board
      ensures Valid()
      ensures stats.Snapshot() == old(stats.Snapshot()).(
        currentStreak := Evaluate(old(stats.StreakView()), today).streak,
        lastActiveDate := Evaluate(old(stats.StreakView()), today).lastActive)
      ensures board.notes == PostAll(old(board.notes), old(board.nextKey),
                                     StreakPosts(old(stats.StreakView()), today) + GoalPosts(tasks))
      ensures board.nextKey == old(board.nextKey) + |StreakPosts(old(stats.StreakView()), today) + GoalPosts(tasks)|
    {
      ghost var notes0, key0 := board.notes, board.nextKey;
      ghost var posted := StreakPosts(stats.StreakView(), today);
      Advance(today);
      ghost var notes1, key1 := board.notes, board.nextKey;
      PostAllAppend(notes0, key0, posted, GoalPosts(tasks));
      UpdateStats();
      assert board.notes == PostAll(notes1, key1, GoalPosts(tasks));
    }

    /** The streak step of `updateStreak` on a day other than the last active
        one: the streak grows or restarts as `Evaluate` says, the streak
        notification is posted when it grew past one day, and today becomes
        the last active day. */
    method Advance(today: int)
      requires Valid() && stats.lastActiveDate != Some(today)
      modifies stats, board
      ensures Valid()
      ensures stats.StreakView() == Evaluate(old(stats.StreakView()), today)
      ensures stats.tasksCompleted == old(stats.tasksCompleted) && stats.todayTasks == old(stats.todayTasks)
      ensures stats.pomodoroSessions == old(stats.pomodoroSessions)
      ensures stats.totalFocusTime == old(stats.totalFocusTime)
      ensures board.notes == PostAll(old(board.notes), old(board.nextKey), StreakPosts(old(stats.StreakView()), today))
      ensures board.nextKey == old(board.nextKey) + |StreakPosts(old(stats.StreakView()), today)|
    {
      if stats.lastActiveDate == Some(today - 1) {
        stats.currentStreak := stats.currentStreak + 1;
        PostAllSingle(board.notes, board.nextKey, StreakMessage(stats.currentStreak));
        if stats.currentStreak > 1 {
          var _ := board.Post(StreakMessage(stats.currentStreak));
        }
      } else {
        stats.currentStreak := 1;
      }
      stats.lastActiveDate := Some(today);
    }

    /** The welcome notification scheduled by `initialize`: posted only while
        there are no tasks and no completed task. */
    method Welcome()
      requires Valid()
      modifies board
      ensures Valid()
      ensures |tasks| == 0 && stats.tasksCompleted == 0 ==>
        board.notes == Push(old(board.notes), Note(old(board.nextKey), WelcomeMessage))
        && board.nextKey == old(board.nextKey) + 1
      ensures !(|tasks| == 0 && stats.tasksCompleted == 0) ==>
        board.notes == old(board.notes) && board.nextKey == old(board.nextKey)
    {
      if |tasks| == 0 && stats.tasksCompleted == 0 {
        var _ := board.Post(WelcomeMessage);
      }
    }
  }

  /** Toggling the same id twice restores the list and every stat. */
  method ToggleTwice(app: App, id: int)
    requires app.Valid()
    modifies app, app.stats, app.board
    ensures app.Valid()
    ensures app.tasks == old(app.tasks)
    ensures app.stats.Snapshot() == old(app.stats.Snapshot())
  {
    var i := FindIndex(app.tasks, id);
    app.ToggleTask(id);
    app.ToggleTask(id);
    if i >= 0 {
      ToggledTwice(old(app.tasks), i);
    }
  }
}
