# OVERTASKER state engine, modelled in Dafny

OVERTASKER is a single-page productivity app: a task list, a 25-minute
Pomodoro timer, a progress meter with three colour tiers, a daily streak and
a short list of achievement notifications. All of its state lives in
`script.js`. That state is the `tasks` array, the `stats` object, the
`timer` object and the achievements container in the page. This project
models the operations that change that state, leaves out the DOM rendering
around them, and proves what those operations promise.

Layout, one module per file:

- `wrappers.dfy` (`Wrappers`): `Option`, used for `stats.lastActiveDate`,
  which starts as `null`.
- `text.dfy` (`Text`): JavaScript's `trim` with the ECMAScript whitespace
  set, `includes`, and the decimal rendering of a counter.
- `tasks.dfy` (`Tasks`): the task record, the `find` / `findIndex` /
  `filter` lookups, the `splice` removal, and how the counts react to
  append, in-place update and splice.
- `progress.dfy` (`Progress`): the percentage of `updateStats` and the
  goal / good / default tier it selects.
- `countdown.dfy` (`Countdown`): the clock value, one `updateTimer` tick
  (`Step`), the one-second interval (`Deliver`, `Run`), and the `timer`
  object as a class with `startTimer`, `pauseTimer` and `resetTimer`.
- `streak.dfy` (`Streak`): the day-keyed rule of `updateStreak`.
- `notes.dfy` (`Notes`): the achievement list as a value (`Push`,
  `PostAll`, `Expired`), and the container as a class (`Board`) with
  `showAchievement` (`Post`) and the deferred removal (`Expire`).
- `overtasker.dfy` (`Overtasker`): the `stats` object and the page state
  (`App`), with the task, timer, streak and statistics operations. Its
  invariant `App.Valid` is kept by every operation. It says that
  `tasksCompleted` equals the number of completed tasks, that there are
  never more tasks than `todayTasks`, that the focus time is 25 minutes per
  session, that the streak is consistent, that the clock is in range, and
  that the achievement list holds at most five entries with distinct keys.

Conventions of the model:

- Calendar days are abstract day numbers. `today` is a parameter, and
  "yesterday" is `today - 1`.
- Task ids are supplied by the caller. Nothing assumes they are unique: as
  in the source, `toggleTask`, `deleteTask` and `editTask` act on the first
  task with the id.
- A tick of the one-second interval is an explicit call (`App.Tick`,
  `Countdown.Deliver`). It reaches `updateTimer` only while the timer runs,
  because `startTimer` arms the interval together with `isRunning` and
  `pauseTimer` clears both.
- A notification entry carries a key that the container hands out when it
  posts the entry. The key stands for the identity of the DOM element that
  the 5-second callback holds on to. `Board.Expire(key)` is that callback:
  it removes the entry if it is still in the list and does nothing
  otherwise.
- The percentage is computed on exact reals. `Progress.AtLeast` shows that
  comparing it with 100 or 60 is the same as comparing `100 * completed`
  with `x * total` on integers.

Where the code and its description differ, the model follows the code:

- A full session from 25:00 takes 1501 ticks, not 1500. The 1500th tick
  reaches 0:00, and the tick after it completes the session
  (`Countdown.FullSessionReachesZero`, `Countdown.FullSession`).
- The "Daily goal achieved" notification is posted by every run of
  `updateStats` while all tasks are completed, not only when 100% is first
  reached (`Progress.PostsGoal`, `Overtasker.App.UpdateStats`).
- The "Complete your first task" placeholder is removed whenever it is the
  first entry of the container when a notification is posted, whether or
  not it is the only one (`Notes.DropPlaceholder`, `Notes.PushKeepsOrder`).

## Model

| member | source | states |
|---|---|---|
| Text.Trim | script.js:67 | `trim`: the result is empty exactly when the input is all whitespace; otherwise it starts and ends with a character that is not whitespace, and it is never longer than the input |
| Text.TrimDecomposes | script.js:67 | the input is leading whitespace, then the trimmed text, then trailing whitespace |
| Text.TrimIdempotent | script.js:123-124 | trimming the stored, already trimmed text again changes nothing |
| Text.ContainsOccurs | script.js:258 | `includes` is true exactly when the pattern occurs at some index of the text |
| Text.Contains | script.js:258 | `includes`: the empty pattern is always found, and a found pattern is no longer than the text |
| Text.Decimal | script.js:241 | the streak count is rendered with decimal digits only, without a leading zero, and the digits read back as the count (`DecValue`) |
| Tasks.Count | script.js:212 | `filter(...).length` never exceeds the list length |
| Tasks.CountExtremes | script.js:212 | the count equals the length exactly when every task is selected, and is 0 exactly when none is |
| Tasks.FindIndex | script.js:92 | `find`/`findIndex`: -1 exactly when no task has the id; otherwise the index of the first task with it |
| Tasks.Removed | script.js:116 | `splice(i, 1)` shortens the list by one |
| Tasks.RemovedShifts | script.js:116 | after the splice, the tasks before `i` stay in place and the ones after it move one place forward |
| Tasks.CountUpdate | script.js:94-95 | replacing one task changes every count by the new task's weight minus the old one's |
| Tasks.CountAppend | script.js:80 | `push` adds the new task's weight to every count |
| Tasks.CountRemoved | script.js:113-116 | the splice subtracts the removed task's weight from every count |
| Tasks.ToggledCounts | script.js:94-95 | flipping one flag moves the completed count by +1 or -1 in the direction of the new flag, and leaves every per-day count alone |
| Tasks.Toggled | script.js:94 | the flip changes the flag of task `i` and nothing else: its id, text and creation day, every other task and the length are kept |
| Tasks.ToggledTwice | script.js:94 | flipping the same task twice gives back the original list |
| Tasks.RetextedCounts | script.js:123-125 | changing a task's text leaves every count alone |
| Progress.Percent | script.js:213 | 0 for an empty list, never negative, at most 100 while completed does not exceed total |
| Progress.AtLeast | script.js:213-225 | the percentage reaches a threshold `x` exactly when `100 * completed >= x * total` on a non-empty list |
| Progress.TierOf | script.js:220-228 | goal tier exactly when the list is non-empty and all tasks are completed; good tier exactly when `100 * completed >= 60 * total` short of that; default tier otherwise, including the empty list |
| Progress.PostsGoal | script.js:220-224 | the goal notification is posted exactly when the goal tier applies |
| Countdown.Step | script.js:175-201 | a tick at 0:00 gives 25:00 stopped; anywhere else it takes exactly one second off, keeps seconds in 0..59 and keeps the running flag |
| Countdown.Deliver | script.js:156-166 | an interval period never starts the timer, leaves a stopped clock exactly as it is, and keeps the clock in range |
| Countdown.Run | script.js:159-201 | over any number of periods a paused clock stays unchanged and completes nothing; at most one session completes, and after it the clock is at 25:00, stopped; the clock stays in range |
| Countdown.RunStep | script.js:159 | one more period delivers one more tick to the clock reached so far and counts a session exactly when that clock is running at 0:00 |
| Countdown.RunSplit | script.js:159 | `a + b` interval periods are `a` periods followed by `b` more, with the completed sessions added up |
| Countdown.RunCountsDown | script.js:175-201 | a running clock loses exactly `n` seconds over `n` periods while `n` is within the time left, stays running and completes nothing |
| Countdown.RunFromZero | script.js:176-193 | a running clock at 0:00 completes exactly one session on the next period and then stays at 25:00, stopped |
| Countdown.ReachesZero | script.js:175-201 | a running clock reaches 0:00 after exactly as many periods as it has seconds left |
| Countdown.SessionCompletes | script.js:175-201 | one more period after that completes the session once, and the clock is then at 25:00, stopped |
| Countdown.FullSessionReachesZero | script.js:35 | from a started clock at 25:00, 1500 periods reach 0:00 without completing the session |
| Countdown.FullSession | script.js:35 | from a started clock at 25:00, any number of periods from 1501 on has completed exactly one session and left 25:00, stopped |
| Countdown.Timer.constructor | script.js:35 | the timer starts at 25:00, stopped |
| Countdown.Timer.Start | script.js:156-161 | `startTimer` sets the running flag and never touches the time; on a running timer it changes nothing |
| Countdown.Timer.Pause | script.js:163-166 | `pauseTimer` clears the running flag and keeps minutes and seconds |
| Countdown.Timer.Reset | script.js:168-173 | `resetTimer` always yields 25:00, stopped |
| Streak.Evaluate | script.js:236-247 | already active today: nothing changes; active yesterday: the streak grows by one; otherwise it restarts at 1; in the last two cases today becomes the last active day; a consistent state stays consistent |
| Streak.Celebrates | script.js:238-240 | the streak notification is due exactly when the last active day was yesterday and the new streak exceeds one day; on a consistent state, exactly when the last active day was yesterday |
| Streak.EvaluateIdempotent | script.js:236 | a second evaluation on the same day changes nothing and posts nothing |
| Streak.DailyGrows | script.js:238-247 | evaluating on `k` consecutive days adds one day per day after the first evaluation |
| Notes.Push | script.js:251-276 | the new entry is in front, and a list of at most five entries still has at most five |
| Notes.PushKeepsOrder | script.js:257-275 | behind the new entry come the old entries, minus the leading placeholder, in their order; one is dropped only when there would be more than five, and it is the oldest |
| Notes.IsPlaceholder | script.js:258 | an entry is the placeholder exactly when the "Complete your first task" text occurs somewhere in it |
| Notes.DropPlaceholder | script.js:257-260 | the list loses at most one entry, always its first, and loses it exactly when that first entry is the placeholder |
| Notes.PostEachAppend | script.js:251-276 | feeding one batch of messages and then another to a posting step is feeding both in one go, the second batch taking the keys after the first's |
| Notes.PostEachBounded | script.js:272-275 | posting a batch one by one keeps a list of at most five entries at most five long |
| Notes.PostAll | script.js:251-276 | a batch of posts keeps a list of at most five entries at most five long |
| Notes.PostAllSingle | script.js:251-276 | posting no message changes nothing, and posting one message is one `Push` under the next key |
| Notes.PostAllNewest | script.js:262 | after a non-empty batch, the entry in front is the last message, under the last key handed out |
| Notes.PostAllAppend | script.js:251-276 | posting one batch and then another is posting both in one go, with consecutive keys |
| Notes.Expired | script.js:264-270 | the expiry removes the entry with the key if it is present, never grows the list, and changes nothing when the key is absent |
| Notes.PushFresh | script.js:253 | a post with a key no entry has keeps the keys distinct |
| Notes.ExpiredAt | script.js:264-268 | with distinct keys, the expiry of an entry splices out exactly that entry |
| Notes.ExpiredAvoids | script.js:264-268 | an expiry adds no key |
| Notes.ExpiredKeepsKeys | script.js:264-268 | an expiry keeps the keys distinct and below the same bound |
| Notes.IndexOfKey | script.js:265 | -1 exactly when no entry has the key; otherwise an index of an entry with it |
| Notes.ExpiredByIndex | script.js:264-268 | the expiry is the removal at the key's index, or no change when the key is absent |
| Notes.Board.constructor | script.js:252 | the container as the markup fills it, one entry per initial message, with distinct keys |
| Notes.Board.Post | script.js:251-276 | `showAchievement` hands out the next key and makes the list `Push(old list, new entry)`, keeping the keys distinct |
| Notes.Board.Expire | script.js:264-270 | the deferred removal makes the list `Expired(old list, key)` and keeps the keys distinct |
| Overtasker.GoalPosts | script.js:220-224 | `updateStats` posts the goal notification exactly when the list is non-empty and every task is completed, and nothing otherwise |
| Overtasker.DonePosts | script.js:96-97 | flipping a flag posts "Task completed" exactly when the new flag is true, and nothing otherwise |
| Overtasker.StreakMessage | script.js:241 | the streak notification is the fire prefix, then the count, then " day streak! Keep it up!" |
| Overtasker.StreakMessageCount | script.js:241 | between prefix and suffix the streak notification holds only decimal digits, and they read back as the streak length |
| Overtasker.StreakPosts | script.js:238-242 | the streak notification is posted exactly when `Streak.Celebrates` holds, and it is then the message for the new streak length |
| Overtasker.SessionPosts | script.js:181-192 | a completed session posts the session notification first, then exactly what the goal check posts |
| Overtasker.Stats.constructor | script.js:27-34 | all counters start at zero, with no active day |
| Overtasker.App.constructor | script.js:26-35 | the page starts with no tasks, zero stats and the timer at 25:00 stopped, and the invariant holds |
| Overtasker.App.UpdateStats | script.js:211-229 | keeps the invariant; posts the goal notification on every call where the goal tier applies, and changes nothing else |
| Overtasker.App.AddTask | script.js:65-89 | blank input changes nothing; otherwise exactly one task with the trimmed text, not completed and created today, is appended and `todayTasks` grows by exactly 1; the invariant and the per-day count are kept |
| Overtasker.App.ToggleTask | script.js:91-107 | an unknown id changes nothing; otherwise only the first task with the id is flipped, `tasksCompleted` follows by +1 or -1, "Task completed" is posted only when the flag became true, then the goal check runs; the keys advance by one per notification |
| Overtasker.App.Flip | script.js:94-97 | the flag flip with its counter update and its notification, keeping the invariant |
| Overtasker.App.DeleteTask | script.js:109-119 | an unknown id changes nothing; otherwise exactly the first task with the id is spliced out, the counters drop by that task's weights read before the splice, then the goal check runs, the keys advancing by one per notification; the per-day count is kept |
| Overtasker.App.Unlink | script.js:111-116 | the counter updates and the splice, keeping the invariant |
| Overtasker.App.EditTask | script.js:121-126 | only a non-blank trimmed text replaces the text of the first task with the id; flags, order and the counts are untouched, and an unknown id or blank text changes nothing |
| Overtasker.App.UpdateTimer | script.js:175-201 | the clock follows `Step`; away from 0:00 nothing else changes; at 0:00 one session and 25 minutes are added and the session and goal notifications are posted, in that order, under consecutive keys |
| Overtasker.App.CompleteSession | script.js:177-193 | pause, count the session, post it, reset to 25:00, then the goal check; the keys advance by one per notification |
| Overtasker.App.EndSession | script.js:178-181 | pause keeping the time, one session and 25 minutes added, the session notification posted under the next key |
| Overtasker.App.Tick | script.js:159 | one interval period: the clock follows `Deliver`; a period that does not find the timer running at 0:00 changes nothing else; one that does adds one session and 25 minutes and posts the session and goal notifications |
| Overtasker.App.RunTimer | script.js:159-201 | `n` interval periods: the clock and the completed sessions follow `Countdown.Run`, the focus time grows by 25 minutes per completed session, and a completed session's notifications are posted |
| Overtasker.App.StartAndRun | script.js:156-201 | `startTimer` at 25:00 followed by at least 1501 periods completes and counts exactly one session, posts its notifications and leaves 25:00, stopped |
| Overtasker.App.UpdateStreak | script.js:232-249 | the streak follows `Evaluate`; the other counters are untouched; already active today posts nothing; otherwise the streak notification, if any, is posted before the goal check, under consecutive keys |
| Overtasker.App.NewDay | script.js:238-248 | on a day other than the last active one: the streak step with its notification, then the goal check, with consecutive keys |
| Overtasker.App.Advance | script.js:238-247 | the streak step with its notification, keeping the invariant |
| Overtasker.App.Welcome | script.js:57-61 | the welcome notification is posted, under the next key, exactly when there are no tasks and no completed task |
| Overtasker.ToggleTwice | script.js:91-107 | toggling the same id twice restores the task list and every stat |

## Left out

- DOM rendering and styling: `updateTaskList`, `updateTimerDisplay`, the
  counters written into the page, the progress-bar width and label, the
  colour of each tier (`Progress.TierOf` says which tier applies), and the
  border, scale and colour animations.
- The login gate, the about toggle, dark mode and the keyboard and touch
  listeners. They only call the modelled operations.
- Real-time scheduling. `setInterval` is modelled as explicit ticks
  (`App.Tick`, `Countdown.Run`), and the 5-second `setTimeout` of
  `showAchievement` as an explicit `Board.Expire` call. The timer's interval
  handle is not a field: it is armed exactly while `isRunning` holds.
- The 300 ms fade before an expired entry leaves the list. The model
  removes the entry in one step.
- Wall-clock dates and ids: `Date.now()` and `toDateString()`. Days are
  abstract numbers with yesterday = today - 1, so a day that is misjudged
  across a daylight-saving change is not modelled. Ids are parameters, so
  colliding `Date.now()` ids are not modelled either.
- Floating point. The percentage is an exact real, and `Math.round` of
  the label is presentation only.
- `initialize` and `updateUI` as composite operations. Their parts
  (`App.UpdateStats`, `App.UpdateStreak`, `App.Welcome`) are modelled, but
  the one-second delay before the welcome notification is not.
- The achievements container is assumed to hold only `.achievement-note`
  entries. `querySelector` and `querySelectorAll` then see exactly the
  modelled list.
- Overtasker.App.constructor: requires the initial markup to hold at most
  five entries. The page's markup holds the single placeholder, and the
  five-entry bound of the container is only kept by `showAchievement`.
