/** The task list as a value: the task record, the `find` / `findIndex` /
    `filter` lookups the engine performs on it, and how the counts it keeps
    react to the list edits `push`, in-place update and `splice`. */
module Tasks {

  /** One task. `createdAt` is the calendar day on which it was created, as
      an abstract day number. */
  datatype Task = Task(id: int, text: string, completed: bool, createdAt: int)

  /** The two conditions the engine counts tasks by. */
  datatype Filter = Completed | CreatedOn(day: int)

  predicate Holds(f: Filter, t: Task) {
    match f
    case Completed => t.completed
    case CreatedOn(day) => t.createdAt == day
  }

  /** 1 for a task the filter selects, 0 otherwise. */
  function Weight(f: Filter, t: Task): nat {
    if Holds(f, t) then 1 else 0
  }

  /** `tasks.filter(...).length`: how many tasks the filter selects. */
  function Count(s: seq<Task>, f: Filter): (n: nat)
    ensures n <= |s|
  {
    if s == [] then 0 else Weight(f, s[0]) + Count(s[1..], f)
  }

  /** The count is the length exactly when the filter selects every task,
      and 0 exactly when it selects none. */
  lemma {:induction false} CountExtremes(s: seq<Task>, f: Filter)
    ensures Count(s, f) == |s| <==> forall k :: 0 <= k < |s| ==> Holds(f, s[k])
    ensures Count(s, f) == 0 <==> forall k :: 0 <= k < |s| ==> !Holds(f, s[k])
  {
    if s != [] {
      CountExtremes(s[1..], f);
      assert forall k :: 1 <= k < |s| ==> s[k] == s[1..][k - 1];
    }
  }

  /** `tasks.findIndex(t => t.id === id)`: the index of the FIRST task with
      that id, or -1 when no task has it. */
  function FindIndex(s: seq<Task>, id: int): (r: int)
    ensures -1 <= r < |s|
    ensures r == -1 <==> forall k :: 0 <= k < |s| ==> s[k].id != id
    ensures 0 <= r ==> s[r].id == id && forall k :: 0 <= k < r ==> s[k].id != id
  {
    if s == [] then -1
    else if s[0].id == id then 0
    else
      var r := FindIndex(s[1..], id);
      assert forall k :: 1 <= k < |s| ==> s[k] == s[1..][k - 1];
      if r == -1 then -1 else r + 1
  }

  /** The list after `task.completed = !task.completed` on the task at `i`:
      that task's flag is inverted and its id, text and day are kept, and
      every other task stays as it was. */
  function Toggled(s: seq<Task>, i: nat): (r: seq<Task>)
    requires i < |s|
    ensures |r| == |s|
    ensures r[i].completed != s[i].completed
    ensures r[i].id == s[i].id && r[i].text == s[i].text && r[i].createdAt == s[i].createdAt
    ensures forall k :: 0 <= k < |s| && k != i ==> r[k] == s[k]
  {
    s[i := s[i].(completed := !s[i].completed)]
  }

  /** The list after `tasks.splice(i, 1)`. */
  function Removed(s: seq<Task>, i: nat): (r: seq<Task>)
    requires i < |s|
    ensures |r| == |s| - 1
  {
    s[..i] + s[i + 1..]
  }

  /** After the splice the task at `i` is gone and the others keep their
      relative order: the ones before `i` stay where they were and the ones
      after it move one place forward. */
  lemma RemovedShifts(s: seq<Task>, i: nat, k: nat)
    requires i < |s| && k < |s| - 1
    ensures Removed(s, i)[k] == (if k < i then s[k] else s[k + 1])
  {
  }

  /** Replacing the task at `i` changes every count by the difference
      between the new task's weight and the old one's. */
  lemma {:induction false} CountUpdate(s: seq<Task>, i: nat, t: Task, f: Filter)
    requires i < |s|
    ensures Count(s[i := t], f) == Count(s, f) - Weight(f, s[i]) + Weight(f, t)
  {
    if i > 0 {
      assert s[i := t][1..] == s[1..][i - 1 := t];
      CountUpdate(s[1..], i - 1, t, f);
    }
  }

  /** Appending a task adds its weight to every count. */
  lemma {:induction false} CountAppend(s: seq<Task>, t: Task, f: Filter)
    ensures Count(s + [t], f) == Count(s, f) + Weight(f, t)
  {
    if s != [] {
      assert (s + [t])[1..] == s[1..] + [t];
      CountAppend(s[1..], t, f);
    }
  }

  /** Splicing out the task at `i` subtracts its weight from every count. */
  lemma {:induction false} CountRemoved(s: seq<Task>, i: nat, f: Filter)
    requires i < |s|
    ensures Count(Removed(s, i), f) == Count(s, f) - Weight(f, s[i])
  {
    if i > 0 {
      assert Removed(s, i)[1..] == Removed(s[1..], i - 1);
      CountRemoved(s[1..], i - 1, f);
    } else {
      assert Removed(s, 0) == s[1..];
    }
  }

  /** Flipping the flag of the task at `i` moves the completed count by one
      in the direction of the new flag, and leaves every per-day count
      alone. */
  lemma ToggledCounts(s: seq<Task>, i: nat)
    requires i < |s|
    ensures Count(Toggled(s, i), Completed)
         == Count(s, Completed) + (if Toggled(s, i)[i].completed then 1 else -1)
    ensures forall day :: Count(Toggled(s, i), CreatedOn(day)) == Count(s, CreatedOn(day))
  {
    CountUpdate(s, i, Toggled(s, i)[i], Completed);
    forall day ensures Count(Toggled(s, i), CreatedOn(day)) == Count(s, CreatedOn(day)) {
      CountUpdate(s, i, Toggled(s, i)[i], CreatedOn(day));
    }
  }

  /** Toggling the same task twice gives back the original list. */
  lemma ToggledTwice(s: seq<Task>, i: nat)
    requires i < |s|
    ensures Toggled(Toggled(s, i), i) == s
  {
    assert Toggled(Toggled(s, i), i)[i] == s[i];
  }

  /** Changing the text of the task at `i` leaves every count alone. */
  lemma RetextedCounts(s: seq<Task>, i: nat, text: string, f: Filter)
    requires i < |s|
    ensures Count(s[i := s[i].(text := text)], f) == Count(s, f)
  {
    CountUpdate(s, i, s[i].(text := text), f);
  }
}
