/** The task store (taskmanager.cpp `class TaskManager`): an ordered vector of tasks changed in place. */
module TaskStore {
  import opened Tasks
  import opened Wrappers
  import opened Queries
  import opened Sorting

  /**
   * `std::remove_if` followed by `erase` on a vector held in an array: moves the tasks that
   * satisfy `keep` to the front, in order, and returns how many there are.
   */
  method Compact(a: array<Task>, keep: Criterion) returns (w: nat)
    modifies a
    ensures w <= a.Length
    ensures a[..w] == Select(old(a[..]), keep)
  {
    ghost var s := a[..];
    w := 0;
    for i := 0 to a.Length
      invariant w <= i
      invariant a[..w] == Select(s[..i], keep)
      invariant forall m :: i <= m < a.Length ==> a[m] == s[m]
    {
      assert s[..i + 1] == s[..i] + [s[i]];
      SelectAppend(s[..i], s[i], keep);
      if Matches(a[i], keep) {
        a[w] := a[i];
        w := w + 1;
      }
    }
    assert s[..a.Length] == s;
  }

  class TaskManager {
    /** The owned vector of tasks, in insertion order until a sort reorders it. */
    var tasks: seq<Task>

    /** A new store is empty. */
    constructor ()
      ensures tasks == []
    {
      tasks := [];
    }

    /** `addTask`: appends a copy of the task at the end. */
    method AddTask(task: Task)
      modifies this
      ensures tasks == old(tasks) + [task]
    {
      tasks := tasks + [task];
    }

    /** `removeTask`: drops every task with exactly this title and keeps the rest in order. */
    method RemoveTask(title: string)
      modifies this
      ensures tasks == Select(old(tasks), TitleIsNot(title))
    {
      var s := tasks;
      var a := new Task[|s|](i requires 0 <= i < |s| => s[i]);
      assert a[..] == s;
      var w := Compact(a, TitleIsNot(title));
      tasks := a[..w];
    }

    /** `findTaskIndex`: the index of the first task with this title, or none. */
    method FindTaskIndex(title: string) returns (r: Option<nat>)
      ensures r == IndexOf(tasks, title)
    {
      var i := 0;
      while i < |tasks|
        invariant i <= |tasks|
        invariant forall j :: 0 <= j < i ==> tasks[j].title != title
      {
        if tasks[i].title == title {
          return Some(i);
        }
        i := i + 1;
      }
      return None;
    }

    /** The range loop the three filters share: copies of the matching tasks, in store order. */
    method Collect(c: Criterion) returns (r: seq<Task>)
      ensures r == Select(tasks, c)
    {
      var s := tasks;
      r := [];
      for i := 0 to |s|
        invariant r == Select(s[..i], c)
      {
        assert s[..i + 1] == s[..i] + [s[i]];
        SelectAppend(s[..i], s[i], c);
        if Matches(s[i], c) {
          r := r + [s[i]];
        }
      }
      assert s[..|s|] == s;
    }

    /** `filterByCategory`. */
    method FilterByCategory(cat: string) returns (r: seq<Task>)
      ensures r == Select(tasks, CategoryIs(cat))
    {
      r := Collect(CategoryIs(cat));
    }

    /** `filterByPriority`. */
    method FilterByPriority(prio: Priority) returns (r: seq<Task>)
      ensures r == Select(tasks, PriorityIs(prio))
    {
      r := Collect(PriorityIs(prio));
    }

    /** `filterByStatus`. */
    method FilterByStatus(stat: Status) returns (r: seq<Task>)
      ensures r == Select(tasks, StatusIs(stat))
    {
      r := Collect(StatusIs(stat));
    }

    /** Sorts the vector in place under `k`. */
    method SortBy(k: SortKey)
      modifies this
      ensures SortedBy(tasks, k)
      ensures multiset(tasks) == multiset(old(tasks))
    {
      var s := tasks;
      var a := new Task[|s|](i requires 0 <= i < |s| => s[i]);
      assert a[..] == s;
      InsertionSort(a, k);
      tasks := a[..];
    }

    /** `sortByTitle`: adjacent titles are non-decreasing, and the tasks are the same ones. */
    method SortByTitle()
      modifies this
      ensures SortedBy(tasks, ByTitle)
      ensures multiset(tasks) == multiset(old(tasks))
    {
      SortBy(ByTitle);
    }

    /** `sortByPriority`: adjacent priority ordinals are non-decreasing; ties end up in no promised order. */
    method SortByPriority()
      modifies this
      ensures SortedBy(tasks, ByPriority)
      ensures multiset(tasks) == multiset(old(tasks))
    {
      SortBy(ByPriority);
    }

    /** `getTasks()[i].setPriority(prio)`: changes the priority of the task at `i` and nothing else. */
    method SetPriorityAt(i: nat, prio: Priority)
      requires i < |tasks|
      modifies this
      ensures tasks == old(tasks)[i := old(tasks)[i].SetPriority(prio)]
    {
      tasks := tasks[i := tasks[i].SetPriority(prio)];
    }

    /** `getTasks()[i].setStatus(stat)`: changes the status of the task at `i` and nothing else. */
    method SetStatusAt(i: nat, stat: Status)
      requires i < |tasks|
      modifies this
      ensures tasks == old(tasks)[i := old(tasks)[i].SetStatus(stat)]
    {
      tasks := tasks[i := tasks[i].SetStatus(stat)];
    }
  }
}
