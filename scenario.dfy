/** Clients of the store: what a caller can conclude from the contracts alone. */
module Scenario {
  import opened Tasks
  import opened Wrappers
  import opened Queries
  import opened Sorting
  import opened Codecs
  import opened TaskStore

  /** A store holding "alpha" (Low, Open) and then "beta" (High, Done). */
  method TwoTasks() returns (store: TaskManager, alpha: Task, beta: Task)
    ensures fresh(store)
    ensures store.tasks == [alpha, beta]
    ensures alpha == Task("alpha", "work", "01-01-2025", Low, Open)
    ensures beta == Task("beta", "home", "02-02-2025", High, Done)
  {
    store := new TaskManager();
    alpha := Task("alpha", "work", "01-01-2025", Low, Open);
    beta := Task("beta", "home", "02-02-2025", High, Done);
    store.AddTask(alpha);
    store.AddTask(beta);
  }

  /** Filtering by status Done yields exactly beta. */
  method FilterScenario()
  {
    var store, alpha, beta := TwoTasks();
    var done := store.FilterByStatus(Done);
    assert [alpha, beta][..1] == [alpha];
    assert done == [beta];
  }

  /** Sorting by title yields alpha then beta: with distinct titles the outcome is determined. */
  method SortScenario()
  {
    var store, alpha, beta := TwoTasks();
    store.SortByTitle();
    var sorted := [alpha, beta];
    assert SortedBy(sorted, ByTitle);
    assert StringOrder.Less(alpha.title, beta.title);
    StringOrder.LessAsymmetric(alpha.title, beta.title);
    assert forall x :: x in store.tasks ==> x in multiset(sorted);
    SortedPermutationUnique(store.tasks, sorted, ByTitle);
    assert store.tasks == [alpha, beta];
  }

  /** Finding, changing and removing a task by title. */
  method FindRemoveScenario()
  {
    var store, alpha, beta := TwoTasks();
    var found := store.FindTaskIndex("beta");
    assert found == Some(1);

    store.SetStatusAt(0, Done);
    assert store.tasks[0] == Task("alpha", "work", "01-01-2025", Low, Done);

    var before := store.tasks;
    store.RemoveTask("beta");
    IndexOfAfterRemove(before, "beta");
    found := store.FindTaskIndex("beta");
    assert found == None;
  }

  /** The priority parser accepts any letter case. */
  method PriorityParseScenario()
  {
    assert StrToPrio("HIGH") == Success(High);
  }

  /** The status parser accepts the second spelling of InProgress. */
  method StatusParseScenario()
  {
    assert StrToStat("In Progress") == Success(InProgress);
  }

  /** A word outside the vocabulary is rejected, with the input in the message. */
  method RejectScenario()
  {
    var r := StrToPrio("urgent");
    assert r.Failure? && r.error == "Invalid Priority: " + "urgent";
  }
}
