/** The task record and its two enumerations (taskmanager.cpp, `Priority`, `Status`, `Task`). */
module Tasks {

  /** Urgency; declaration order gives Low < Medium < High. */
  datatype Priority = Low | Medium | High

  /** Workflow state; only equality matters. */
  datatype Status = Open | InProgress | Done

  /** The integer a priority casts to (`static_cast<int>`): its position in the declaration. */
  function Ordinal(p: Priority): (n: nat)
    ensures n < 3
    ensures n == 0 <==> p == Low
    ensures n == 2 <==> p == High
  {
    match p
    case Low => 0
    case Medium => 1
    case High => 2
  }

  /**
   * A task is a value: the store keeps copies of it, and the filters return copies.
   * The C++ getters are the datatype's field selectors.
   */
  datatype Task = Task(title: string, category: string, dueDate: string, priority: Priority, status: Status)
  {
    /** `setPriority`: the same task with a new priority and every other field kept. */
    function SetPriority(prio: Priority): (r: Task)
      ensures r.priority == prio
      ensures r.title == title && r.category == category && r.dueDate == dueDate && r.status == status
    {
      this.(priority := prio)
    }

    /** `setStatus`: the same task with a new status and every other field kept. */
    function SetStatus(stat: Status): (r: Task)
      ensures r.status == stat
      ensures r.title == title && r.category == category && r.dueDate == dueDate && r.priority == priority
    {
      this.(status := stat)
    }
  }

  /** Setting a field to the value it already has changes nothing (a worked consequence of the setters' contracts). */
  lemma SetUnchangedIsIdentity(t: Task)
    ensures t.SetPriority(t.priority) == t
    ensures t.SetStatus(t.status) == t
  {
  }

  /**
   * The two setters touch different fields, so their order does not matter, and the last write wins
   * (a worked consequence of the setters' contracts).
   */
  lemma SettersCommute(t: Task, p: Priority, q: Priority, s: Status)
    ensures t.SetPriority(p).SetStatus(s) == t.SetStatus(s).SetPriority(p)
    ensures t.SetPriority(q).SetPriority(p) == t.SetPriority(p)
  {
  }
}
