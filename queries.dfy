/** What the store's lookups and filters compute, as functions on the task sequence. */
module Queries {
  import opened Tasks
  import opened Wrappers

  /** The tests the store applies to one task: the three filters, and the one `removeTask` keeps. */
  datatype Criterion =
    | CategoryIs(cat: string)
    | PriorityIs(prio: Priority)
    | StatusIs(stat: Status)
    | TitleIsNot(title: string)

  predicate Matches(t: Task, c: Criterion)
  {
    match c
    case CategoryIs(cat) => t.category == cat
    case PriorityIs(prio) => t.priority == prio
    case StatusIs(stat) => t.status == stat
    case TitleIsNot(title) => t.title != title
  }

  /** `r` is `s` with some elements left out and the rest in their original order. */
  predicate IsSubsequence(r: seq<Task>, s: seq<Task>)
    decreases |s|
  {
    r == [] ||
    (s != [] &&
     ((r[|r| - 1] == s[|s| - 1] && IsSubsequence(r[..|r| - 1], s[..|s| - 1])) ||
      IsSubsequence(r, s[..|s| - 1])))
  }

  /** The tasks of `s` that satisfy `c`, scanning from the front. */
  function Select(s: seq<Task>, c: Criterion): (r: seq<Task>)
    ensures |r| <= |s|
  {
    if s == [] then []
    else
      var front, last := s[..|s| - 1], s[|s| - 1];
      if Matches(last, c) then Select(front, c) + [last] else Select(front, c)
  }

  /**
   * Selection keeps exactly the matching tasks: each kept task matches, each matching task is
   * kept, and each one as often as it occurs in `s`.
   */
  lemma {:induction false} SelectExactly(s: seq<Task>, c: Criterion)
    ensures forall t :: t in Select(s, c) ==> Matches(t, c)
    ensures forall i :: 0 <= i < |s| && Matches(s[i], c) ==> s[i] in Select(s, c)
    ensures forall t :: multiset(Select(s, c))[t] == if Matches(t, c) then multiset(s)[t] else 0
  {
    if s != [] {
      var front, last := s[..|s| - 1], s[|s| - 1];
      SelectExactly(front, c);
      assert s == front + [last];
      assert multiset(s) == multiset(front) + multiset{last};
      var r := Select(s, c);
      forall i | 0 <= i < |s| && Matches(s[i], c)
        ensures s[i] in r
      {
        if i < |s| - 1 {
          assert s[i] == front[i];
        }
      }
    }
  }

  /** The kept tasks stay in their original relative order. */
  lemma {:induction false} SelectIsSubsequence(s: seq<Task>, c: Criterion)
    ensures IsSubsequence(Select(s, c), s)
  {
    if s != [] {
      SelectIsSubsequence(s[..|s| - 1], c);
    }
  }

  /** When every task matches, selection returns the sequence itself: `removeTask` of an absent title is a no-op. */
  lemma {:induction false} SelectAllMatching(s: seq<Task>, c: Criterion)
    requires forall i :: 0 <= i < |s| ==> Matches(s[i], c)
    ensures Select(s, c) == s
  {
    if s != [] {
      var front, last := s[..|s| - 1], s[|s| - 1];
      assert forall i :: 0 <= i < |front| ==> front[i] == s[i];
      SelectAllMatching(front, c);
      assert Matches(last, c);
      assert Select(s, c) == Select(front, c) + [last];
      assert s == front + [last];
    }
  }

  /** Selection distributes over appending one task. */
  lemma SelectAppend(s: seq<Task>, t: Task, c: Criterion)
    ensures Select(s + [t], c) == if Matches(t, c) then Select(s, c) + [t] else Select(s, c)
  {
    assert (s + [t])[..|s|] == s;
  }

  /** The position of the first task titled `title`, if any task has that title. */
  function IndexOf(s: seq<Task>, title: string): (r: Option<nat>)
    ensures r.Some? ==> r.value < |s| && s[r.value].title == title
    ensures r.Some? ==> forall j :: 0 <= j < r.value ==> s[j].title != title
    ensures r.None? <==> forall j :: 0 <= j < |s| ==> s[j].title != title
  {
    if s == [] then None
    else if s[0].title == title then Some(0)
    else match IndexOf(s[1..], title)
      case None => None
      case Some(k) => Some(k + 1)
  }

  /** Adding a task makes it findable by its title, unless an earlier task already has that title. */
  lemma IndexOfAfterAppend(s: seq<Task>, t: Task)
    ensures IndexOf(s + [t], t.title) == if IndexOf(s, t.title).Some? then IndexOf(s, t.title) else Some(|s|)
  {
    var r := IndexOf(s + [t], t.title);
    if IndexOf(s, t.title).Some? {
      var k := IndexOf(s, t.title).value;
      assert (s + [t])[k] == s[k];
      assert r.value <= k;
      assert r.value == k;
    } else {
      assert (s + [t])[|s|].title == t.title;
      assert r.value == |s|;
    }
  }

  /** After removing a title no task has that title any more. */
  lemma IndexOfAfterRemove(s: seq<Task>, title: string)
    ensures IndexOf(Select(s, TitleIsNot(title)), title) == None
  {
    var r := Select(s, TitleIsNot(title));
    SelectExactly(s, TitleIsNot(title));
    forall j | 0 <= j < |r|
      ensures r[j].title != title
    {
      assert r[j] in r;
    }
  }
}
