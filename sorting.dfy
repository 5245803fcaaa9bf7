/** The two orders the store sorts by, and an in-place sort of a task array under either. */
module Sorting {
  import opened Tasks
  import StringOrder

  /** Which comparator `std::sort` receives: `sortByTitle`'s or `sortByPriority`'s. */
  datatype SortKey = ByTitle | ByPriority

  /** The comparator itself: a strict "x goes before y". */
  predicate Before(k: SortKey, x: Task, y: Task)
    ensures k == ByTitle && x.title == y.title ==> !Before(k, x, y)
    ensures k == ByPriority && x.priority == y.priority ==> !Before(k, x, y)
    ensures k == ByPriority && x.priority == Low && y.priority != Low ==> Before(k, x, y)
    ensures k == ByPriority && x.priority != High && y.priority == High ==> Before(k, x, y)
  {
    match k
    case ByTitle => StringOrder.Less(x.title, y.title)
    case ByPriority => Ordinal(x.priority) < Ordinal(y.priority)
  }

  /** No task goes strictly before its left neighbour: what `std::sort` leaves behind. */
  predicate SortedBy(s: seq<Task>, k: SortKey)
  {
    forall i :: 0 < i < |s| ==> !Before(k, s[i], s[i - 1])
  }

  lemma BeforeAsymmetric(k: SortKey, x: Task, y: Task)
    requires Before(k, x, y)
    ensures !Before(k, y, x)
  {
    if k == ByTitle {
      StringOrder.LessAsymmetric(x.title, y.title);
    }
  }

  lemma BeforeIrreflexive(k: SortKey, x: Task)
    ensures !Before(k, x, x)
  {
    if k == ByTitle {
      StringOrder.LessIrreflexive(x.title);
    }
  }

  /** "Not before" is transitive, which is what makes adjacent order imply order of all pairs. */
  lemma NotBeforeTransitive(k: SortKey, x: Task, y: Task, z: Task)
    requires !Before(k, y, x) && !Before(k, z, y)
    ensures !Before(k, z, x)
  {
    if k == ByTitle {
      StringOrder.NotLessIsLessOrEqual(x.title, y.title);
      StringOrder.NotLessIsLessOrEqual(y.title, z.title);
      StringOrder.LessOrEqualTransitive(x.title, y.title, z.title);
      StringOrder.NotLessIsLessOrEqual(x.title, z.title);
    }
  }

  /** Sorted by title means adjacent titles are non-decreasing in lexicographic order. */
  lemma SortedByTitleIsNonDecreasing(s: seq<Task>)
    ensures SortedBy(s, ByTitle) <==>
      forall i :: 0 < i < |s| ==> StringOrder.LessOrEqual(s[i - 1].title, s[i].title)
  {
    forall i | 0 < i < |s|
      ensures !Before(ByTitle, s[i], s[i - 1]) <==> StringOrder.LessOrEqual(s[i - 1].title, s[i].title)
    {
      StringOrder.NotLessIsLessOrEqual(s[i - 1].title, s[i].title);
    }
  }

  /** In a sorted sequence no later task goes before an earlier one. */
  lemma {:induction false} SortedAllPairs(s: seq<Task>, k: SortKey)
    requires SortedBy(s, k)
    ensures forall i, j :: 0 <= i < j < |s| ==> !Before(k, s[j], s[i])
  {
    if |s| > 1 {
      var front := s[..|s| - 1];
      assert SortedBy(front, k);
      SortedAllPairs(front, k);
      forall i | 0 <= i < |s| - 1
        ensures !Before(k, s[|s| - 1], s[i])
      {
        var j := |s| - 2;
        if i < j {
          assert !Before(k, front[j], front[i]);
          NotBeforeTransitive(k, s[i], s[j], s[|s| - 1]);
        }
      }
    }
  }

  /** The first task of a sorted sequence goes before none of the others. */
  lemma SortedHeadIsLeast(s: seq<Task>, k: SortKey, x: Task)
    requires SortedBy(s, k) && x in s
    ensures !Before(k, x, s[0])
  {
    var i :| 0 <= i < |s| && s[i] == x;
    if i == 0 {
      BeforeIrreflexive(k, x);
    } else {
      SortedAllPairs(s, k);
      assert !Before(k, s[i], s[0]);
    }
  }

  /** No two different tasks of `m` tie under `k`. */
  predicate NoTies(m: multiset<Task>, k: SortKey)
  {
    forall x, y :: x in m && y in m && !Before(k, x, y) && !Before(k, y, x) ==> x == y
  }

  /** Dropping the first task keeps a sequence sorted. */
  lemma SortedTail(s: seq<Task>, k: SortKey)
    requires SortedBy(s, k) && s != []
    ensures SortedBy(s[1..], k)
  {
    var t := s[1..];
    forall i | 0 < i < |t|
      ensures !Before(k, t[i], t[i - 1])
    {
      assert t[i] == s[i + 1] && t[i - 1] == s[i];
    }
  }

  /** Equal multisets with equal first elements have equal multisets of tails. */
  lemma MultisetTail(r: seq<Task>, q: seq<Task>)
    requires r != [] && q != [] && r[0] == q[0] && multiset(r) == multiset(q)
    ensures multiset(r[1..]) == multiset(q[1..])
  {
    assert r == [r[0]] + r[1..] && q == [q[0]] + q[1..];
    assert multiset(r[1..]) == multiset(r) - multiset{r[0]};
    assert multiset(q[1..]) == multiset(q) - multiset{q[0]};
  }

  /** Two sorted arrangements of the same tasks agree when no two different tasks tie. */
  lemma {:induction false} SortedPermutationUnique(r: seq<Task>, q: seq<Task>, k: SortKey)
    requires SortedBy(r, k) && SortedBy(q, k)
    requires multiset(r) == multiset(q)
    requires NoTies(multiset(r), k)
    ensures r == q
  {
    if r != [] {
      assert r[0] in multiset(q);
      assert q[0] in multiset(r);
      SortedHeadIsLeast(q, k, r[0]);
      SortedHeadIsLeast(r, k, q[0]);
      assert r[0] == q[0];
      SortedTail(r, k);
      SortedTail(q, k);
      MultisetTail(r, q);
      assert r == [r[0]] + r[1..];
      assert multiset(r[1..]) <= multiset(r);
      SortedPermutationUnique(r[1..], q[1..], k);
      assert q == [q[0]] + q[1..];
    }
  }

  /** Exchanges two elements. */
  method Swap(a: array<Task>, i: nat, j: nat)
    requires i < a.Length && j < a.Length
    modifies a
    ensures a[..] == old(a[..])[i := old(a[j])][j := old(a[i])]
    ensures multiset(a[..]) == multiset(old(a[..]))
  {
    a[i], a[j] := a[j], a[i];
  }

  /** Insertion sort under `k`: sorted afterwards, and a permutation of what was there. */
  method InsertionSort(a: array<Task>, k: SortKey)
    modifies a
    ensures SortedBy(a[..], k)
    ensures multiset(a[..]) == multiset(old(a[..]))
  {
    var i := 0;
    while i < a.Length
      invariant 0 <= i <= a.Length
      invariant forall m :: 0 < m < i ==> !Before(k, a[m], a[m - 1])
      invariant multiset(a[..]) == multiset(old(a[..]))
    {
      var j := i;
      while j > 0 && Before(k, a[j], a[j - 1])
        invariant 0 <= j <= i
        invariant forall m :: 0 < m <= i && m != j ==> !Before(k, a[m], a[m - 1])
        invariant 0 < j < i ==> !Before(k, a[j + 1], a[j - 1])
        invariant multiset(a[..]) == multiset(old(a[..]))
      {
        BeforeAsymmetric(k, a[j], a[j - 1]);
        Swap(a, j - 1, j);
        j := j - 1;
      }
      i := i + 1;
    }
  }
}
