# Task manager core in Dafny

This project models the in-memory task collection engine of the `taskmanager` command-line program. A **task** has a title, a category, a due date, a priority (Low, Medium, High, ordered that way) and a status (Open, InProgress, Done). The **task store** (`TaskManager`) owns an ordered vector of tasks. Its operations are:

- append a task;
- remove every task with a given title;
- find the first task with a title;
- filter by category, priority or status;
- sort in place by title or by priority.

Four **codecs** convert the two enumerations to and from text.

Modules:

- `Wrappers`: `Option` (for `std::optional`) and `Result`. A `Failure` carries the message that the C++ `std::invalid_argument` would carry.
- `Tasks`: the `Priority` and `Status` enumerations, their integer ordinal, and the `Task` record with its two setters.
- `Codecs`: ASCII lower-casing, `StrToPrio`, `StrToStat`, `PrioToStr`, `StatToStr`, and the round-trip and case-insensitivity lemmas.
- `StringOrder`: the `<` of `std::string` (lexicographic, a proper prefix first), proved to be a strict total order.
- `Queries`: the specification functions of the store.
  - `Select` keeps the tasks that satisfy a criterion. It specifies the three filters and `removeTask`.
  - `IndexOf` gives the first index of a title. It specifies `findTaskIndex`.
- `Sorting`: the two comparators handed to `std::sort`, what "sorted" means for each, and an in-place insertion sort on an array of tasks.
- `TaskStore`: the class `TaskManager`, with a field `tasks: seq<Task>` that its methods change in place.
  - `removeTask` copies the vector into an array and compacts it the way `std::remove_if` followed by `erase` does.
  - The sorts copy the vector into an array and sort it in place.
  - The lookup and the filters are loops over the field, with invariants.
- `Scenario`: client methods that show what a caller can conclude from the contracts alone. One is the two-task walk-through: add alpha and beta, filter by Done, sort by title, find, change a status, remove.

Modelling choices:

- A `Task` is a datatype value. In C++, `Task` has value semantics: `addTask` stores a copy, and each filter returns a fresh vector of copies. So changing a filter's result cannot reach the store.
- The setters `setPriority`/`setStatus` become member functions that return the task with that one field replaced.
- `getTasks()` hands out a reference, and the program changes a stored task through it. The store models this with the methods `SetPriorityAt` and `SetStatusAt`.
- Strings are `seq<char>`. `::tolower` is ASCII lower-casing. String `<` compares characters by code point; for byte-sized characters this is the unsigned-char order that `std::char_traits<char>` uses.
- `size_t` indices are `nat`. The store has no size limit.

- The program has no due-date validation and no export. The due date is stored exactly as typed (taskmanager.cpp:287-299).
- Titles need not be unique. `addTask` accepts duplicates, and `findTaskIndex` returns the first match (taskmanager.cpp:66-73). The model keeps this.

## Model

| member | source | states |
|---|---|---|
| Tasks.Task.SetPriority | taskmanager.cpp:30 | The new priority is the given one; title, category, due date and status are unchanged |
| Tasks.Task.SetStatus | taskmanager.cpp:31 | The new status is the given one; title, category, due date and priority are unchanged |
| Tasks.SetUnchangedIsIdentity | taskmanager.cpp:30-31 | Setting a field to its current value leaves the task equal to itself |
| Tasks.SettersCommute | taskmanager.cpp:30-31 | The priority and status setters commute, and a second priority write overrides the first |
| Tasks.Ordinal | taskmanager.cpp:112 | Definition of `static_cast<int>` on a priority: an ordinal below 3, 0 exactly for Low and 2 exactly for High, following declaration order |
| Codecs.ToLower | taskmanager.cpp:118-119 | The lower-cased copy has the input's length and no ASCII capital; each character is either kept or is an ASCII capital moved to its lower-case letter |
| Codecs.ToLowerIdempotent | taskmanager.cpp:118-119 | Lower-casing an already lower-cased string changes nothing |
| Codecs.LowerChar | taskmanager.cpp:119 | Definition of `::tolower` on one ASCII character: the result is never a capital; it is the input, or an ASCII capital moved down by 32; lower-case letters are kept |
| Codecs.PrioToStr | taskmanager.cpp:148-159 | Total over the enum; the display form is non-empty and starts with a capital |
| Codecs.StatToStr | taskmanager.cpp:161-172 | Total over the enum; the display form is non-empty and starts with a capital |
| Codecs.StrToPrio | taskmanager.cpp:117-130 | A parsed priority's display name equals the input up to case; on failure no priority name matches and the error is "Invalid Priority: " followed by the input |
| Codecs.StrToStat | taskmanager.cpp:132-145 | A parsed status's display name equals the input up to case, or the input is "in progress" in any case and the status is InProgress; on failure no spelling matches and the error is "Invalid Status: " followed by the input |
| Codecs.PrioRoundTrip | taskmanager.cpp:117-159 | Parsing the display form of any priority gives that priority back |
| Codecs.StatRoundTrip | taskmanager.cpp:132-172 | Parsing the display form of any status gives that status back |
| Codecs.PrioAnyCase | taskmanager.cpp:117-130 | Any letter-case variant of a canonical priority name parses to that priority (the converse of StrToPrio's success clause) |
| Codecs.StatAnyCase | taskmanager.cpp:132-145 | Any letter-case variant of a canonical status name, or of "in progress", parses to that status |
| Codecs.PrioCaseInsensitive | taskmanager.cpp:117-130 | Parsing the input and parsing its lower-cased copy succeed together and give the same priority |
| Codecs.StatCaseInsensitive | taskmanager.cpp:132-145 | Parsing the input and parsing its lower-cased copy succeed together and give the same status |
| Codecs.PrioToStrInjective | taskmanager.cpp:148-159 | Different priorities have different display forms |
| Codecs.StatToStrInjective | taskmanager.cpp:161-172 | Different statuses have different display forms |
| StringOrder.Less | taskmanager.cpp:107 | Definition of `std::string` `<`: lexicographic by character; a proper prefix comes first, and no string comes before its own prefix |
| StringOrder.LessIrreflexive | taskmanager.cpp:107 | No title sorts before itself |
| StringOrder.LessAsymmetric | taskmanager.cpp:107 | If a is before b then b is not before a |
| StringOrder.LessTransitive | taskmanager.cpp:107 | String `<` is transitive |
| StringOrder.LessTrichotomous | taskmanager.cpp:107 | Of two different strings one is before the other |
| StringOrder.NotLessIsLessOrEqual | taskmanager.cpp:107 | "b is not before a" holds exactly when a equals b or a is before b |
| StringOrder.LessOrEqualTransitive | taskmanager.cpp:107 | Non-strict lexicographic order is transitive |
| Queries.Matches | taskmanager.cpp:59-103 | Definition of the tests the store applies: category, priority or status equality for the filters (:78, :88, :98), and title inequality for what `removeTask` keeps (:61) |
| Queries.Select | taskmanager.cpp:75-103 | The selection is no longer than the input |
| Queries.SelectExactly | taskmanager.cpp:75-103 | Every selected task matches the criterion, every matching task is selected, and each matching task occurs as often as in the input (non-matching tasks not at all) |
| Queries.SelectIsSubsequence | taskmanager.cpp:75-103 | The selection is a subsequence of the input: relative order is preserved |
| Queries.SelectAllMatching | taskmanager.cpp:59-64 | When every task matches (no task has the removed title), selection returns the input unchanged |
| Queries.SelectAppend | taskmanager.cpp:77-81 | Selecting from s plus t is selecting from s, then t if it matches (the step of each push_back loop) |
| Queries.IndexOf | taskmanager.cpp:66-73 | A returned index holds a task with the title and no earlier task has it; none is returned exactly when no task has the title |
| Queries.IndexOfAfterAppend | taskmanager.cpp:55-73 | After appending t, looking up t's title gives t's new position unless an earlier task already has that title |
| Queries.IndexOfAfterRemove | taskmanager.cpp:59-73 | After removing a title, looking it up finds nothing |
| Sorting.Before | taskmanager.cpp:105-113 | Definition of the two comparator lambdas: title `<` (:107) and priority ordinal `<` (:112); tasks with equal keys are never ordered, Low goes before any other priority, and High after any other |
| Sorting.BeforeIrreflexive | taskmanager.cpp:105-113 | Neither comparator puts a task before itself |
| Sorting.BeforeAsymmetric | taskmanager.cpp:105-113 | Both comparators are asymmetric |
| Sorting.NotBeforeTransitive | taskmanager.cpp:105-113 | "Not before" is transitive for both comparators |
| Sorting.SortedByTitleIsNonDecreasing | taskmanager.cpp:105-108 | Sorted by title holds exactly when adjacent titles are non-decreasing lexicographically |
| Sorting.SortedAllPairs | taskmanager.cpp:105-113 | In a sorted sequence no later task goes before any earlier one |
| Sorting.SortedHeadIsLeast | taskmanager.cpp:105-113 | No task of a sorted sequence goes before its first task |
| Sorting.SortedPermutationUnique | taskmanager.cpp:105-113 | Two sorted permutations of the same tasks are equal when no two different tasks tie; so only ties can make the result vary |
| Sorting.Swap | taskmanager.cpp:106 | Exchanges two elements; the array is a permutation of the old one |
| Sorting.InsertionSort | taskmanager.cpp:106 | Afterwards the array is sorted under the chosen comparator and is a permutation (same multiset) of the old contents |
| TaskStore.Compact | taskmanager.cpp:60-62 | The kept prefix (the new vector length) is exactly the old contents' selection under the criterion, in order |
| TaskStore.TaskManager.constructor | taskmanager.cpp:48-50 | A new store holds no tasks |
| TaskStore.TaskManager.AddTask | taskmanager.cpp:55-57 | The new task list is the old one with the task appended at the end |
| TaskStore.TaskManager.RemoveTask | taskmanager.cpp:59-64 | The new task list is exactly the old tasks whose title differs, in their original order |
| TaskStore.TaskManager.FindTaskIndex | taskmanager.cpp:66-73 | Returns IndexOf of the store: the first index with the title, or none when no task has it |
| TaskStore.TaskManager.Collect | taskmanager.cpp:75-103 | The returned copies are the store's selection under the criterion; the store is not modified |
| TaskStore.TaskManager.FilterByCategory | taskmanager.cpp:75-83 | Returns the store's tasks with this category, in order; the store is not modified |
| TaskStore.TaskManager.FilterByPriority | taskmanager.cpp:85-93 | Returns the store's tasks with this priority, in order; the store is not modified |
| TaskStore.TaskManager.FilterByStatus | taskmanager.cpp:95-103 | Returns the store's tasks with this status, in order; the store is not modified |
| TaskStore.TaskManager.SortBy | taskmanager.cpp:105-113 | The store is sorted under the comparator and holds the same multiset of tasks |
| TaskStore.TaskManager.SortByTitle | taskmanager.cpp:105-108 | No title is lexicographically smaller than its left neighbour's, and the tasks are a permutation of the old ones |
| TaskStore.TaskManager.SortByPriority | taskmanager.cpp:110-113 | Adjacent priority ordinals (Low 0, Medium 1, High 2) are non-decreasing, and the tasks are a permutation of the old ones; ties are in no promised order |
| TaskStore.TaskManager.SetPriorityAt | taskmanager.cpp:30 | Only the task at the index changes, and only in its priority (the setter applied through the reference `getTasks()` returns) |
| TaskStore.TaskManager.SetStatusAt | taskmanager.cpp:31 | Only the task at the index changes, and only in its status (the setter applied through the reference `getTasks()` returns) |

## Left out

- The interactive shell is not modelled. This covers `main`'s menu loop, `checkTaskInp`, `checkInp`, `printMany` and `Task::print` (taskmanager.cpp:33-45 and 177-410). They read stdin, re-prompt and write to the console, and add no behaviour to the store.
- The example tasks that `main` adds at startup are not modelled. They are part of the shell.
- Due-date validation and JSON export are not modelled, because the program has neither.
- Exceptions are modelled as `Result.Failure` carrying the message.
- The unreachable `throw`s at the end of `PrioToStr` and `StatToStr` do not appear: the enumerations are datatypes, so the matches are exhaustive.
- `removeTask`'s argument is a value. At taskmanager.cpp:311, `main` passes a reference to the title of a task inside the vector being compacted. `remove_if` overwrites that title as it moves later tasks forward, so later comparisons can use a different title. With the usual `remove_if` loop and titles [a, b, b], removing "a" this way leaves [b]. The C++ reference and iterator behaviour is not reproduced.
- The sort is insertion sort, not `std::sort`'s algorithm. Only the sortedness and permutation guarantees of `std::sort` are stated. The order of tied tasks is not, as neither sort promises stability.
- `::tolower` is modelled on ASCII letters only. Its locale-dependent handling of other bytes is not modelled.
- `getTasks()` handing out a mutable reference is modelled in two ways:
  - the store's `tasks` field can be read directly;
  - `SetPriorityAt` and `SetStatusAt` are the two in-place changes the program makes through that reference.
- Memory allocation failure and the `size_t` limit of the vector are not modelled. Indices and sizes are unbounded.
