# Recent tasks: task-list state with soft delete and undo

This project models the state logic of the `RecentTasks` component of a
family task manager (`components/recent-tasks.tsx`). The component holds an
ordered list of household task records, seeded with five records whose ids
are "1" to "5". A user can:

- toggle a task's status between "completed" and "pending";
- delete a task, which removes it from the list at once;
- click Undo in the toast that follows, which puts the removed record back at
  the index it had;
- let a five-second timer fire, after which the deletion counts as permanent
  unless Undo was clicked.

Two files, one module each:

- `task_list.dfy`, module `TaskList`: the `Task` record and the seed data.
  It also holds the pure list operations the handlers perform, as functions on
  sequences: the status flip (`map`), the search (`findIndex`), the removal
  (`filter`) and the reinsertion (`splice`). The lemmas about them live here
  too.
- `recent_tasks.dfy`, module `TaskStore`: the mutable state.
  - Class `RecentTasks` holds `taskList`. Its methods are the four handlers:
    toggle, delete, undo and finalize (the timer callback, as an explicit
    step).
  - Class `Deletion` is what one call of `deleteTask` captures in its
    closures: the index, the snapshot and the `undo` flag. Every call gets its
    own object, just as every call of `deleteTask` gets its own closure. So
    several deletions can be pending at once, each with its own flag.

Behaviour of the code that the model keeps as written:

- Deleting an id that is not in the list returns silently and changes
  nothing. It is not a "not found" error.
- Undo has no guard. The handler dismisses its toast
  (components/recent-tasks.tsx:102), so a second click can only land before
  the toast closes. Such a click inserts the snapshot a second time. A click
  after the timer has fired still restores the record. There are no
  "expired" or "already consumed" errors. `SecondUndoDuplicates` shows what a
  second click does: the id then occurs twice.
- `filter` removes every record with the id, while Undo puts back only one.
  So delete followed by undo gives back the original list exactly when the id
  occurred once (`UndoRestoresIff`). That holds while ids stay unique, which
  toggle and delete preserve (`ToggleKeepsUnique`, `RemoveKeepsUnique`), and
  so does an undo that follows a delete of a unique id (`SpliceKeepsUnique`).
  A second undo breaks it. The seed ids are unique.

## Model

| member | source | states |
|---|---|---|
| `TaskList.SeedTasks` | components/recent-tasks.tsx:32-73 | the five seed records, field for field; their ids are "1" to "5" in order, all distinct |
| `TaskList.NextStatus` | components/recent-tasks.tsx:124 | the toggled status is always "completed" or "pending" |
| `TaskList.NextStatusInvolution` | components/recent-tasks.tsx:124 | flipping "completed" or "pending" twice gives it back |
| `TaskList.ToggleStatus` | components/recent-tasks.tsx:119-128 | same length; a record with the id gets the flipped status and keeps every other field; every record with another id is unchanged |
| `TaskList.ToggleTwice` | components/recent-tasks.tsx:119-128 | toggling one id twice restores the list when every status is "completed" or "pending" |
| `TaskList.ToggleAbsent` | components/recent-tasks.tsx:120-127 | toggling an id that no record has leaves the list unchanged |
| `TaskList.FindIndex` | components/recent-tasks.tsx:82 | -1 exactly when no record has the id; otherwise the first position whose record has the id |
| `TaskList.RemoveTask` | components/recent-tasks.tsx:86 | no record with the id is left; the length drops by the number of records that had it |
| `TaskList.RemoveKeeps` | components/recent-tasks.tsx:86 | a record survives removal exactly when it was in the list and has another id |
| `TaskList.RemoveConcat` | components/recent-tasks.tsx:86 | removal distributes over concatenation, so the kept records stay in their original order |
| `TaskList.RemoveAbsent` | components/recent-tasks.tsx:82-86 | removing an id that no record has leaves the list unchanged |
| `TaskList.RemoveAtIndex` | components/recent-tasks.tsx:82-86 | when one record has the id, removal cuts out exactly the position findIndex reports |
| `TaskList.SpliceIndex` | components/recent-tasks.tsx:99 | the insertion point is the remembered index, clamped to the current length |
| `TaskList.Splice` | components/recent-tasks.tsx:97-100 | the length grows by one; the snapshot sits at the clamped index; taking it out again gives the current list back, so every record keeps its relative order |
| `TaskList.SpliceOccurrences` | components/recent-tasks.tsx:97-100 | reinsertion adds exactly one record with the snapshot's id |
| `TaskList.UndoRestoresIff` | components/recent-tasks.tsx:82-101 | undo right after delete gives back the original list if and only if exactly one record had the id |
| `TaskList.DeleteUndoRoundTrip` | components/recent-tasks.tsx:82-101 | with unique ids, delete followed by undo gives back the original list |
| `TaskList.UndoSecondOfTwo` | components/recent-tasks.tsx:79-101 | delete a, delete b, undo b only: b is back at its index in the list it was deleted from, and a stays absent |
| `TaskList.ToggleKeepsUnique` | components/recent-tasks.tsx:119-128 | toggling keeps unique ids unique |
| `TaskList.RemoveKeepsUnique` | components/recent-tasks.tsx:86 | removal keeps unique ids unique |
| `TaskList.SpliceKeepsUnique` | components/recent-tasks.tsx:97-100 | reinserting a record whose id is absent keeps unique ids unique |
| `TaskList.SecondUndoDuplicates` | components/recent-tasks.tsx:95-101 | a second undo of one deletion inserts the snapshot again, so its id occurs twice more and ids are no longer unique |
| `TaskList.SeedDeleteUndo` | components/recent-tasks.tsx:32-73 | the seed ids are unique; deleting "2" removes index 1 and leaves records 1, 3, 4, 5 in order; undo restores the seed list |
| `TaskStore.RecentTasks.constructor` | components/recent-tasks.tsx:76 | the component starts with the seed records |
| `TaskStore.Deletion.constructor` | components/recent-tasks.tsx:80-83 | a deletion starts with its undo flag false and holds the index and snapshot it was given |
| `TaskStore.RecentTasks.ToggleTaskStatus` | components/recent-tasks.tsx:118-129 | the new list is the toggled old list |
| `TaskStore.RecentTasks.DeleteTask` | components/recent-tasks.tsx:79-87 | no deletion and no change exactly when the id is absent; otherwise a fresh deletion with its flag unset, the first matching index and that record as snapshot, and the list with that id filtered out |
| `TaskStore.RecentTasks.Undo` | components/recent-tasks.tsx:95-104 | the flag is set and the snapshot is spliced into the current list at the remembered index |
| `TaskStore.RecentTasks.Finalize` | components/recent-tasks.tsx:111-115 | changes nothing; reports a permanent deletion exactly when undo was not invoked |
| `TaskStore.SeedDeleteThenUndo` | components/recent-tasks.tsx:95-115 | on the seed list, delete "2" then undo gives the seed list back, and finalize reports no permanent deletion |
| `TaskStore.SeedDeleteThenExpire` | components/recent-tasks.tsx:79-115 | on the seed list, delete "2" without undo leaves records 1, 3, 4, 5 in order, and finalize reports a permanent deletion |

## Left out

- Rendering (lines 131-219 of components/recent-tasks.tsx) is left out: the table, badges, checkbox, dropdown menu and icons. It is presentation only.
- Date formatting with `toLocaleDateString` (line 158) is left out. It depends on the host's locale; `dueDate` is kept as the string the seed data holds.
- The confirmation dialog (`showDialog`, lines 192-198) is left out. The toast and its `dismiss` (lines 88-109) are left out too. They are UI services; what matters is that they end in a call to delete or undo, and those calls are modelled.
- The 5000 ms timer is left out. The timer callback is the explicit `Finalize` step, and wall-clock time is not modelled.
- `console.log` output (lines 103, 113) is left out. `Finalize` returns instead the boolean that decides whether the log line is printed.
- React state scheduling and stale closures are left out. The handlers read `taskList` from the render closure; each modelled method acts on the current list.
- The spread copy `[...prev]` followed by an in-place `splice` (lines 98-99) is modelled as a sequence value. The copy is fresh and never shared, so no aliasing is lost.
- `taskList[taskIndex]` is read at line 83 before the `-1` check. In the code, that read yields `undefined` for an absent id and is never used. `DeleteTask` reads the snapshot only after the check.
