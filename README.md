# Task list page: a Dafny model

This project models the state logic of a single-page to-do list written as one
React component (`App` in `src/App.tsx`). The component holds two pieces of
state: `tasks`, an ordered list of `{id, text, isChecked}` records, and
`inputValue`, the draft text of the input box. Its handlers add the draft as a
new task, remove a task after a yes/no confirmation, and set a task's
completion flag. The list header shows a counter of checked tasks, computed by
folding over the list.

Layout:

- `tasks.dfy`, module `Tasks`: the `ITask` record as the datatype `Task<Id>`,
  the pure list operations and the lemmas about them. `CheckedCount` is the
  `reduce` fold (stepped by `FoldChecked`); `CheckedCountIsCheckedTasks` proves it
  equal to the length of the reference filter `CheckedTasks`. `RemoveById` is
  the `filter`. `FirstIndex` (recursive) and `FindIndex` (a scanning loop) are
  `findIndex`. `Toggle` is the specification of setting a task's flag.
- `app.dfy`, module `AppComponent`: the class `App`, whose fields are the
  component state. Its methods are the handlers; each one is an atomic
  transition that keeps the invariant `Valid()` (task ids are unique and every
  task's text is non-empty). The
  method `Session` replays the page's typical session (add, check, declined
  removal, accepted removal) using only the handlers' contracts.

The identifier type is the type parameter `Id`. The model only compares
identifiers for equality. The record declares `id: number`, but the page stores
the string from a UUID generator, so no concrete type is modelled. The
generator is modelled as the argument `freshId` of `HandleAddTask`, which must
not already be in use. The blocking confirmation dialog is modelled as the
argument `confirmed` of `HandleRemoveTask`.

## Model

| member | source | states |
|---|---|---|
| `Tasks.FoldChecked` | src/App.tsx:21-27 | each step of the fold adds at most one per task: the result lies between the running total and the running total plus the list length |
| `Tasks.CheckedCount` | src/App.tsx:21-27 | the checked-task counter, folded from 0, never exceeds the number of tasks |
| `Tasks.CheckedTasks` | src/App.tsx:21-27 | reference definition, given by its body: the checked tasks in list order; its ensures state that it is no longer than the list, holds only checked tasks of the list and every checked task of the list |
| `Tasks.FoldCheckedFrom` | src/App.tsx:21-27 | the fold started at any total `acc` ends at `acc` plus the number of checked tasks |
| `Tasks.CheckedCountIsCheckedTasks` | src/App.tsx:21-27 | the counter equals the number of tasks whose flag is set |
| `Tasks.CheckedTasksConcat` | src/App.tsx:21-27 | selecting checked tasks distributes over list concatenation |
| `Tasks.CheckedCountConcat` | src/App.tsx:21-27 | the counter of a concatenation is the sum of the counters |
| `Tasks.CheckedCountSplit` | src/App.tsx:21-27 | the counter of a list split around one task is the two parts' counters plus one if that task is checked |
| `Tasks.CheckedCountAt` | src/App.tsx:21-27 | the counter of a list is the counter before index k, plus one if the task at k is checked, plus the counter after k |
| `Tasks.CheckedCountZero` | src/App.tsx:21-27 | the counter is 0 if and only if no task is checked |
| `Tasks.CheckedCountAll` | src/App.tsx:21-27 | the counter equals the list length if and only if every task is checked |
| `Tasks.RemoveById` | src/App.tsx:50 | the filter result is no longer than the list, contains no task with the id, and is the list itself when the id is absent |
| `Tasks.RemoveByIdMembers` | src/App.tsx:50 | the filter result holds only tasks of the list with a different id, and every such task of the list |
| `Tasks.RemoveByIdConcat` | src/App.tsx:50 | the filter preserves relative order: it distributes over concatenation |
| `Tasks.RemoveByIdUnique` | src/App.tsx:49-57 | with unique ids, removing the id of the task at index k yields the list with exactly that element cut out, the rest in order |
| `Tasks.RemoveByIdKeepsUnique` | src/App.tsx:50 | filtering a list with unique ids leaves ids unique |
| `Tasks.CheckedCountRemove` | src/App.tsx:49-57 | with unique ids, removing a present task lowers the counter by one exactly when that task was checked |
| `Tasks.FirstIndex` | src/App.tsx:71 | the result is -1 if and only if no task has the id; otherwise it indexes a task with the id and no earlier task has it |
| `Tasks.FindIndex` | src/App.tsx:71 | the front-to-back scan returns the first index of a task with the id, or -1 when there is none |
| `Tasks.Toggle` | src/App.tsx:66-78 | same length; every id and text kept at its index; when the id is present the first task with it has flag `value`; every other index is unchanged; an absent id leaves the list as it is |
| `Tasks.ToggleSplice` | src/App.tsx:68-74 | for a present id, the result is the list with exactly the element at the first index replaced by its flag-updated copy |
| `Tasks.ToggleKeepsIds` | src/App.tsx:66-78 | setting a flag keeps every id at its index, keeps ids unique and keeps the first index of the id |
| `Tasks.ToggleRoundTrip` | src/App.tsx:66-78 | for a present id, setting the flag to any value and then back to the task's original flag restores the list |
| `Tasks.ToggleIdempotent` | src/App.tsx:66-78 | setting the same flag twice equals setting it once |
| `Tasks.CheckedCountToggle` | src/App.tsx:66-78 | for a present id, the counter changes by the new flag minus the old flag of that task |
| `AppComponent.App.constructor` | src/App.tsx:18-19 | initial state: no tasks, empty draft, invariant (unique ids, non-empty texts) holds |
| `AppComponent.App.CheckedTasksCounter` | src/App.tsx:21-27 | the header counter equals the number of checked tasks, is at most the task count, is 0 iff nothing is checked and equals the task count iff everything is |
| `AppComponent.App.IsInputEmpty` | src/App.tsx:80 | true exactly when the draft is the empty string, the case in which `HandleAddTask` changes nothing |
| `AppComponent.App.SetInputValue` | src/App.tsx:89 | replaces the draft; the task list is unchanged and the invariant kept |
| `AppComponent.App.HandleAddTask` | src/App.tsx:29-42 | empty draft: tasks and draft unchanged; otherwise the list grows by one, earlier tasks unchanged and in order, the new last task has the draft as text, the fresh id and is unchecked, the draft is cleared; ids stay unique and every text non-empty; the counter is unchanged |
| `AppComponent.App.HandleRemoveTask` | src/App.tsx:49-57 | declined: tasks identical; confirmed: tasks become the filter result (see `RemoveById`, `RemoveByIdUnique`); draft unchanged; ids stay unique and every text non-empty |
| `AppComponent.App.HandleToggleTask` | src/App.tsx:66-78 | copy, `findIndex`, single-element update: the new list is `Toggle` of the old one; draft unchanged; ids stay unique and every text non-empty |

## Left out

- Rendering (JSX, CSS modules, the `Header`, `Input`, `ListHeader` and `Item` components, icons, src/App.tsx:82-125): presentation only; those components are not part of this model.
- The confirmation dialog `confirm(...)` (src/App.tsx:52): a blocking browser call, modelled as the boolean argument `confirmed`.
- The UUID generator `uuidv4()` (src/App.tsx:35): randomness from a library, modelled as the caller-supplied `freshId`; its uniqueness is a precondition of `HandleAddTask` when the draft is non-empty.
- React's `useState` setters and their scheduling, including the functional updater at src/App.tsx:40: each handler is modelled as one atomic transition of the state.
- Object sharing between the copied array and the previous state in `handleToggleTask` (src/App.tsx:68, 74): the source mutates the shared task object; the model builds a new list value, so only the resulting list is captured.
- AppComponent.App.HandleToggleTask (and its specification Tasks.Toggle): on an id that no task has, the source's `findIndex` yields -1 and the write through `updatedTasks[-1]` throws a TypeError; the model makes this case a no-op instead of reproducing the fault. The page only passes ids of rendered tasks, so the case does not arise from the UI.
- The declared type `id: number` of the record (src/App.tsx:12) against the string actually stored: identifiers are an abstract type compared only for equality.
