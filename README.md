# To-do list state model

A Dafny model of the task logic of a single-page React to-do list
(`src/App.tsx`). The component keeps a list of tasks. Each task has an id,
a text, a done flag, a creation time and an important flag. The component
also keeps the new-task draft, the active filter tab, the id of the task
being edited, and the edit draft. Event handlers rewrite this state:
add, toggle done, toggle important, delete, start edit, save edit and
clear completed. On every render the component derives the filtered list,
the sorted list it shows and the summary counts.

The model is split into modules:

- `Text` (`text.dfy`): JavaScript's `String.prototype.trim` and the blank
  test `!s.trim()` that both handlers with a draft use. The handlers test
  `IsBlank`, which says that every character is trimmable. `TrimsToEmpty`
  computes `Trim(s) == []` and proves it equal to `IsBlank`.
- `Tasks` (`tasks.dfy`): the `Task` record and the list operations the
  handlers are built from:
  - the per-id `map` rewrite (`UpdateWhere` with a `Change`);
  - `filter` (`Select`, `WithoutId`);
  - `find` (`Find`, `FindIndex`);
  - the list invariants "ids distinct" and "texts non-blank", with lemmas
    on which operations keep them.
- `Views` (`views.dfy`): the values derived on render:
  - `filteredTasks`;
  - the comparator and `sortedTasks`;
  - `completedTasks`, `importantTasks` and `completionPercentage`.
- `Store` (`store.dfy`): the component state as a class `TaskStore`. Its
  fields are the five state variables, and its methods are the handlers and
  the input setters. Each method states the whole new state and the notice
  (toast) the handler shows.
- `Session` (`session.dfy`), a usage example on a fresh store:
  - two additions, then a toggle;
  - a draft typed with surrounding spaces.

The model follows the code where a cleaner design would differ:

- The draft is checked with `trim` but stored as typed, with its spaces.
- `deleteTask` leaves `editingId` pointing at a task that no longer exists.
- A blank `saveEdit` keeps edit mode on.
- `Date.now()` ids are not guaranteed unique. Every per-id operation is
  therefore modelled on lists that may repeat ids. The lemmas that need
  unique ids take `DistinctIds` as a precondition.

## Model

| member | source | states |
|---|---|---|
| Text.Trim | src/App.tsx:73 | `trim` returns the contiguous slice of the string left after removing whitespace and line terminators from both ends; the slice starts and ends with a non-whitespace character when non-empty |
| Text.TrimsToEmpty | src/App.tsx:73 | the guard `!s.trim()` (also at line 123) holds exactly when every character is whitespace or a line terminator, i.e. for the strings `IsBlank` accepts |
| Text.TrimIdempotent | src/App.tsx:73 | trimming an already trimmed string changes nothing |
| Tasks.Apply | src/App.tsx:91 | the spread update replaces only the field the change names; `id` and `createdAt` are always kept |
| Tasks.UpdateWhere | src/App.tsx:90-92 | the `map` returns a list of the same length |
| Tasks.UpdateWhereSpec | src/App.tsx:90-92 | position by position, every task with the id is rewritten by the change and every other task is kept unchanged |
| Tasks.UpdateAbsent | src/App.tsx:103-105 | toggling or editing an id no task has leaves the list identical |
| Tasks.FlipTwice | src/App.tsx:103-105 | toggling the same flag twice restores the list |
| Tasks.RetextTwice | src/App.tsx:127-129 | saving twice for the same id is the same as saving the second text once |
| Tasks.Select | src/App.tsx:110-115 | `filter` returns an in-order subsequence no longer than the list |
| Tasks.SelectSpec | src/App.tsx:110-115 | the filtered list holds each kept task exactly as often as the list does and holds no other task |
| Tasks.SelectExtremes | src/App.tsx:142-143 | the filtered list is empty exactly when no task is kept, and as long as the list exactly when every task is kept |
| Tasks.SelectAll | src/App.tsx:114 | a filter that keeps every task returns the list itself |
| Tasks.SelectSame | src/App.tsx:142-143 | two filters that agree on every task give the same list |
| Tasks.SelectIdempotent | src/App.tsx:155 | filtering again with the same predicate changes nothing |
| Tasks.WithoutId | src/App.tsx:98 | deletion yields an in-order subsequence holding no task with the id and every other task with its multiplicity |
| Tasks.WithoutAbsent | src/App.tsx:98 | deleting an id no task has leaves the list identical |
| Tasks.WithoutPresent | src/App.tsx:97-98 | with distinct ids, deleting a present id shortens the list by exactly one |
| Tasks.FindIndex | src/App.tsx:93 | the result is the first position holding the id, or none exactly when no task has it |
| Tasks.Find | src/App.tsx:106 | `find` returns the task at the first position with the id, or `undefined` exactly when no task has it |
| Tasks.UpdateKeepsIds | src/App.tsx:90-92 | a toggle or an edit keeps every id in place, so distinct ids stay distinct |
| Tasks.SelectKeepsDistinct | src/App.tsx:98 | deleting and clearing never create a repeated id |
| Tasks.PrependKeeps | src/App.tsx:84 | prepending a non-blank task keeps the texts non-blank; prepending a task with a fresh id keeps the ids distinct |
| Tasks.UpdateKeepsNonBlank | src/App.tsx:122-129 | a toggle, or an edit that passed the blank check, keeps every text non-blank |
| Tasks.SelectKeepsNonBlank | src/App.tsx:155 | filtering keeps every text non-blank |
| Views.Shows | src/App.tsx:110-115 | the tab predicate: 'all' accepts every task, 'done' exactly the completed ones, 'todo' exactly the pending ones, 'important' exactly the important pending ones (so never a completed one) |
| Views.FilteredTasks | src/App.tsx:110-115 | the list the tab shows is an in-order subsequence holding exactly the tasks the tab's predicate accepts, with their multiplicity; the 'all' tab shows the list itself |
| Views.FilteredMembers | src/App.tsx:111-114 | 'done' shows exactly the done tasks, 'todo' the pending ones, 'important' the important pending ones, 'all' every task |
| Views.Compare | src/App.tsx:148-152 | -1 or 1 when the important flags differ, negative exactly when `a` is important; otherwise -1 or 1 when the done flags differ, negative exactly when `a` is pending; otherwise negative exactly when `a` is newer and 0 exactly when both have the same creation time |
| Views.CompareIsPreorder | src/App.tsx:148-152 | the comparator is antisymmetric and transitive, and is 0 exactly for equal (important, done, createdAt) keys |
| Views.Insert | src/App.tsx:148 | insertion adds exactly one copy of the element |
| Views.InsertSorted | src/App.tsx:148-152 | inserting into a sorted list keeps it sorted |
| Views.Sort | src/App.tsx:148-152 | the sort returns a permutation of its input, sorted by the comparator |
| Views.InsertStable | src/App.tsx:148 | insertion keeps the relative order of the tasks of each key |
| Views.SortStable | src/App.tsx:148 | the sort keeps the relative order of tasks the comparator ties |
| Views.SortedAllPairs | src/App.tsx:148-152 | every earlier element of a sorted list is ordered before every later one |
| Views.SortedTasks | src/App.tsx:148-152 | the shown list is a permutation of the filtered list: important before normal, then pending before done, then newest first |
| Views.SortedTasksStable | src/App.tsx:148-152 | tasks with equal keys are shown in list order |
| Views.CompletedCount | src/App.tsx:142 | `completedTasks` is at most the total, 0 exactly when no task is done, and the total exactly when every task is done |
| Views.ImportantCount | src/App.tsx:143 | `importantTasks` is at most the total and 0 exactly when no task is both important and pending |
| Views.CountBounds | src/App.tsx:141-143 | completed is at most total, and important plus completed is at most total |
| Views.FilterCounts | src/App.tsx:110-115 | the 'done' tab shows `completedTasks` tasks, the 'important' tab `importantTasks`, the 'todo' tab total minus completed |
| Views.Pending | src/App.tsx:155 | the kept list is an in-order subsequence holding exactly the pending tasks with their multiplicity |
| Views.PendingCounts | src/App.tsx:154-155 | after clearing, no task is completed and the list is shorter by the completed count |
| Views.CompletionPercentage | src/App.tsx:144-146 | the result is 0 for an empty list, otherwise the completed share of 100 rounded to the nearest integer with halves up; it lies in 0..100, is 0 with nothing completed and 100 with everything completed |
| Views.RoundedPercent | src/App.tsx:145 | the rounding of the exact quotient `100 c / t` to the nearest integer, halves up: within half a unit of the exact share, in 0..100 |
| Store.Message | src/App.tsx:74-156 | the text each handler passes to `showToast`; none is empty |
| Store.MessagesDistinct | src/App.tsx:74-156 | different notices have different texts |
| Store.AddKeepsNonBlank | src/App.tsx:77-84 | adding a task whose text passed the blank check keeps every text non-blank |
| Store.FlipKeepsNonBlank | src/App.tsx:89-108 | toggling done or important keeps every text non-blank |
| Store.FilterKeepsNonBlank | src/App.tsx:154-155 | deleting or clearing keeps every text non-blank |
| Store.EditKeepsNonBlank | src/App.tsx:122-129 | saving a draft that passed the blank check keeps every text non-blank |
| Store.TaskStore.constructor | src/App.tsx:39-52 | the initial state: the saved list, empty drafts, the 'all' tab, no task being edited |
| Store.TaskStore.AddTask | src/App.tsx:72-87 | a blank draft changes nothing and shows the empty-text notice; otherwise a pending, unimportant task with the untrimmed draft goes in front and the draft is cleared; if no text was blank before, none is blank after |
| Store.TaskStore.ToggleDone | src/App.tsx:89-95 | every task with the id has `done` negated; the notice depends on the first such task's old flag, and a missing task gives the "done" notice; if no text was blank before, none is blank after |
| Store.TaskStore.ToggleImportant | src/App.tsx:102-108 | every task with the id has `important` negated; the notice depends on the first such task's old flag, and a missing task gives the "important" notice; if no text was blank before, none is blank after |
| Store.TaskStore.DeleteTask | src/App.tsx:97-100 | the tasks with the id are removed, the rest kept in order; the edit state is left untouched; if no text was blank before, none is blank after |
| Store.TaskStore.StartEdit | src/App.tsx:117-120 | the id becomes the edited task and the given text becomes the edit draft |
| Store.TaskStore.SaveEdit | src/App.tsx:122-133 | a blank edit draft changes nothing, edit mode included; otherwise every task with the id takes the untrimmed draft and edit mode ends; if no text was blank before, none is blank after |
| Store.TaskStore.ClearCompleted | src/App.tsx:154-157 | the pending tasks are kept in order; afterwards none is completed and the list shrank by the old completed count; if no text was blank before, none is blank after |
| Store.TaskStore.SetText | src/App.tsx:179 | typing replaces the new-task draft only |
| Store.TaskStore.SetEditText | src/App.tsx:332 | typing in the edit field replaces the edit draft only |
| Store.TaskStore.SetFilter | src/App.tsx:244-262 | choosing a tab replaces the filter only |
| Session.ExampleSession | src/App.tsx:148-152 | after adding "Write report" and then "Call client", the newer task is shown first; once the older one is marked important it is shown first |
| Session.UntrimmedDraft | src/App.tsx:77-84 | a draft with surrounding spaces passes validation and is stored with its spaces |

## Left out

- Persistence is not modelled: the `localStorage` reads and writes, `JSON.parse`/`JSON.stringify` and the `Date` revival (lines 40-48, 62-64). The constructor takes the already loaded list as a parameter.
- The theme state, its storage and its `data-theme` attribute (lines 33-37, 57-60) are outside the task logic.
- The toast: each handler returns the notice it would show (`Notice`, and `Message` for its text). The visibility flag and the 3-second `setTimeout` (lines 66-70) are not modelled.
- `Date.now()` and `new Date()` become the `id` and `now` parameters of `AddTask`. `createdAt` is the millisecond count, an `int`.
- `handleKeyDown` (Enter calls `addTask`), `showFilters`, and the JSX, the animations and the icons are presentation only.
- React's batching of state updates and stale closures are not modelled. Each handler sees the state as of its call and updates it in one step.
- Store.TaskStore.AddTask: `Date.now()` ids are not modelled as unique. The method does not promise `DistinctIds`; `PrependKeeps` gives it only for a fresh id.
- Views.Sort: `Array.prototype.sort` is modelled as a stable insertion sort. ECMAScript requires a stable sort, and the comparator is a consistent preorder (`CompareIsPreorder`), so any conforming engine gives this list.
- Views.CompletionPercentage: computed in exact integer arithmetic. Floating-point error in `completed / total * 100` just below a .5 boundary is not modelled.
- Views.RoundedPercent: rounds the exact quotient, not JavaScript's double-precision product. The two differ where the product falls just below a half: 23 of 40 gives 57 in JavaScript (0.575 * 100 is 57.49999999999999) and 58 here.
- Text.Trim: characters are Unicode code points. JavaScript strings are UTF-16, but none of the trimmed characters lies outside the basic plane, so the result is the same.
- There is no cancel operation: the edit field leaves edit mode only through a successful save.
