# Task list core of a React to-do page

The page keeps one piece of state: a list of tasks. Each task has an id, a
description and an optional `completed` flag. Four handlers change the list:

- create a task;
- complete the task at an index;
- uncomplete the task at an index;
- delete the task at an index.

Every render derives three things from the list:

- the number of completed tasks, with a `reduce`;
- the total, which is the list's length;
- the display order, with a `sort` that puts incomplete tasks first.

That `sort` reorders the state array itself. So a handler's index, taken
from the rendered list, is also a position in the stored list.

The model has four modules:

- `Tasks` (Tasks.dfy): the `Task` record and the list transitions as pure
  functions. These are id allocation and append, setting the flag at an
  index, and the positional `filter` that deletes. Lemmas cover
  idempotence, undoing a completion, sequential numbering and "removes
  exactly one".
- `Counting` (Counting.dfy): the completed count as the left fold the
  `reduce` computes. Lemmas show the count lies between 0 and the length,
  depends only on which tasks are held (not their order), and changes by
  exactly one or zero under each transition.
- `Display` (Display.dfy): the comparator as written and the consistent
  comparator it stands for. The display order is the stable partition,
  proved to be a sorted permutation that keeps each group's relative
  order. It is the only such arrangement, and applying it again changes
  nothing. A concrete case shows that ids repeat.
- `App` (App.dfy): the component as a class `TaskList` with a `tasks:
  seq<Task>` field. The handlers and the in-place sort are methods, and
  the render is one method. A client method, `ExampleSession`, drives a
  whole session through the handlers.

The code does not give these guarantees a task list might be expected to
give:

- ids are not unique, because a new id is the last stored id plus one
  (`IdRepeatsAfterSort`);
- any description is accepted, the empty string included;
- the stored order is not insertion order, because every render sorts the
  stored list in place;
- a handler's index is a position in the stored list, which is in display
  order after the render.

## Model

| member | source | states |
|---|---|---|
| Tasks.NextId | src/App.tsx:34-37 | the new id is at least 1 and exceeds the last stored id; when ids are 1..n in storage order it is n + 1 |
| Tasks.AppendTask | src/App.tsx:39-44 | create appends exactly one task at the end and leaves the earlier tasks unchanged. The new task has the given description (empty allowed), is incomplete, and gets id 1 on an empty list, else the last element's id + 1 |
| Tasks.CreateAllNumbersInOrder | src/App.tsx:34-44 | a run of creates from the empty list stores the tasks in call order, all incomplete, with ids 1..n |
| Tasks.SetCompleted | src/App.tsx:47-59 | setting the flag at a valid index changes only that task's flag. Length, order, that task's id and description, and every other task are unchanged |
| Tasks.SetCompletedIdempotent | src/App.tsx:47-59 | completing (or uncompleting) twice equals doing it once |
| Tasks.CompleteThenUncomplete | src/App.tsx:47-59 | complete then uncomplete at the same index equals uncomplete alone. On a task that was incomplete, it restores the list exactly |
| Tasks.Delete | src/App.tsx:61-65 | the positional filter removes exactly the element at a valid index and keeps the rest in order. An index outside the list removes nothing |
| Tasks.DeleteRemovesOne | src/App.tsx:61-65 | after deleting index k the length drops by one, and the tasks held are the old ones minus one copy of ts[k] |
| Counting.CompletedCount | src/App.tsx:16-19 | the count is between 0 and the length. It is 0 iff no task is completed, and equals the length iff every task is |
| Counting.CountConcat | src/App.tsx:16-19 | the fold over a concatenation is the sum of the folds |
| Counting.CountPermutationInvariant | src/App.tsx:16-25 | any two lists holding the same tasks have the same count, so no sort changes the count shown |
| Counting.CountAfterSetCompleted | src/App.tsx:47-59 | complete raises the count by one exactly when the task was incomplete. Uncomplete lowers it by one exactly when the task was completed |
| Counting.CountAfterDelete | src/App.tsx:61-65 | delete lowers the count by one exactly when the removed task was completed |
| Counting.CountAfterAppend | src/App.tsx:39-44 | create never changes the count |
| Display.Compare | src/App.tsx:21-25 | the comparator as written returns 1 whenever the first task is completed and 0 for two incomplete tasks. It returns a negative value exactly when the first task is incomplete and the second is completed |
| Display.ConsistentCompare | src/App.tsx:21-25 | the intended comparator ties exactly on equal flags and puts a task first exactly when it is incomplete and the other is completed |
| Display.ConsistentCompareIsConsistent | src/App.tsx:21-25 | the intended comparator is reflexive, antisymmetric in sign and transitive |
| Display.CompareAgreesUnlessBothCompleted | src/App.tsx:21-25 | the comparator as written agrees with the intended one except on two completed tasks, where it returns 1 instead of 0 |
| Display.NoArrangementSortedByCompare | src/App.tsx:21-25 | with two completed tasks, every arrangement has an earlier task that compares greater than a later one, and the reverse comparison is greater as well |
| Display.Group | src/App.tsx:21-25 | a group holds only tasks with the given flag and is no longer than the list |
| Display.DisplayOrder | src/App.tsx:21-25 | the display order is partitioned, with every incomplete task before every completed one. DisplayOrderIsStablePartition states that it is a permutation keeping both groups' stored order, and DisplayOrderUnique that it is the only such arrangement |
| Display.DisplayOrderIsStablePartition | src/App.tsx:21-25 | the display order is a permutation of the stored tasks with the same length, and every incomplete task comes before every completed one. Both groups keep their stored relative order |
| Display.DisplayOrderUnique | src/App.tsx:21-25 | any partitioned list that keeps both groups' relative order is the display order |
| Display.DisplayOrderIdempotent | src/App.tsx:21-25 | a list already in display order is left unchanged, so sorting on every render is idempotent |
| Display.DisplayOrderOfTwo | src/App.tsx:21-25 | two tasks swap exactly when the first is completed and the second is not |
| Display.CountIsCompletedGroupSize | src/App.tsx:16-25 | the count equals the size of the completed group and is the same before and after the display sort |
| Display.DisplayAfterCreate | src/App.tsx:34-44 | after a create and the next render, the new task stands after every incomplete task and before every completed one |
| Display.IdRepeatsAfterSort | src/App.tsx:34-37 | ids are not unique. With tasks 1 and 2, completing task 1 moves it behind task 2, and the next create takes id 2 again |
| App.TaskList.constructor | src/App.tsx:14 | the session starts with an empty list |
| App.TaskList.SortTasks | src/App.tsx:21-25 | the in-place sort keeps length and tasks and puts incomplete tasks first. Incomplete tasks keep their order, and the new list is the display order of the old one |
| App.TaskList.Render | src/App.tsx:16-25 | a render reports total = length and the completed count (at most the total, the same before and after the sort). It reports empty iff there are no tasks, and leaves the list in display order |
| App.TaskList.HandleCreateNewTask | src/App.tsx:27-45 | the state becomes the old list with the new task appended, and the completed count is unchanged |
| App.TaskList.HandleCompleteTask | src/App.tsx:47-52 | the state becomes the old list with the task at the index completed. The count rises by one iff that task was incomplete |
| App.TaskList.HandleUncompleteTask | src/App.tsx:54-59 | the state becomes the old list with the task at the index incomplete. The count drops by one iff that task was completed |
| App.TaskList.HandleDeleteTask | src/App.tsx:61-65 | the state becomes the old list without the element at the index, one shorter, and the count drops iff that task was completed. An index outside the list leaves the state unchanged |
| App.OpenSession | src/App.tsx:27-45 | two creates from a fresh list, each followed by a render, store [1 "Buy milk", 2 "Walk dog"], both incomplete, in creation order |
| App.ExampleSession | src/App.tsx:13-65 | the session is: create "Buy milk", create "Walk dog", complete index 0, render, delete index 0. It leaves [1 "Buy milk" completed], with total 1 and count 1 |

## Left out

- Rendering: the JSX, the CSS module classes, the images and the icon components (src/App.tsx:2-5, 67-139). They only display the state.
- Form plumbing: `preventDefault`, `FormData`, `String(formData.get('task'))` and the form reset (src/App.tsx:28-32). Create takes the description string directly.
- React's state scheduling: `useState`, and the difference between the functional updater and the direct value passed to `setTasks`. Each handler is one atomic state change.
- Object aliasing: complete and uncomplete copy the array shallowly, then assign a field of a shared task object. Tasks are values in the model, so the in-place field update becomes a sequence update.
- The optional flag: `completed?: boolean` is a plain bool. An absent flag and `false` behave alike in every branch of the component.
- Id conversion: ids are stored as decimal strings and converted with `Number`/`String`. They are modelled as natural numbers. Floating-point precision above 2^53 is not modelled.
- App.TaskList.SortTasks: the JavaScript sort's order inside the completed group is not modelled. The comparator is inconsistent there, so that order depends on the engine. The model takes the stable partition, which also keeps completed tasks in stored order. It also assumes the engine does put every incomplete task before every completed one.
- App.TaskList.HandleCompleteTask, App.TaskList.HandleUncompleteTask: an index outside the list makes the source throw. The model requires a valid index, which is what the page always passes.

## Findings

| source | as written | input that shows it | evidently intended | confidence | as-written member | corrected member |
|---|---|---|---|---|---|---|
| src/App.tsx:21-25 | the sort comparator returns 1 whenever its first task is completed, so two completed tasks each compare greater than the other. A comparator like this does not meet the consistency that the ECMAScript definition of `Array.prototype.sort` requires, so the resulting order is implementation-defined | two completed tasks a and b: compare(a, b) = 1 and compare(b, a) = 1 | a comparator that returns 0 for equal flags, giving a stable partition with incomplete tasks first | not executed; the inconsistency follows from the code, but its visible effect on order depends on the engine | Display.NoArrangementSortedByCompare | Display.ConsistentCompareIsConsistent |
