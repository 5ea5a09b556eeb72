# Task list of a React to-do application, modelled in Dafny

The application keeps one piece of state: an ordered list of tasks, each a
record of an id, a display name and a completion flag. Three event handlers
change it. `addTask` appends a new incomplete task whose id is `"todo-"`
followed by a random suffix. `toggleTaskCompleted` inverts the flag of every
task with a given id. `deleteTask` keeps only the tasks whose id differs from
a given one. Each handler builds a new list and replaces the stored one with
it. The view derives one row per task and a heading
`"<count> <task|tasks> remaining"` from the list.

Files:

- `task_list.dfy` (module `TaskList`): the `Task` datatype and the pure list
  transformations `Add`, `Toggle`, `Delete`, with the lemmas about them.
- `heading.dfy` (module `Heading`): the rendered rows, the noun, the heading
  count and the decimal text of the heading.
- `app.dfy` (module `App`): class `TaskStore`, whose single field `tasks` is
  the state cell; each handler assigns the result of its list function.
- `seed.dfy` (module `Seed`): the three seed tasks of the entry point and a
  session over them (toggle `todo-1`, delete `todo-0`, add `Code`):
  lemmas about the list functions, and a usage scenario `Session` that
  drives the store's handlers over the seed and so shows that every
  handler's requires, `AddTask`'s included, can be met.

The random id generator is a parameter: `suffix` is the value it returns.
`TaskStore.AddTask` requires that `"todo-" + suffix` is not a current id,
which is what the generator is trusted to provide. The list function `Add`
itself has no such requirement; the distinctness lemma `AddPreservesDistinct`
states it as a hypothesis.

`toggleTaskCompleted` maps and `deleteTask` filters over every task
(src/App.js:28, 44), so `Toggle` flips and `Delete` drops every task with a
matching id. When the ids are pairwise distinct, at most one task is
affected. When the id is present, `ToggleUnique` shows that only its
position changes, and `DeleteUnique` that only its position is removed, so
the list is one shorter. An absent id leaves the list unchanged
(`ToggleAbsent`, `DeleteAbsent`). The heading count is the length of the whole list,
completed tasks included, although the heading says "remaining"; the model
keeps this (`HeadingOf`, and `SeedHeading` shows "3 tasks remaining" for a
seed with one completed task).

## Model

| member | source | states |
|---|---|---|
| TaskList.NewTask | src/App.js:17 | the created task's id is "todo-" followed by the generated suffix, its name is the argument and it is not completed |
| TaskList.Add | src/App.js:16-19 | the list grows by exactly one; every earlier task stays unchanged at its position; the last task has the given name, is incomplete and has id "todo-" + suffix |
| TaskList.AddPreservesDistinct | src/App.js:17-18 | if the ids were pairwise distinct and the new id is not among them, the ids stay pairwise distinct after the add |
| TaskList.Toggle | src/App.js:27-37 | same length; at every position the id and name are kept; the flag is inverted exactly where the id matches and kept elsewhere |
| TaskList.ToggleKeepsIds | src/App.js:28-36 | the id sequence is unchanged by a toggle, so pairwise distinct ids stay distinct |
| TaskList.ToggleAbsent | src/App.js:28-37 | toggling an id no task carries returns a list equal to the input |
| TaskList.TogglePresent | src/App.js:30-33 | toggling an id carried at position k inverts the flag there, so the list changes |
| TaskList.ToggleUnique | src/App.js:28-36 | with pairwise distinct ids, toggling the id at position k inverts that task's flag and leaves every other position unchanged |
| TaskList.ToggleTwice | src/App.js:28-36 | toggling the same id twice restores the original list |
| TaskList.Delete | src/App.js:43-46 | the result is never longer than the input |
| TaskList.DeleteMembers | src/App.js:44 | a task is in the result exactly when it is in the input and its id differs from the argument |
| TaskList.DeleteAppend | src/App.js:44 | deleting from a concatenation concatenates the deletions, so the kept tasks keep their relative order |
| TaskList.DeleteRemovesId | src/App.js:44 | no task with the deleted id remains |
| TaskList.DeleteAbsent | src/App.js:44 | deleting an id no task carries is the identity |
| TaskList.DeleteTwice | src/App.js:44 | deleting the same id twice equals deleting it once |
| TaskList.DeleteSplice | src/App.js:44 | deleting the id of a task whose id occurs in neither the part before nor the part after it removes exactly that task |
| TaskList.DeleteOnly | src/App.js:44 | when only position k carries the id, the result is the list with exactly position k removed and is one shorter |
| TaskList.DeleteUnique | src/App.js:44 | with pairwise distinct ids, deleting the id at position k removes that task and no other, and the length drops by one |
| TaskList.DeleteKeepsDistinct | src/App.js:44 | pairwise distinct ids stay pairwise distinct after a delete |
| Heading.Rows | src/App.js:51-60 | one row per task in list order, each carrying the task's id, name and flag and keyed by its id; so the row count equals the task count |
| Heading.DistinctKeys | src/App.js:56 | distinct task ids give distinct row keys |
| Heading.Noun | src/App.js:64 | the noun is "task" exactly when the number is 1 and "tasks" exactly when it is not |
| Heading.HeadingOf | src/App.js:64-65 | the count is the length of the whole list regardless of completion flags; the noun is "task" exactly when that length is 1, else "tasks" |
| Heading.HeadingIgnoresCompletion | src/App.js:64-65 | toggling any id leaves the heading unchanged |
| Heading.HeadingCountAfterAdd | src/App.js:65 | an add raises the count by one on every list, the empty one included |
| Heading.HeadingCountAfterDelete | src/App.js:65 | deleting a present id from a list with distinct ids lowers the count by one |
| Heading.NatToString | src/App.js:65 | the decimal text of the count has at least one digit, only digits, and a leading zero only for zero |
| Heading.ParseNatToString | src/App.js:65 | the decimal text reads back as the count it was made from |
| Heading.HeadingText | src/App.js:65 | the heading text is the decimal count of all tasks (digits that read back as the list length), a space, the noun and " remaining" |
| App.TaskStore.constructor | src/App.js:14 | the state cell starts as the seed list, unchecked |
| App.TaskStore.AddTask | src/App.js:16-19 | the stored list becomes the old list with the new task appended, and distinct ids stay distinct |
| App.TaskStore.ToggleTaskCompleted | src/App.js:27-38 | the stored list becomes the toggled list; its ids are unchanged; an unknown id leaves it equal; distinct ids stay distinct |
| App.TaskStore.DeleteTask | src/App.js:43-46 | the stored list becomes the filtered list; the id is gone; an unknown id leaves it equal; distinct ids stay distinct |
| App.TaskStore.CurrentHeading | src/App.js:64-65 | returns the heading of the current list, whose count is the list's length |
| Seed.Data | src/index.js:6-10 | the three seed tasks have pairwise distinct ids |
| Seed.SeedHeading | src/index.js:6-10 | the seed heading reads "3 tasks remaining" although its first task is completed |
| Seed.SeedToggle | src/index.js:6-10 | toggling "todo-1" on the seed marks "Sleep" completed and changes nothing else |
| Seed.SeedDelete | src/index.js:6-10 | deleting "todo-0" afterwards leaves "Sleep" and "Repeat" in order |
| Seed.SeedAdd | src/index.js:6-10 | adding "Code" afterwards gives three tasks with distinct ids, the last one "Code", incomplete |

## Left out

- Rendering: the markup, the `Form`, `Todo` and `FilterButton` components and the props passed to them (src/App.js:51-60, 68-86) are presentation; the component files are not part of this model. `Rows` keeps id, name, completed and key; the two handler props a row also receives (`toggleTaskCompleted`, `deleteTask`, src/App.js:57-58) are not modelled.
- The filter buttons (src/App.js:73-75) are inert placeholders with no filtering logic, so there is nothing to model.
- The random id generator (src/App.js:3, 17) is a foreign library call; its result is the `suffix` parameter, and its uniqueness is the precondition of `TaskStore.AddTask`.
- React's state scheduling and re-rendering (src/App.js:14) are not modelled; only the effect of a handler on the stored list is, as a field that is replaced.
- The entry point's rendering call, style import and strict mode (src/index.js:1-4, 12-19) are DOM plumbing; only its seed data is used.
- Seed ids are not checked for distinctness when the store is built, matching the source; the handlers promise distinctness is kept only when it already holds.
