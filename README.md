# Task Board model

A Dafny model of the Task Board of the task-tracker application: the React
dashboard component (`task-tracker-frontend/src/pages/Dashboard.js`) that
keeps a list of to-do items in the browser, lets the user add, edit, update,
delete and tick them off, and shows completion counts and four category
lists (daily, weekly, monthly, common).

The component's state is the class `Dashboard.TaskBoard`, with one field per
piece of React state (`tasks`, `newTask`, `editIndex`, `taskCategory`) and one
method per event handler. Each method states the whole new state in terms of
the old one. The values the board derives on every render are pure functions
in module `Tasks`: JavaScript's `filter`, the completed and pending counts,
the four category lists, and the list edits the handlers perform. Lemmas
relate the handlers' edits to the derived values: the counts always add up
to the number of tasks, toggling moves exactly one task between completed
and pending and is undone by a second toggle, and the four category lists
show every task exactly once when every task carries one of the four labels.
Module `Text` models `String.prototype.trim`, and `Trim(s) == ""` is proved
to hold exactly when every character of `s` is whitespace.

Modelling choices:

- A task is a value `Task(name, completed, date, category)`. The update and
  toggle handlers copy the array and then change the shared task object in
  place. Seen through the list, that is the same as replacing the element at
  the index, so the model uses `seq` updates (`RenameAt`, `ToggleAt`).
- A missing or falsy category is modelled as `""`. `task.category || "daily"`
  becomes `CategoryOrDefault`.
- The two values the browser supplies are parameters: the timestamp
  `new Date().toISOString()` is `AddTask(today)`, and the answer of
  `window.confirm` is `DeleteTask(index, confirmed)`.
- Each rendered row finds its task's position with `tasks.indexOf(task)`.
  That compares objects by identity, and each task object occurs in the list
  only once, so the lookup returns the row's own position. `Positions` and
  `CategoryRows` give that position for every row. Two tasks with equal
  fields are therefore not confused.
- The handlers that index the list (`handleEditTask`,
  `handleCheckboxToggle`) are only reachable from a rendered row, so their
  index is in range (`requires index < |tasks|`). `handleDeleteTask` filters
  by index and accepts any index; an index outside the list removes nothing.
- `handleDeleteTask` does not touch `editIndex`. After deleting during an
  edit, the cursor can point past the end of the list or at a different
  task. `handleUpdateTask` checks only for a blank name before it writes
  `updated[editIndex].name`. With a missing or out-of-range cursor,
  `updated[editIndex]` is `undefined` and the write throws a TypeError
  before any state changes. `UpdateTask` returns this as `thrown`. The
  update button is shown whenever `editIndex !== null`, so this path can be
  reached. `Scenarios` spells out the two consequences: an update that
  throws, and an update that renames the neighbouring task.

## Model

| member | source | states |
|---|---|---|
| `Text.TrimStart` | task-tracker-frontend/src/pages/Dashboard.js:34 | the result is a suffix of the input, everything dropped is whitespace, and the result does not start with whitespace |
| `Text.TrimEnd` | task-tracker-frontend/src/pages/Dashboard.js:34 | the result is a prefix of the input, everything dropped is whitespace, and the result does not end with whitespace |
| `Text.Trim` | task-tracker-frontend/src/pages/Dashboard.js:34 | `trim()` yields `""` exactly when every character is whitespace; otherwise neither end of the result is whitespace |
| `Text.TrimmedIsEmpty` | task-tracker-frontend/src/pages/Dashboard.js:34 | the guard `newTask.trim() === ""` holds exactly when the input is blank |
| `Tasks.Filter` | task-tracker-frontend/src/pages/Dashboard.js:96-99 | `filter` keeps no more elements than the list has, and every kept element satisfies the test |
| `Tasks.FilterMembers` | task-tracker-frontend/src/pages/Dashboard.js:96-99 | `filter` keeps exactly the elements of the list that satisfy the test |
| `Tasks.Positions` | task-tracker-frontend/src/pages/Dashboard.js:105-132 | each row of a filtered list maps back to a valid list position that holds that row's task; positions increase down the rows; every task that passes the test has a row |
| `Tasks.CompletedCount` | task-tracker-frontend/src/pages/Dashboard.js:80 | `completedCount` is at most the number of tasks, and is 0 exactly when no task is completed |
| `Tasks.PendingCount` | task-tracker-frontend/src/pages/Dashboard.js:81 | `pendingCount` is never negative, adds up with `completedCount` to the number of tasks, and equals the number of tasks that are not completed |
| `Tasks.CategoryTasks` | task-tracker-frontend/src/pages/Dashboard.js:96-99 | a category list holds exactly the tasks of that category, and every row carries that category |
| `Tasks.CategoryRows` | task-tracker-frontend/src/pages/Dashboard.js:105-132 | the rows of a category list map, in increasing order, to the positions of the list whose task has that category, and only to those |
| `Tasks.Unlabelled` | task-tracker-frontend/src/pages/Dashboard.js:96-99 | the tasks whose category is none of the four labels, so that none of the four lists shows them |
| `Tasks.CategoryListsCount` | task-tracker-frontend/src/pages/Dashboard.js:96-99 | the four category lists and the unlabelled tasks together have exactly as many entries as the task list |
| `Tasks.CategoryListsCover` | task-tracker-frontend/src/pages/Dashboard.js:96-99 | the four list sizes add up to the number of tasks if and only if every task carries one of the four labels |
| `Tasks.CategoryListsDisjoint` | task-tracker-frontend/src/pages/Dashboard.js:96-99 | two different categories never show the same task and never show two rows for the same position |
| `Tasks.CategoryTasksAppend` | task-tracker-frontend/src/pages/Dashboard.js:37-45 | adding a task leaves every category list unchanged, except that the new task's category list gains it at the end |
| `Tasks.FilterConcat` | task-tracker-frontend/src/pages/Dashboard.js:96-99 | filtering a concatenation is the concatenation of the filtered parts |
| `Tasks.FilterComplement` | task-tracker-frontend/src/pages/Dashboard.js:80-81 | a test and its negation together keep every element exactly once |
| `Tasks.AppendKeepsLabels` | task-tracker-frontend/src/pages/Dashboard.js:37-45 | appending a task whose category is a label keeps every task labelled |
| `Tasks.RemoveKeepsLabels` | task-tracker-frontend/src/pages/Dashboard.js:53 | removing a position keeps every task labelled |
| `Tasks.ToggleKeepsLabels` | task-tracker-frontend/src/pages/Dashboard.js:75-76 | toggling keeps every task labelled |
| `Tasks.RenameKeepsLabels` | task-tracker-frontend/src/pages/Dashboard.js:65-67 | renaming with a labelled category keeps every task labelled |
| `Tasks.WithoutIndex` | task-tracker-frontend/src/pages/Dashboard.js:53 | filtering out one position of the list leaves the elements before and after it, in order; an index outside the list removes nothing |
| `Tasks.ToggleAt` | task-tracker-frontend/src/pages/Dashboard.js:75-76 | only the completed flag of the task at the index flips; its name, date and category, the length and every other task are unchanged |
| `Tasks.RenameAt` | task-tracker-frontend/src/pages/Dashboard.js:65-67 | only the name and category of the task at the index change; its completion and date, the length and every other task are unchanged |
| `Tasks.ToggleTwice` | task-tracker-frontend/src/pages/Dashboard.js:74-78 | toggling the same task twice restores the original list |
| `Tasks.ToggleCounts` | task-tracker-frontend/src/pages/Dashboard.js:74-81 | a toggle moves exactly one task between the completed and pending counts |
| `Tasks.ToggleKeepsRows` | task-tracker-frontend/src/pages/Dashboard.js:74-78 | a toggle keeps every category list's rows at the same positions |
| `Tasks.PositionsSameMask` | task-tracker-frontend/src/pages/Dashboard.js:105-132 | row positions depend only on which tasks pass the test |
| `Tasks.RenameCounts` | task-tracker-frontend/src/pages/Dashboard.js:63-81 | an update changes neither the completed nor the pending count |
| `Tasks.AppendCounts` | task-tracker-frontend/src/pages/Dashboard.js:33-48 | adding a task (never completed) keeps the completed count and adds one pending task |
| `Tasks.RemoveCounts` | task-tracker-frontend/src/pages/Dashboard.js:50-55 | deleting a task takes it out of the count it was in |
| `Dashboard.CategoryOrDefault` | task-tracker-frontend/src/pages/Dashboard.js:60 | a non-empty category is kept and an empty one becomes "daily"; a labelled category stays labelled |
| `Dashboard.TaskBoard.constructor` | task-tracker-frontend/src/pages/Dashboard.js:17-20 | the board starts with no tasks, an empty input, no edit cursor and category "daily" |
| `Dashboard.TaskBoard.SetNewTask` | task-tracker-frontend/src/pages/Dashboard.js:163 | typing sets the input text and changes nothing else |
| `Dashboard.TaskBoard.SelectCategory` | task-tracker-frontend/src/pages/Dashboard.js:167-176 | choosing one of the four options sets the category and changes nothing else |
| `Dashboard.TaskBoard.AddTask` | task-tracker-frontend/src/pages/Dashboard.js:33-48 | a blank input changes nothing; otherwise exactly one task `{name, completed: false, date, category}` is appended, earlier tasks are unchanged, the input is cleared and the category reset to "daily"; the edit cursor is untouched |
| `Dashboard.TaskBoard.DeleteTask` | task-tracker-frontend/src/pages/Dashboard.js:50-55 | when confirmed, exactly the task at the index is removed and the rest keep their order; when not confirmed, nothing changes; the input, cursor and category never change |
| `Dashboard.TaskBoard.EditTask` | task-tracker-frontend/src/pages/Dashboard.js:57-61 | the cursor becomes the index, the input takes the task's name, the category takes its category or "daily"; the list is unchanged |
| `Dashboard.TaskBoard.UpdateTask` | task-tracker-frontend/src/pages/Dashboard.js:63-72 | a blank input changes nothing; otherwise a missing or out-of-range cursor throws without changing anything, and a valid cursor gets only its name and category overwritten, after which the input is cleared, the cursor removed and the category reset |
| `Dashboard.TaskBoard.ToggleTask` | task-tracker-frontend/src/pages/Dashboard.js:74-78 | only the completed flag of the task at the index flips; the rest of the state is unchanged |
| `Scenarios.DeleteWhileEditingThrows` | task-tracker-frontend/src/pages/Dashboard.js:50-72 | add, edit and delete one task, then update: the update throws |
| `Scenarios.DeleteWhileEditingRenamesNeighbour` | task-tracker-frontend/src/pages/Dashboard.js:50-72 | add "a", "b" and "c", edit "b", delete "a", then update: the task "c" is renamed to "b" |

Every state-changing handler also preserves `Labelled()`: if the selected
category and every task's category are among the four labels before, they
still are after. Together with `Tasks.CategoryListsCover`, every task then
appears in exactly one of the four rendered lists.

## Left out

- Loading the list from `localStorage` when the component mounts and saving it after every change (Dashboard.js lines 22-31): this is browser storage and JSON parsing. The model starts from the component's initial state.
- `window.confirm` and `new Date().toISOString()`: calls into the browser. Their results are parameters.
- The pie and bar chart data (lines 83-94) only repackage the two counts. The JSX rendering and the recharts components are left out too.
- The row lookup `tasks.indexOf(task)` is not modelled as a search. The model states the position it returns, which each row's task occupies once, through `Positions`/`CategoryRows`.
- `Dashboard.TaskBoard.EditTask`, `Dashboard.TaskBoard.ToggleTask`: they require an index inside the list. The source would throw on any other index, but only rendered rows call these handlers, and rows always pass a valid index.
- `Text.IsWhitespace` works on Unicode code points. JavaScript strings are UTF-16, but every character `trim` removes is a single UTF-16 unit, so the two agree.
- App.js (the login/dashboard switch), Login.js and Signup.js (fetch calls and storage of the token), the backend task controller and the route files. These only wire up network, database and routing libraries and are not part of this model.
