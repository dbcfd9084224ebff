# To-do list page: the task-list state

This project models the in-memory state behind the to-do list page in
`script.js`: the module-level `tasks` array, the `nextOrder` counter, the
`taskToEditIndex` and `taskToDeleteIndex` trackers, and the table rendered
from `tasks`. Each event handler becomes one method of the class
`Controller.TaskListController`. Each network call becomes a parameter or is
ignored, as the handler does with its result.

Modules:

- `Wrappers`: `Option`, which stands for JavaScript's `null`/`undefined`.
- `TaskList`: the `Task` record and the rendered `Row`. The list operations
  written as values: the duplicate-name test (`tasks.some`), the edited
  record, `splice` (remove and insert), the drag-and-drop move, the dense
  renumbering, the stable sort by `order` (`Array.prototype.sort` is stable),
  and the render loop with its high-cost flag.
- `Deadline`: the rewrite `deadline.split('/').reverse().join('-')` applied
  in `updateTask`, with JavaScript's split, reverse and join semantics.
- `Controller`: the class with the handlers.
- `Scenarios`: three client methods that use nothing but the contracts.
  `LoadedPage` loads two tasks. `DragSwaps` drags the first row onto the
  second and gets the two tasks swapped and renumbered. `DuplicateRefused`
  submits a name already in the list and gets it refused with nothing
  changed.

The class invariant `Valid()` says two things. The list is sorted by `order`.
The rows show exactly the list. Every handler that changes `tasks` ends with
`updateTaskList()`, which sorts, so the invariant holds after every handler.
That makes the results exact:

- An edit keeps the entry's `order`, so the sort moves nothing.
- A delete keeps the list sorted.
- A drop numbers the tasks 1..N by position.
- A created task is inserted after every task whose order is at most its own.

`nextOrder` starts at 1. Only a create whose reply carries an id increments
it; `Load` leaves it alone. So a create just after a load asks for order 1,
whatever orders the loaded tasks have (`TaskListController.Load` and
`TaskListController.Submit` state this). The page reloads after every
submit (see "## Left out"), so on the real page every create is of this
kind.

## Model

| member | source | states |
|---|---|---|
| TaskList.NameTakenFrom | script.js:63 | the scan from index `from` finds a name exactly when some task at an index at or after `from` has that name (case-sensitive) and is not the one being edited |
| TaskList.NameTaken | script.js:63 | a submission is a duplicate if and only if a task at an index other than `taskToEditIndex` has exactly that name |
| TaskList.EditedTask | script.js:73-79 | the edited record keeps the old `id` and `order` and takes the form's name, cost and deadline; resubmitting unchanged fields gives back the same task |
| TaskList.EditKeepsNamesUnique | script.js:63-81 | an edit that passes the duplicate test keeps names unique |
| TaskList.InsertKeepsNamesUnique | script.js:63-95 | the list keeps unique names when the pushed task's name passes the duplicate test, and so does the sort after it; the test at line 63 is on the form's name and line 93 pushes the store's reply, so this covers the case where the store echoes the submitted name |
| TaskList.HasId | script.js:92 | the truthiness of `createdTask.id`: false when the id is missing or 0, true for any other number |
| TaskList.Insert | script.js:125 | inserting one task adds exactly that task: length one more, multiset plus the task |
| TaskList.InsertSorted | script.js:125 | inserting into a list sorted by `order` keeps it sorted |
| TaskList.Sort | script.js:125 | the sort by `order` returns a permutation of the list, non-decreasing by `order` |
| TaskList.InsertAfterAll | script.js:93 | a pushed task whose order is at least every other order stays at the end |
| TaskList.SortSortedIdentity | script.js:125 | sorting a list that is already sorted by `order` changes nothing |
| TaskList.SortAppend | script.js:93-98 | pushing onto a sorted list and sorting inserts the pushed task |
| TaskList.InsertStable | script.js:125 | insertion keeps the tasks of each order in their relative order and puts the new task last among its equals |
| TaskList.SortStable | script.js:125 | the sort is stable: for every order value, the tasks with that order keep their relative order |
| TaskList.SortedRunsDetermine | script.js:125 | two sorted lists with the same runs for every order value are equal |
| TaskList.StableSortUnique | script.js:125 | any sorted list that keeps every run of equal orders in place is the result of `Sort`, so `Sort` is the stable sort |
| TaskList.RemoveAt | script.js:173 | `splice(i, 1)` removes exactly the element at `i`: one shorter, elements before `i` kept, later ones shifted down, multiset minus that element |
| TaskList.RemoveAtSorted | script.js:215-216 | removing one task from a sorted list keeps it sorted |
| TaskList.InsertAt | script.js:174 | `splice(i, 0, x)` puts `x` at `i`, keeps the elements before it, shifts the rest up, multiset plus `x` |
| TaskList.Move | script.js:170-174 | the drag move keeps the length and the tasks (a permutation), puts the dragged task at the target index, and takes every other position from the index `MoveSource` names |
| TaskList.UnnumberedMove | script.js:170-174 | blanking the orders and then moving gives the same list as moving and then blanking the orders |
| TaskList.RenumberedUnnumbered | script.js:175 | renumbering changes the orders and nothing else, and leaves every order equal to its 1-based position |
| TaskList.RenumberedSortFixed | script.js:175-176 | the sort in the re-render after a drop leaves the renumbered list as it is |
| TaskList.DenseOrders | script.js:175-176 | when every order equals its 1-based position, the orders are exactly 1..N and strictly increasing, and the re-render's sort moves nothing |
| TaskList.DropSpec | script.js:167-177 | after a drop the list has the same length, the dragged task sits at the target with order target+1, the tasks apart from their orders are a permutation of the old ones, and every order is its 1-based position |
| TaskList.RenderRows | script.js:127-135 | the render loop gives one row per task, in list order, with `data-index` equal to its position, flagged high-cost exactly when `cost >= 1000` |
| Deadline.Split | script.js:113 | `split` returns at least one part, no part contains the separator, and joining the parts with the separator gives the input back |
| Deadline.Join | script.js:113 | `join` of no parts is the empty string; otherwise the result is as long as the parts together plus one separator between each neighbouring pair, and starts with the first part |
| Deadline.JoinThree | script.js:113 | joining three parts puts one separator between each neighbouring pair |
| Deadline.Reverse | script.js:113 | `reverse` keeps the length and puts element `i` at position `n-1-i` |
| Deadline.JoinAvoids | script.js:113 | joining parts free of a character, with another separator, gives a string free of that character |
| Deadline.Rewrite | script.js:113 | the rewritten deadline contains no `/` |
| Deadline.SplitWithoutSep | script.js:113 | a string without the separator splits into itself alone |
| Deadline.SplitAtFirst | script.js:113 | splitting at the first separator gives the part before it followed by the split of the rest |
| Deadline.SplitJoin | script.js:113 | split undoes join when no part contains the separator |
| Deadline.RewriteWithoutSlash | script.js:113 | a deadline without `/`, such as the `yyyy-mm-dd` value of a date input, is left unchanged |
| Deadline.RewriteDayMonthYear | script.js:113 | `"d/m/y"` becomes `"y-m-d"` when the three parts contain no `/` |
| Deadline.RewriteIdempotent | script.js:113 | rewriting twice is the same as rewriting once |
| Controller.UpdateBody | script.js:111-113 | the record that `JSON.stringify` sends, taken before `new Date(...).toISOString()`: it is the task with its deadline rewritten by `Rewrite`, so it differs from the task only in the deadline, which holds no `/` and equals the task's own deadline when that has no `/`; the deadline actually sent is the ISO string of that date, never the form's string |
| Controller.TaskListController.constructor | script.js:13-17 | the initial state: no tasks, no rows, `nextOrder` 1, no task selected for edit or delete |
| Controller.TaskListController.Render | script.js:123-135 | `updateTaskList` sorts `tasks` by order in place and rebuilds the rows from it; nothing else changes |
| Controller.TaskListController.Load | script.js:236-244 | a decoded reply replaces the list, which is then sorted and rendered; a failed fetch changes nothing; `nextOrder` is never touched |
| Controller.TaskListController.OpenAddForm | script.js:24-31 | opening the add form clears `taskToEditIndex` |
| Controller.TaskListController.EditTask | script.js:183-200 | for an index in range, the form gets that task and `taskToEditIndex` becomes the index; for an index out of range nothing changes |
| Controller.TaskListController.OpenDeleteModal | script.js:202-205 | `taskToDeleteIndex` becomes the index |
| Controller.TaskListController.Submit | script.js:56-102 | a duplicate name is refused exactly when `NameTaken` holds, with nothing changed; an edit sends and stores the record with the old id and order, changes only that entry, and leaves `nextOrder`; a stale edit index throws with nothing changed; a create sends `{name, cost, deadline, order: nextOrder}` and inserts the reply and increments `nextOrder` exactly when the reply is non-null with a truthy id, otherwise nothing changes |
| Controller.TaskListController.ReplaceAt | script.js:72-81 | `tasks[i] = t` with the same order, then a re-render: the list is the old one with only entry `i` replaced |
| Controller.TaskListController.Append | script.js:92-95 | `push` of the reply and `nextOrder++`, then a re-render: the reply is inserted by order and the counter goes up by one |
| Controller.TaskListController.ConfirmDelete | script.js:211-219 | with no selection nothing happens; with a stale index the handler throws with nothing changed; otherwise it sends the task's id and splices out exactly that entry, keeping the others in order; `taskToDeleteIndex` is not reset |
| Controller.TaskListController.Drop | script.js:167-178 | a drop with no dragged row, or onto the dragged row itself, changes nothing; otherwise the list becomes the move of the dragged task to the target, renumbered 1..N by position |
| Controller.TaskListController.RenumberOrders | script.js:175 | the `forEach` sets every task's order to its 1-based position and changes nothing else |

## Left out

- The `fetch` calls (`createTask`, `updateTask`, `deleteTask`, `loadTasks`): network I/O with an external store. The create reply and the load reply are parameters of `Submit` and `Load`. The results of `updateTask` and `deleteTask` are not used by the handlers, so they do not appear.
- Controller.TaskListController.Load: only the local update is modelled: assign the reply, then render. The reply is any list of well-typed tasks. A JSON body that is not an array of tasks is not modelled.
- DOM work is not modelled: `innerHTML`, `createElement`, modal display, `taskForm.reset()`, `errorMessageDiv`, `setTimeout`, `dragstart`/`dragend`, `window.location.reload()`. A row is identified by its rendered index. The dragged row is a parameter of `Drop`, and "not the target row" is "a different index".
- Controller.TaskListController.Drop: requires both indices to be rendered rows. The handler only runs for rows on the page, so an out-of-range index never reaches it.
- Date and time handling is not modelled: `new Date`, `toISOString`, `getTimezoneOffset` in `editTask`, and `dateLock`'s "today". `EditTask` returns the stored deadline where the page shows a local date string. `UpdateBody` stops at the string rewrite.
- `parseFloat`, `toFixed(2)` and the `pt-BR` date formatting are not modelled: they are floating-point and locale library calls. Cost is a `real`, so there is no NaN, and it is used only for the threshold test.
- Controller.TaskListController.Submit: the handler ends with `window.location.reload()` (script.js:101) after every submit that passes the duplicate test and does not throw. The reload throws away `tasks`, `nextOrder`, `taskToEditIndex` and `taskToDeleteIndex`, and the next load rebuilds only `tasks`. So the post-state that `Submit` states lasts only until the reload, and every create the real page sends carries `order: 1`. The page reload is not modelled.
- Interleaved async handlers are not modelled: each handler runs to completion, including its awaited call.
- Task objects are values here. `task.order = i + 1` mutates shared objects in the source, but no other reference to those objects is observable, so replacing list entries is equivalent.
- Task ids are `Option<int>`. A string id, whose truthiness would be "non-empty", is not modelled.
