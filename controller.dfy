/**
 * The page's controller state: the module-level `tasks` array, the
 * `nextOrder` counter, the `taskToEditIndex` and `taskToDeleteIndex`
 * trackers, and the table currently rendered from `tasks`. Each method is
 * one event handler, with the results of the network calls it awaits given
 * as parameters.
 */
module Controller {

  import opened Wrappers
  import opened TaskList
  import Deadline

  /** How a submission of the task form ended. */
  datatype SubmitOutcome =
    | DuplicateName                          // inline error shown; nothing sent, nothing changed
    | EditFailed                             // tasks[taskToEditIndex] is undefined: the handler throws before sending
    | EditSent(sent: Task)                   // updateTask(sent) awaited; the local entry replaced by `sent`
    | CreateSent(sent: Task, appended: bool) // createTask(sent) awaited; the reply appended when it has an id

  /** How a click on the delete confirmation ended. */
  datatype DeleteOutcome =
    | NothingSelected                        // taskToDeleteIndex is null
    | DeleteFailed                           // tasks[taskToDeleteIndex] is undefined: the handler throws
    | DeleteSent(id: Option<int>)            // deleteTask(id) awaited, then the entry spliced out

  /** The record that updateTask sends: the task with its deadline rewritten
      (the `new Date(...).toISOString()` applied to the rewrite is not modelled). */
  function UpdateBody(t: Task): (body: Task)
    ensures body == t.(deadline := Deadline.Rewrite(t.deadline))
    ensures body.(deadline := t.deadline) == t
    ensures '/' !in body.deadline
    ensures '/' !in t.deadline ==> body == t
  {
    var body := t.(deadline := Deadline.Rewrite(t.deadline));
    if '/' in t.deadline then body
    else Deadline.RewriteWithoutSlash(t.deadline); body
  }

  class TaskListController {
    var tasks: seq<Task>
    var nextOrder: int
    var taskToEditIndex: Option<nat>
    var taskToDeleteIndex: Option<nat>
    /** The table rows as last rendered. */
    var rows: seq<Row>

    /** Every handler ends by re-rendering, so the list is always sorted by
        order and the table always shows it. */
    ghost predicate Valid()
      reads this
    {
      Sorted(tasks) && Shows(rows, tasks)
    }

    /** The page as loaded, before the first fetch returns. */
    constructor ()
      ensures Valid()
      ensures tasks == [] && rows == [] && nextOrder == 1
      ensures taskToEditIndex == None && taskToDeleteIndex == None
    {
      tasks := [];
      nextOrder := 1;
      taskToEditIndex := None;
      taskToDeleteIndex := None;
      rows := [];
    }

    /** updateTaskList(): sort the list by order in place, then rebuild the table. */
    method Render()
      modifies this
      ensures Valid()
      ensures tasks == Sort(old(tasks))
      ensures nextOrder == old(nextOrder)
      ensures taskToEditIndex == old(taskToEditIndex) && taskToDeleteIndex == old(taskToDeleteIndex)
    {
      tasks := Sort(tasks);
      rows := RenderRows(tasks);
    }

    /** loadTasks(): `fetched` is the decoded reply, None when the request or
        the decoding threw (the error is logged and nothing changes). */
    method Load(fetched: Option<seq<Task>>)
      requires Valid()
      modifies this
      ensures Valid()
      ensures fetched.Some? ==> tasks == Sort(fetched.value)
      ensures fetched.None? ==> tasks == old(tasks) && rows == old(rows)
      ensures nextOrder == old(nextOrder)
      ensures taskToEditIndex == old(taskToEditIndex) && taskToDeleteIndex == old(taskToDeleteIndex)
    {
      if fetched.Some? {
        tasks := fetched.value;
        Render();
      }
    }

    /** The "add task" button: the form is for a new task. */
    method OpenAddForm()
      requires Valid()
      modifies this`taskToEditIndex
      ensures Valid()
      ensures taskToEditIndex == None
    {
      taskToEditIndex := None;
    }

    /** editTask(index): returns the task whose fields fill the form, or None
        when tasks[index] is undefined and reading its name throws. */
    method EditTask(index: nat) returns (form: Option<Task>)
      requires Valid()
      modifies this`taskToEditIndex
      ensures Valid()
      ensures index < |tasks| ==> form == Some(tasks[index]) && taskToEditIndex == Some(index)
      ensures index >= |tasks| ==> form == None && taskToEditIndex == old(taskToEditIndex)
    {
      if index < |tasks| {
        form := Some(tasks[index]);
        taskToEditIndex := Some(index);
      } else {
        form := None;
      }
    }

    /** openDeleteModal(index): remembers which row is to go. */
    method OpenDeleteModal(index: nat)
      requires Valid()
      modifies this`taskToDeleteIndex
      ensures Valid()
      ensures taskToDeleteIndex == Some(index)
    {
      taskToDeleteIndex := Some(index);
    }

    /** The task form's submit handler. `reply` is what createTask returned
        (None for null); it is only awaited on the create path. What updateTask
        returns is not used. */
    method Submit(name: string, cost: real, deadline: string, reply: Option<Task>) returns (outcome: SubmitOutcome)
      requires Valid()
      modifies this
      ensures Valid()
      ensures taskToEditIndex == old(taskToEditIndex) && taskToDeleteIndex == old(taskToDeleteIndex)
      ensures outcome.DuplicateName? <==> NameTaken(old(tasks), name, old(taskToEditIndex))
      ensures outcome.EditFailed? <==>
                !NameTaken(old(tasks), name, old(taskToEditIndex)) &&
                old(taskToEditIndex).Some? && old(taskToEditIndex).value >= |old(tasks)|
      ensures outcome.EditSent? <==>
                !NameTaken(old(tasks), name, old(taskToEditIndex)) &&
                old(taskToEditIndex).Some? && old(taskToEditIndex).value < |old(tasks)|
      ensures outcome.CreateSent? <==>
                !NameTaken(old(tasks), name, old(taskToEditIndex)) && old(taskToEditIndex).None?
      ensures outcome.DuplicateName? || outcome.EditFailed? ==>
                tasks == old(tasks) && rows == old(rows) && nextOrder == old(nextOrder)
      ensures outcome.EditSent? ==>
                var i := old(taskToEditIndex).value;
                i < |old(tasks)| &&
                outcome.sent == EditedTask(old(tasks)[i], name, cost, deadline) &&
                tasks == old(tasks)[i := outcome.sent] && nextOrder == old(nextOrder)
      ensures outcome.CreateSent? ==>
                outcome.sent == Task(None, name, cost, deadline, old(nextOrder)) &&
                outcome.appended == (reply.Some? && HasId(reply.value))
      ensures outcome.CreateSent? && outcome.appended ==>
                tasks == Insert(reply.value, old(tasks)) && nextOrder == old(nextOrder) + 1
      ensures outcome.CreateSent? && !outcome.appended ==>
                tasks == old(tasks) && nextOrder == old(nextOrder)
    {
      if NameTaken(tasks, name, taskToEditIndex) {
        return DuplicateName;
      }
      if taskToEditIndex.Some? {
        var i := taskToEditIndex.value;
        if i >= |tasks| {
          return EditFailed;
        }
        var updatedTask := EditedTask(tasks[i], name, cost, deadline);
        ReplaceAt(i, updatedTask);
        outcome := EditSent(updatedTask);
      } else {
        var newTask := Task(None, name, cost, deadline, nextOrder);
        var appended := reply.Some? && HasId(reply.value);
        if appended {
          Append(reply.value);
        } else {
          Render();
          SortSortedIdentity(old(tasks));
        }
        outcome := CreateSent(newTask, appended);
      }
    }

    /** tasks[i] = t followed by updateTaskList(), for a `t` that keeps the
        order of the entry it replaces: the sort then moves nothing. */
    method ReplaceAt(i: nat, t: Task)
      requires Valid()
      requires i < |tasks| && t.order == tasks[i].order
      modifies this
      ensures Valid()
      ensures tasks == old(tasks)[i := t] && nextOrder == old(nextOrder)
      ensures taskToEditIndex == old(taskToEditIndex) && taskToDeleteIndex == old(taskToDeleteIndex)
    {
      tasks := tasks[i := t];
      assert Sorted(tasks);
      SortSortedIdentity(tasks);
      Render();
    }

    /** tasks.push(t), nextOrder++ and updateTaskList(). */
    method Append(t: Task)
      requires Valid()
      modifies this
      ensures Valid()
      ensures tasks == Insert(t, old(tasks)) && nextOrder == old(nextOrder) + 1
      ensures taskToEditIndex == old(taskToEditIndex) && taskToDeleteIndex == old(taskToDeleteIndex)
    {
      var pushed := tasks + [t];
      SortAppend(tasks, t);
      assert Sort(pushed) == Insert(t, tasks);
      tasks := pushed;
      nextOrder := nextOrder + 1;
      Render();
    }

    /** The delete confirmation: deleteTask is awaited whatever it does, then
        the entry is spliced out. taskToDeleteIndex is left as it was. */
    method ConfirmDelete() returns (outcome: DeleteOutcome)
      requires Valid()
      modifies this
      ensures Valid()
      ensures nextOrder == old(nextOrder)
      ensures taskToEditIndex == old(taskToEditIndex) && taskToDeleteIndex == old(taskToDeleteIndex)
      ensures old(taskToDeleteIndex).None? ==>
                outcome == NothingSelected && tasks == old(tasks) && rows == old(rows)
      ensures old(taskToDeleteIndex).Some? && old(taskToDeleteIndex).value >= |old(tasks)| ==>
                outcome == DeleteFailed && tasks == old(tasks) && rows == old(rows)
      ensures old(taskToDeleteIndex).Some? && old(taskToDeleteIndex).value < |old(tasks)| ==>
                var i := old(taskToDeleteIndex).value;
                outcome == DeleteSent(old(tasks)[i].id) && tasks == RemoveAt(old(tasks), i)
    {
      if taskToDeleteIndex.None? {
        return NothingSelected;
      }
      var i := taskToDeleteIndex.value;
      if i >= |tasks| {
        return DeleteFailed;
      }
      outcome := DeleteSent(tasks[i].id);
      RemoveAtSorted(tasks, i);
      tasks := RemoveAt(tasks, i);
      SortSortedIdentity(tasks);
      Render();
    }

    /** The drop handler of the row at `target`; `dragged` is the index of the
        row being dragged, None when nothing is. */
    method Drop(dragged: Option<nat>, target: nat)
      requires Valid()
      requires dragged.Some? ==> dragged.value < |rows|
      requires target < |rows|
      modifies this
      ensures Valid()
      ensures nextOrder == old(nextOrder)
      ensures taskToEditIndex == old(taskToEditIndex) && taskToDeleteIndex == old(taskToDeleteIndex)
      ensures dragged.None? || dragged.value == target ==> tasks == old(tasks) && rows == old(rows)
      ensures dragged.Some? && dragged.value != target ==>
                Renumbered(tasks, Move(old(tasks), dragged.value, target))
    {
      if dragged.Some? && dragged.value != target {
        var draggedIndex := dragged.value;
        var draggedTask := tasks[draggedIndex];
        ghost var moved := Move(tasks, draggedIndex, target);
        tasks := RemoveAt(tasks, draggedIndex);
        tasks := InsertAt(tasks, target, draggedTask);
        assert tasks == moved;
        RenumberOrders();
        ghost var renumbered := tasks;
        RenumberedSortFixed(renumbered, moved);
        Render();
        assert tasks == renumbered;
      }
    }

    /** The renumbering loop: each task's order is set to its 1-based position. */
    method RenumberOrders()
      modifies this`tasks
      ensures Renumbered(tasks, old(tasks))
    {
      var i := 0;
      while i < |tasks|
        invariant 0 <= i <= |tasks| == |old(tasks)|
        invariant forall k :: 0 <= k < i ==> tasks[k] == old(tasks)[k].(order := k + 1)
        invariant forall k :: i <= k < |tasks| ==> tasks[k] == old(tasks)[k]
      {
        tasks := tasks[i := tasks[i].(order := i + 1)];
        i := i + 1;
      }
    }
  }
}
