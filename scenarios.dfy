/** What a caller of the controller can conclude from its contracts alone. */
module Scenarios {

  import opened Wrappers
  import opened TaskList
  import opened Controller

  /** A page that has loaded the two tasks `a` (order 1) and `b` (order 2). */
  method LoadedPage(a: Task, b: Task) returns (page: TaskListController)
    requires a.order == 1 && b.order == 2
    ensures fresh(page) && page.Valid() && page.tasks == [a, b]
    ensures page.taskToEditIndex == None
  {
    page := new TaskListController();
    assert Sorted([a, b]);
    SortSortedIdentity([a, b]);
    page.Load(Some([a, b]));
  }

  /** Dragging the first row onto the second swaps the tasks and renumbers them 1 and 2. */
  method DragSwaps()
  {
    var a := Task(Some(1), "A", 10.0, "2025-01-01", 1);
    var b := Task(Some(2), "B", 2500.0, "2025-02-01", 2);
    var page := LoadedPage(a, b);
    assert page.rows[1].highCost && !page.rows[0].highCost;
    page.Drop(Some(0), 1);
    assert MoveSource(0, 1, 0) == 1 && MoveSource(0, 1, 1) == 0;
    assert page.tasks == [b.(order := 1), a.(order := 2)];
  }

  /** A new task named like an existing one is refused and nothing changes. */
  method DuplicateRefused()
  {
    var a := Task(Some(1), "A", 10.0, "2025-01-01", 1);
    var b := Task(Some(2), "B", 2500.0, "2025-02-01", 2);
    var page := LoadedPage(a, b);
    assert page.tasks[0].name == "A";
    var outcome := page.Submit("A", 5.0, "2025-03-01", None);
    assert outcome == DuplicateName;
    assert page.tasks == [a, b];
  }
}
