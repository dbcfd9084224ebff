/**
 * The task list as plain values: the task record, the rendered row, and the
 * list operations that the page's event handlers perform on the module-level
 * `tasks` array (splice, push, index assignment, sort by `order`, the
 * duplicate-name test and building the table rows).
 */
module TaskList {

  import opened Wrappers

  /** A task as the Task Store API returns it and as the page keeps it.
      `id` is None for a record the store has not numbered (the body of a
      create request, or a reply without an `id` field). */
  datatype Task = Task(id: Option<int>, name: string, cost: real, deadline: string, order: int)

  /** One row of the rendered table: the position it was rendered at (its
      `data-index`), the task it shows, and whether it carries the high-cost marker. */
  datatype Row = Row(index: nat, task: Task, highCost: bool)

  /** Rows whose cost reaches this value get the `high-cost` class. */
  const HIGH_COST: real := 1000.0

  /** JavaScript truthiness of `createdTask.id` for a numeric id. */
  function HasId(t: Task): (b: bool)
    ensures t.id.None? ==> !b                        // a missing id is undefined, falsy
    ensures t.id == Some(0) ==> !b                   // 0 is falsy
    ensures t.id.Some? && t.id.value != 0 ==> b      // any other number is truthy
  {
    t.id.Some? && t.id.value != 0
  }

  // ---------------------------------------------------------------------------
  // Duplicate-name guard: is the name used by any task other than the one being edited?
  // ---------------------------------------------------------------------------

  /** `some` scanning from index `from` on. */
  function NameTakenFrom(s: seq<Task>, name: string, editing: Option<nat>, from: nat): (b: bool)
    requires from <= |s|
    ensures b <==> exists i :: from <= i < |s| && s[i].name == name && editing != Some(i)
    decreases |s| - from
  {
    if from == |s| then false
    else (s[from].name == name && editing != Some(from)) || NameTakenFrom(s, name, editing, from + 1)
  }

  /** Whether a task at an index other than `editing` already has exactly this
      name (case-sensitive, character by character). */
  function NameTaken(s: seq<Task>, name: string, editing: Option<nat>): (b: bool)
    ensures b <==> exists i :: 0 <= i < |s| && s[i].name == name && editing != Some(i)
  {
    NameTakenFrom(s, name, editing, 0)
  }

  /** No two tasks share a name. */
  ghost predicate UniqueNames(s: seq<Task>)
  {
    forall i, j :: 0 <= i < j < |s| ==> s[i].name != s[j].name
  }

  // ---------------------------------------------------------------------------
  // Edit in place: the entry being edited is replaced, keeping its id and order
  // ---------------------------------------------------------------------------

  /** The record the edit path builds from the form and the task being edited. */
  function EditedTask(t: Task, name: string, cost: real, deadline: string): (r: Task)
    ensures r.id == t.id && r.order == t.order
    ensures r.name == name && r.cost == cost && r.deadline == deadline
    ensures name == t.name && cost == t.cost && deadline == t.deadline ==> r == t
  {
    Task(t.id, name, cost, deadline, t.order)
  }

  /** Accepting an edit keeps the names unique. */
  lemma EditKeepsNamesUnique(s: seq<Task>, i: nat, name: string, cost: real, deadline: string)
    requires i < |s| && UniqueNames(s)
    requires !NameTaken(s, name, Some(i))
    ensures UniqueNames(s[i := EditedTask(s[i], name, cost, deadline)])
  {
  }

  // ---------------------------------------------------------------------------
  // Sorting by order, ascending and stable, as Array.prototype.sort is
  // ---------------------------------------------------------------------------

  /** Non-decreasing by `order`. */
  ghost predicate Sorted(s: seq<Task>)
  {
    forall i, j :: 0 <= i < j < |s| ==> s[i].order <= s[j].order
  }

  /** A task no later than every task of a sorted list can go in front of it. */
  lemma SortedCons(a: Task, s: seq<Task>)
    ensures Sorted(s) && (forall t :: t in s ==> a.order <= t.order) ==> Sorted([a] + s)
  {
  }

  /** Puts `x` after every task whose order is at most its own. */
  function Insert(x: Task, s: seq<Task>): (r: seq<Task>)
    ensures |r| == |s| + 1
    ensures multiset(r) == multiset(s) + multiset{x}
  {
    if s == [] then [x]
    else if x.order < s[0].order then [x] + s
    else
      assert s == [s[0]] + s[1..];
      [s[0]] + Insert(x, s[1..])
  }

  /** Inserting into a sorted list gives a sorted list. */
  lemma {:induction false} InsertSorted(x: Task, s: seq<Task>)
    requires Sorted(s)
    ensures Sorted(Insert(x, s))
  {
    if s == [] {
    } else if x.order < s[0].order {
      forall t | t in s ensures x.order <= t.order {
        var i :| 0 <= i < |s| && s[i] == t;
      }
      SortedCons(x, s);
    } else {
      var rest := Insert(x, s[1..]);
      InsertSorted(x, s[1..]);
      forall t | t in rest ensures s[0].order <= t.order {
        assert t in multiset(rest);
        if t != x {
          assert t in multiset(s[1..]);
          var i :| 0 <= i < |s[1..]| && s[1..][i] == t;
          assert s[i + 1] == t;
        }
      }
      SortedCons(s[0], rest);
    }
  }

  /** The stable sort by `order`: insertion of each task in turn. */
  function Sort(s: seq<Task>): (r: seq<Task>)
    ensures |r| == |s|
    ensures multiset(r) == multiset(s)
    ensures Sorted(r)
  {
    if s == [] then []
    else
      assert s == s[..|s| - 1] + [s[|s| - 1]];
      var init := Sort(s[..|s| - 1]);
      InsertSorted(s[|s| - 1], init);
      Insert(s[|s| - 1], init)
  }

  /** Inserting a task whose order is at least every other order appends it. */
  lemma {:induction false} InsertAfterAll(x: Task, s: seq<Task>)
    requires forall k :: 0 <= k < |s| ==> s[k].order <= x.order
    ensures Insert(x, s) == s + [x]
  {
    if s != [] {
      assert s[0].order <= x.order;
      InsertAfterAll(x, s[1..]);
      assert s == [s[0]] + s[1..];
    }
  }

  /** Sorting a list that is already sorted leaves it as it is. */
  lemma {:induction false} SortSortedIdentity(s: seq<Task>)
    requires Sorted(s)
    ensures Sort(s) == s
  {
    if s != [] {
      var init := s[..|s| - 1];
      SortSortedIdentity(init);
      InsertAfterAll(s[|s| - 1], init);
      assert init + [s[|s| - 1]] == s;
    }
  }

  /** Sorting a sorted list with one task pushed on the end inserts that task. */
  lemma SortAppend(s: seq<Task>, x: Task)
    requires Sorted(s)
    ensures Sort(s + [x]) == Insert(x, s)
  {
    assert (s + [x])[..|s|] == s;
    SortSortedIdentity(s);
  }

  /** The tasks of `s` with order `k`, in list order. */
  function WithOrder(s: seq<Task>, k: int): (r: seq<Task>)
  {
    if s == [] then []
    else (if s[0].order == k then [s[0]] else []) + WithOrder(s[1..], k)
  }

  lemma {:induction false} WithOrderConcat(a: seq<Task>, b: seq<Task>, k: int)
    ensures WithOrder(a + b, k) == WithOrder(a, k) + WithOrder(b, k)
  {
    if a == [] {
      assert a + b == b;
    } else {
      var h := if a[0].order == k then [a[0]] else [];
      assert (a + b)[0] == a[0] && (a + b)[1..] == a[1..] + b;
      WithOrderCons(a + b, k);
      WithOrderCons(a, k);
      WithOrderConcat(a[1..], b, k);
      assert h + (WithOrder(a[1..], k) + WithOrder(b, k)) == (h + WithOrder(a[1..], k)) + WithOrder(b, k);
    }
  }

  /** A sorted list has no task of order k after a task of greater order. */
  lemma {:induction false} WithOrderAbove(s: seq<Task>, k: int)
    requires Sorted(s) && s != [] && k < s[0].order
    ensures WithOrder(s, k) == []
  {
    if |s| > 1 {
      WithOrderAbove(s[1..], k);
    }
  }

  /** Insertion in front of a sorted list whose head has a greater order. */
  lemma InsertStableFront(x: Task, s: seq<Task>, k: int)
    requires Sorted(s) && s != [] && x.order < s[0].order
    ensures WithOrder([x] + s, k) == WithOrder(s, k) + (if x.order == k then [x] else [])
  {
    var r := [x] + s;
    assert r[0] == x && r[1..] == s;
    WithOrderCons(r, k);
    if x.order == k {
      WithOrderAbove(s, k);
    }
  }

  /** Insertion past the head: the head's contribution comes first on both sides. */
  lemma InsertStableStep(x: Task, h: Task, tail: seq<Task>, rest: seq<Task>, k: int)
    requires WithOrder(tail, k) == WithOrder(rest, k) + (if x.order == k then [x] else [])
    ensures WithOrder([h] + tail, k) == WithOrder([h] + rest, k) + (if x.order == k then [x] else [])
  {
    var r, s := [h] + tail, [h] + rest;
    assert r[0] == h && r[1..] == tail;
    assert s[0] == h && s[1..] == rest;
    WithOrderCons(r, k);
    WithOrderCons(s, k);
  }

  /** Insertion keeps the order of the tasks that share x's order and puts x last among them. */
  lemma {:induction false} InsertStable(x: Task, s: seq<Task>, k: int)
    requires Sorted(s)
    ensures WithOrder(Insert(x, s), k) == WithOrder(s, k) + (if x.order == k then [x] else [])
  {
    if s == [] {
    } else if x.order < s[0].order {
      InsertStableFront(x, s, k);
    } else {
      assert s == [s[0]] + s[1..];
      InsertStable(x, s[1..], k);
      InsertStableStep(x, s[0], Insert(x, s[1..]), s[1..], k);
    }
  }

  /** The sort is stable: tasks with equal order keep their relative positions. */
  lemma {:induction false} SortStable(s: seq<Task>, k: int)
    ensures WithOrder(Sort(s), k) == WithOrder(s, k)
  {
    if s != [] {
      var init, last := s[..|s| - 1], s[|s| - 1];
      assert s == init + [last];
      assert [last][1..] == [];
      calc {
        WithOrder(Sort(s), k);
        WithOrder(Insert(last, Sort(init)), k);
        { InsertStable(last, Sort(init), k); }
        WithOrder(Sort(init), k) + (if last.order == k then [last] else []);
        { SortStable(init, k); }
        WithOrder(init, k) + WithOrder([last], k);
        { WithOrderConcat(init, [last], k); }
        WithOrder(s, k);
      }
    }
  }

  /** One step of WithOrder on a non-empty list. */
  lemma WithOrderCons(a: seq<Task>, k: int)
    requires a != []
    ensures WithOrder(a, k) == (if a[0].order == k then [a[0]] else []) + WithOrder(a[1..], k)
  {
  }

  /** Two sorted non-empty lists with the same runs at both head orders start with the same task. */
  lemma SortedRunsHead(a: seq<Task>, b: seq<Task>)
    requires Sorted(a) && Sorted(b) && a != [] && b != []
    requires WithOrder(a, a[0].order) == WithOrder(b, a[0].order)
    requires WithOrder(a, b[0].order) == WithOrder(b, b[0].order)
    ensures a[0] == b[0]
  {
    WithOrderCons(a, a[0].order);
    WithOrderCons(b, b[0].order);
    if a[0].order < b[0].order {
      WithOrderAbove(b, a[0].order);
    } else if b[0].order < a[0].order {
      WithOrderAbove(a, b[0].order);
    } else {
      WithOrderCons(b, a[0].order);
      assert WithOrder(a, a[0].order)[0] == a[0];
      assert WithOrder(b, a[0].order)[0] == b[0];
    }
  }

  /** Equal runs of two lists with the same head stay equal on their tails. */
  lemma RunsTail(a: seq<Task>, b: seq<Task>, k: int)
    requires a != [] && b != [] && a[0] == b[0]
    requires WithOrder(a, k) == WithOrder(b, k)
    ensures WithOrder(a[1..], k) == WithOrder(b[1..], k)
  {
    var head := if a[0].order == k then [a[0]] else [];
    WithOrderCons(a, k);
    WithOrderCons(b, k);
    assert WithOrder(a[1..], k) == WithOrder(a, k)[|head|..];
    assert WithOrder(b[1..], k) == WithOrder(b, k)[|head|..];
  }

  /** A sorted list is determined by its runs of equal order. */
  lemma {:induction false} SortedRunsDetermine(a: seq<Task>, b: seq<Task>)
    requires Sorted(a) && Sorted(b)
    requires forall k :: WithOrder(a, k) == WithOrder(b, k)
    ensures a == b
    decreases |a|
  {
    if a != [] {
      assert WithOrder(a, a[0].order) == WithOrder(b, a[0].order);
      WithOrderCons(a, a[0].order);
    }
    if b != [] {
      assert WithOrder(a, b[0].order) == WithOrder(b, b[0].order);
      WithOrderCons(b, b[0].order);
    }
    if a != [] && b != [] {
      SortedRunsHead(a, b);
      forall k ensures WithOrder(a[1..], k) == WithOrder(b[1..], k) {
        RunsTail(a, b, k);
      }
      SortedRunsDetermine(a[1..], b[1..]);
      assert a == [a[0]] + a[1..] && b == [b[0]] + b[1..];
    }
  }

  /** Sort is the only stable sort by order: any sorted list that keeps the
      relative order of every run of equal orders is Sort(s). */
  lemma StableSortUnique(s: seq<Task>, r: seq<Task>)
    requires Sorted(r)
    requires forall k :: WithOrder(r, k) == WithOrder(s, k)
    ensures r == Sort(s)
  {
    forall k ensures WithOrder(r, k) == WithOrder(Sort(s), k) {
      SortStable(s, k);
    }
    SortedRunsDetermine(r, Sort(s));
  }

  /** Pushing a task whose name is new onto a list of unique names, then sorting, keeps names unique. */
  lemma InsertKeepsNamesUnique(x: Task, s: seq<Task>)
    requires UniqueNames(s)
    requires !NameTaken(s, x.name, None)
    ensures UniqueNames(Insert(x, s))
  {
    InsertFreshName(x, s);
  }

  lemma {:induction false} InsertFreshName(x: Task, s: seq<Task>)
    requires UniqueNames(s)
    requires forall k :: 0 <= k < |s| ==> s[k].name != x.name
    ensures UniqueNames(Insert(x, s))
  {
    if s != [] && x.order >= s[0].order {
      var rest := Insert(x, s[1..]);
      InsertFreshName(x, s[1..]);
      var r := [s[0]] + rest;
      forall j | 0 < j < |r| ensures r[0].name != r[j].name {
        assert r[j] in multiset(rest);
        assert r[j] in multiset(s[1..]) + multiset{x};
        if r[j] != x {
          assert r[j] in s[1..];
          var m :| 0 <= m < |s[1..]| && s[1..][m] == r[j];
          assert s[m + 1] == r[j];
        }
      }
    }
  }

  // ---------------------------------------------------------------------------
  // splice: removing one element and inserting one element
  // ---------------------------------------------------------------------------

  /** tasks.splice(i, 1) */
  function RemoveAt(s: seq<Task>, i: nat): (r: seq<Task>)
    requires i < |s|
    ensures |r| == |s| - 1
    ensures forall k :: 0 <= k < i ==> r[k] == s[k]
    ensures forall k :: i <= k < |r| ==> r[k] == s[k + 1]
    ensures multiset(r) == multiset(s) - multiset{s[i]}
  {
    assert s == s[..i] + [s[i]] + s[i + 1..];
    s[..i] + s[i + 1..]
  }

  /** Removing a task keeps a sorted list sorted. */
  lemma RemoveAtSorted(s: seq<Task>, i: nat)
    requires i < |s| && Sorted(s)
    ensures Sorted(RemoveAt(s, i))
  {
  }

  /** tasks.splice(i, 0, x) */
  function InsertAt(s: seq<Task>, i: nat, x: Task): (r: seq<Task>)
    requires i <= |s|
    ensures |r| == |s| + 1 && r[i] == x
    ensures forall k :: 0 <= k < i ==> r[k] == s[k]
    ensures forall k :: i < k < |r| ==> r[k] == s[k - 1]
    ensures multiset(r) == multiset(s) + multiset{x}
  {
    assert s == s[..i] + s[i..];
    s[..i] + [x] + s[i..]
  }

  /** The index of the old list that position k of the list after a move holds. */
  function MoveSource(from: nat, to: nat, k: nat): nat
  {
    if k == to then from
    else if from < to && from <= k < to then k + 1
    else if to < from && to < k <= from then k - 1
    else k
  }

  /** Drag-and-drop: take the task at `from` out, put it back in at `to`. */
  function Move(s: seq<Task>, from: nat, to: nat): (r: seq<Task>)
    requires from < |s| && to < |s|
    ensures |r| == |s| && r[to] == s[from]
    ensures forall k :: 0 <= k < |s| ==> r[k] == s[MoveSource(from, to, k)]
    ensures multiset(r) == multiset(s)
  {
    InsertAt(RemoveAt(s, from), to, s[from])
  }

  // ---------------------------------------------------------------------------
  // Renumbering: every task's order becomes its 1-based position
  // ---------------------------------------------------------------------------

  /** `r` is `s` with every order replaced by the 1-based position. */
  ghost predicate Renumbered(r: seq<Task>, s: seq<Task>)
  {
    |r| == |s| && forall i :: 0 <= i < |r| ==> r[i] == s[i].(order := i + 1)
  }

  /** Every task's order is its 1-based position. */
  ghost predicate DenselyNumbered(s: seq<Task>)
  {
    forall i :: 0 <= i < |s| ==> s[i].order == i + 1
  }

  /** The tasks with their orders blanked out: what a reorder must only permute. */
  function Unnumbered(s: seq<Task>): (r: seq<Task>)
  {
    seq(|s|, i requires 0 <= i < |s| => s[i].(order := 0))
  }

  /** The set {1, ..., n}. */
  function OneTo(n: nat): (r: set<int>)
    ensures forall k :: k in r <==> 1 <= k <= n
  {
    if n == 0 then {} else OneTo(n - 1) + {n}
  }

  /** A densely numbered list holds exactly the orders 1..N, strictly increasing,
      so the sort that follows a drop does not move anything. */
  lemma DenseOrders(s: seq<Task>)
    requires DenselyNumbered(s)
    ensures (set t | t in s :: t.order) == OneTo(|s|)
    ensures forall i, j :: 0 <= i < j < |s| ==> s[i].order < s[j].order
    ensures Sort(s) == s
  {
    var orders := set t | t in s :: t.order;
    forall k | k in OneTo(|s|) ensures k in orders {
      assert s[k - 1] in s;
    }
    forall o | o in orders ensures o in OneTo(|s|) {
      var t :| t in s && t.order == o;
      var i :| 0 <= i < |s| && s[i] == t;
    }
    assert Sorted(s);
    SortSortedIdentity(s);
  }

  /** Blanking the orders commutes with the move, position by position. */
  lemma UnnumberedMoveAt(s: seq<Task>, from: nat, to: nat, k: nat)
    requires from < |s| && to < |s| && k < |s|
    ensures Unnumbered(Move(s, from, to))[k] == Move(Unnumbered(s), from, to)[k]
  {
    var j := MoveSource(from, to, k);
    assert Move(s, from, to)[k] == s[j];
    assert Move(Unnumbered(s), from, to)[k] == Unnumbered(s)[j];
  }

  /** Blanking the orders commutes with the move. */
  lemma UnnumberedMove(s: seq<Task>, from: nat, to: nat)
    requires from < |s| && to < |s|
    ensures Unnumbered(Move(s, from, to)) == Move(Unnumbered(s), from, to)
  {
    var lhs, rhs := Unnumbered(Move(s, from, to)), Move(Unnumbered(s), from, to);
    assert |lhs| == |s| == |rhs|;
    forall k | 0 <= k < |s| ensures lhs[k] == rhs[k] {
      UnnumberedMoveAt(s, from, to, k);
    }
  }

  /** Renumbering changes the orders and nothing else, and numbers densely. */
  lemma RenumberedUnnumbered(r: seq<Task>, m: seq<Task>)
    requires Renumbered(r, m)
    ensures Unnumbered(r) == Unnumbered(m) && DenselyNumbered(r)
  {
    forall k | 0 <= k < |r| ensures Unnumbered(r)[k] == Unnumbered(m)[k] {
      assert r[k] == m[k].(order := k + 1);
    }
  }

  /** The sort that follows a drop leaves the renumbered list as it is. */
  lemma RenumberedSortFixed(r: seq<Task>, m: seq<Task>)
    requires Renumbered(r, m)
    ensures Sort(r) == r
  {
    RenumberedUnnumbered(r, m);
    DenseOrders(r);
  }

  /** What a drop does to the list: same length, the dragged task at the target,
      the same tasks apart from their orders, and orders 1..N by position. */
  lemma DropSpec(s: seq<Task>, from: nat, to: nat, r: seq<Task>)
    requires from < |s| && to < |s|
    requires Renumbered(r, Move(s, from, to))
    ensures |r| == |s| && r[to] == s[from].(order := to + 1)
    ensures multiset(Unnumbered(r)) == multiset(Unnumbered(s))
    ensures DenselyNumbered(r)
  {
    var m := Move(s, from, to);
    assert r[to] == m[to].(order := to + 1);
    RenumberedUnnumbered(r, m);
    UnnumberedMove(s, from, to);
  }

  // ---------------------------------------------------------------------------
  // Rendering: one row per task, flagged high-cost from a cost of 1000 on
  // ---------------------------------------------------------------------------

  /** `rows` is the table the render loop produces for `s`. */
  ghost predicate Shows(rows: seq<Row>, s: seq<Task>)
  {
    |rows| == |s| &&
    forall i :: 0 <= i < |rows| ==>
      rows[i].index == i && rows[i].task == s[i] && (rows[i].highCost <==> s[i].cost >= HIGH_COST)
  }

  /** The render loop: one new table row per task, in list order. */
  method RenderRows(s: seq<Task>) returns (rows: seq<Row>)
    ensures Shows(rows, s)
  {
    rows := [];
    var index := 0;
    while index < |s|
      invariant 0 <= index <= |s|
      invariant Shows(rows, s[..index])
    {
      var task := s[index];
      var highCost := false;
      if task.cost >= HIGH_COST {
        highCost := true;
      }
      rows := rows + [Row(index, task, highCost)];
      index := index + 1;
    }
    assert s[..index] == s;
  }
}
