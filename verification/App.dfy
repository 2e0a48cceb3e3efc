/** The App component's state and handlers: one task list, replaced or
    updated in place by each handler, and sorted in place on every render. */
module App {
  import opened Tasks
  import opened Counting
  import opened Display

  class TaskList {
    /** The `tasks` state. After each render it is in display order, so
        the index a handler receives is a position in this very sequence. */
    var tasks: seq<Task>

    /** `useState<Task[]>([])`: the session starts with no tasks. */
    constructor ()
      ensures tasks == []
    {
      tasks := [];
    }

    /** `tasks.sort(...)`: reorders the stored list in place, incomplete
        tasks first. The tasks held do not change, incomplete tasks keep
        their relative order, and completed tasks keep theirs too (the
        model's choice of a stable partition). */
    method SortTasks()
      modifies this
      ensures |tasks| == |old(tasks)| && multiset(tasks) == multiset(old(tasks))
      ensures Partitioned(tasks)
      ensures Group(tasks, false) == Group(old(tasks), false)
      ensures tasks == DisplayOrder(old(tasks))
    {
      DisplayOrderIsStablePartition(tasks);
      tasks := DisplayOrder(tasks);
    }

    /** One render: the completed count is taken from the list as stored,
        the list is then sorted in place, and the view shows the total, the
        count and, when there are no tasks, the empty-list message. */
    method Render() returns (total: nat, completed: nat, isEmpty: bool)
      modifies this
      ensures tasks == DisplayOrder(old(tasks))
      ensures total == |tasks| == |old(tasks)|
      ensures completed == CompletedCount(old(tasks)) == CompletedCount(tasks)
      ensures completed <= total
      ensures isEmpty <==> tasks == []
    {
      ghost var before := tasks;
      completed := CompletedCount(tasks);
      SortTasks();
      CountPermutationInvariant(before, tasks);
      total := |tasks|;
      isEmpty := |tasks| == 0;
    }

    /** handleCreateNewTast: appends a new incomplete task whose id is 1 for
        an empty list, else one more than the last stored task's id. */
    method HandleCreateNewTask(description: string)
      modifies this
      ensures tasks == AppendTask(old(tasks), description)
      ensures |tasks| == |old(tasks)| + 1 && tasks[..|old(tasks)|] == old(tasks)
      ensures CompletedCount(tasks) == CompletedCount(old(tasks))
    {
      CountAfterAppend(tasks, description);
      tasks := AppendTask(tasks, description);
    }

    /** handleCompleteTask: sets the flag of the task at taskIndex. */
    method HandleCompleteTask(taskIndex: int)
      requires 0 <= taskIndex < |tasks|
      modifies this
      ensures tasks == SetCompleted(old(tasks), taskIndex, true)
      ensures CompletedCount(tasks)
           == CompletedCount(old(tasks)) + (if old(tasks)[taskIndex].completed then 0 else 1)
    {
      CountAfterSetCompleted(tasks, taskIndex, true);
      tasks := tasks[taskIndex := tasks[taskIndex].(completed := true)];
    }

    /** handleUncompleteTask: clears the flag of the task at taskIndex. */
    method HandleUncompleteTask(taskIndex: int)
      requires 0 <= taskIndex < |tasks|
      modifies this
      ensures tasks == SetCompleted(old(tasks), taskIndex, false)
      ensures CompletedCount(tasks)
           == CompletedCount(old(tasks)) - (if old(tasks)[taskIndex].completed then 1 else 0)
    {
      CountAfterSetCompleted(tasks, taskIndex, false);
      tasks := tasks[taskIndex := tasks[taskIndex].(completed := false)];
    }

    /** handleDeleteTask: keeps every task except the one at taskIndex; an
        index outside the list removes nothing. */
    method HandleDeleteTask(taskIndex: int)
      modifies this
      ensures tasks == Delete(old(tasks), taskIndex)
      ensures 0 <= taskIndex < |old(tasks)| ==>
        |tasks| == |old(tasks)| - 1 &&
        CompletedCount(tasks) == CompletedCount(old(tasks)) - (if old(tasks)[taskIndex].completed then 1 else 0)
      ensures !(0 <= taskIndex < |old(tasks)|) ==> tasks == old(tasks)
    {
      if 0 <= taskIndex < |tasks| {
        CountAfterDelete(tasks, taskIndex);
      }
      tasks := Delete(tasks, taskIndex);
    }
  }

  /** The opening of a session: create "Buy milk" and "Walk dog", with a
      render after each action. Both are incomplete, so the stored list
      keeps creation order. */
  method OpenSession() returns (list: TaskList)
    ensures fresh(list)
    ensures list.tasks == [Task(1, "Buy milk", false), Task(2, "Walk dog", false)]
  {
    var milk, dog := Task(1, "Buy milk", false), Task(2, "Walk dog", false);
    list := new TaskList();
    var total, completed, isEmpty := list.Render();
    list.HandleCreateNewTask("Buy milk");
    assert list.tasks == [milk];
    DisplayOrderIdempotent(list.tasks);
    total, completed, isEmpty := list.Render();
    assert list.tasks == [milk];
    list.HandleCreateNewTask("Walk dog");
    assert list.tasks == [milk, dog];
    DisplayOrderOfTwo(milk, dog);
    total, completed, isEmpty := list.Render();
  }

  /** A session driven through the handlers as the page drives them, with a
      render after every action: create "Buy milk", create "Walk dog",
      complete the first shown task, delete the first shown task. Completing
      moves "Buy milk" behind "Walk dog", so deleting position 0 removes
      "Walk dog" and leaves the completed "Buy milk". */
  method ExampleSession() returns (stored: seq<Task>, total: nat, completed: nat)
    ensures stored == [Task(1, "Buy milk", true)]
    ensures total == 1 && completed == 1
  {
    var milk, dog := Task(1, "Buy milk", true), Task(2, "Walk dog", false);
    var list := OpenSession();
    list.HandleCompleteTask(0);
    assert list.tasks == [milk, dog];
    DisplayOrderOfTwo(milk, dog);
    var isEmpty;
    total, completed, isEmpty := list.Render();
    assert list.tasks == [dog, milk];
    list.HandleDeleteTask(0);
    assert list.tasks == [milk];
    DisplayOrderIdempotent(list.tasks);
    total, completed, isEmpty := list.Render();
    stored := list.tasks;
  }
}
