/**
  The in-memory task table of task_manager.py: the `TaskManager` class and the
  class-level id counter of `Task`, which a single manager owns here.
 */
module TaskManagement {
  import opened Wrappers
  import opened Tasks
  import opened TaskList

  class TaskManager {
    /** `self.tasks`, in insertion order. */
    var tasks: seq<Task>
    /** `Task.task_counter`: the id the next constructed task takes. */
    var taskCounter: int
    /** Every id handed out so far, including those of tasks deleted since. */
    ghost var issued: set<int>

    /**
      Ids in the list are ascending (so distinct), were all handed out, and
      every id handed out lies below the counter.
     */
    ghost predicate Valid()
      reads this
    {
      && 1 <= taskCounter
      && IdsAscending(tasks)
      && IdsWithin(tasks, taskCounter)
      && (forall i :: 0 <= i < |tasks| ==> tasks[i].id in issued)
      && (forall n :: n in issued ==> 1 <= n < taskCounter)
    }

    /** `TaskManager()` with the counter at its initial value 1. */
    constructor ()
      ensures Valid()
      ensures tasks == [] && taskCounter == 1 && issued == {}
    {
      tasks := [];
      taskCounter := 1;
      issued := {};
    }

    /**
      `Task(title, description, priority, due_date)`: the new task takes the
      counter's value, which no earlier task ever had, and the counter moves on.
     */
    method NewTask(title: string, description: string, priority: string, dueDate: Date)
      returns (t: Task)
      requires Valid()
      modifies this`taskCounter, this`issued
      ensures Valid()
      ensures t == Task(old(taskCounter), title, description, priority, dueDate, Pending)
      ensures taskCounter == old(taskCounter) + 1
      ensures t.id !in old(issued) && issued == old(issued) + {t.id}
      ensures IdsWithin(tasks, t.id)
    {
      t := Task(taskCounter, title, description, priority, dueDate, Pending);
      taskCounter := taskCounter + 1;
      issued := issued + {t.id};
    }

    /**
      `add_task`: when the date parses, exactly one new task is appended and
      takes a never-used id; when it does not, nothing changes, the counter included.
     */
    method AddTask(title: string, description: string, priority: string, dueDate: string,
                   parseDate: DateParser)
      returns (added: bool)
      requires Valid()
      modifies this
      ensures Valid()
      ensures added <==> parseDate(dueDate).Some?
      ensures added ==>
        && tasks == old(tasks) + [Task(old(taskCounter), title, description, priority,
                                       parseDate(dueDate).value, Pending)]
        && taskCounter == old(taskCounter) + 1
        && old(taskCounter) !in old(issued)
        && issued == old(issued) + {old(taskCounter)}
      ensures !added ==>
        tasks == old(tasks) && taskCounter == old(taskCounter) && issued == old(issued)
    {
      var parsed := parseDate(dueDate);
      if parsed.None? {
        return false;
      }
      var task := NewTask(title, description, priority, parsed.value);
      tasks := tasks + [task];
      added := true;
    }

    /** `view_tasks`: the tasks shown, in list order; none shown means "No tasks available". */
    method ViewTasks() returns (shown: seq<Task>)
      ensures shown == tasks
    {
      shown := [];
      for i := 0 to |tasks|
        invariant shown == tasks[..i]
      {
        shown := shown + [tasks[i]];
      }
    }

    /**
      `mark_task_complete`: scans for the first task carrying `taskId` and
      completes it; the result says whether one was found.
     */
    method MarkTaskComplete(taskId: int) returns (found: bool)
      requires Valid()
      modifies this`tasks
      ensures Valid()
      ensures found <==> FindFirst(old(tasks), taskId).Some?
      ensures tasks == CompleteFirst(old(tasks), taskId)
    {
      CompleteFirstEffect(tasks, taskId);
      CompleteFirstKeepsIds(tasks, taskId, taskCounter);
      for i := 0 to |tasks|
        invariant tasks == old(tasks)
        invariant forall j :: 0 <= j < i ==> tasks[j].id != taskId
      {
        if tasks[i].id == taskId {
          tasks := tasks[i := MarkComplete(tasks[i])];
          return true;
        }
      }
      return false;
    }

    /**
      `delete_task`: scans for the first task carrying `taskId` and removes it;
      the result says whether one was found.
     */
    method DeleteTask(taskId: int) returns (found: bool)
      requires Valid()
      modifies this`tasks
      ensures Valid()
      ensures found <==> FindFirst(old(tasks), taskId).Some?
      ensures tasks == RemoveFirst(old(tasks), taskId)
      ensures found ==> |tasks| == |old(tasks)| - 1
      ensures forall t :: t in tasks ==> t.id != taskId
    {
      RemoveFirstEffect(tasks, taskId);
      RemoveFirstDropsId(tasks, taskId);
      for i := 0 to |tasks|
        invariant tasks == old(tasks)
        invariant forall j :: 0 <= j < i ==> tasks[j].id != taskId
      {
        if tasks[i].id == taskId {
          RemoveAtKeepsIds(tasks, i, taskCounter);
          tasks := tasks[..i] + tasks[i + 1..];
          return true;
        }
      }
      return false;
    }
  }

  /**
    A client run of the contracts above: add a task, complete it twice, delete
    it, and add another, which does not take the deleted task's id.
   */
  method CompleteTwiceThenDelete(parseDate: DateParser)
    requires parseDate("2030-01-01") == Some(Date(2030, 1, 1))
  {
    var m := new TaskManager();
    var added := m.AddTask("Buy milk", "2%", "Low", "2030-01-01", parseDate);
    assert added && m.tasks == [Task(1, "Buy milk", "2%", "Low", Date(2030, 1, 1), Pending)];
    var found := m.MarkTaskComplete(1);
    assert found && m.tasks == [Task(1, "Buy milk", "2%", "Low", Date(2030, 1, 1), Completed)];
    var once := m.tasks;
    found := m.MarkTaskComplete(1);
    assert found && m.tasks == once;
    found := m.DeleteTask(1);
    assert found && m.tasks == [];
    added := m.AddTask("Buy bread", "", "High", "2030-01-01", parseDate);
    assert added && m.tasks[0].id == 2;
  }
}
