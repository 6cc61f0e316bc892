/**
  One task record (the `Task` class of task_manager.py without its id counter,
  which the task manager owns; see TaskManagement).
 */
module Tasks {
  import opened Wrappers

  /** A calendar date, the value `strptime(...).date()` produces. */
  datatype Date = Date(year: int, month: int, day: int)

  /** The two status strings the program ever stores: "Pending" and "Completed". */
  datatype Status = Pending | Completed

  /**
    A task. The priority is an open string domain: any text is accepted.
   */
  datatype Task = Task(
    id: int,
    title: string,
    description: string,
    priority: string,
    dueDate: Date,
    status: Status)

  /**
    The date parser (`datetime.strptime(s, "%Y-%m-%d")`): its acceptance rules
    are not modelled, so callers pass it in. `None` stands for the ValueError.
   */
  type DateParser = string -> Option<Date>

  /** `Task.mark_complete`: the status becomes Completed and nothing else changes. */
  function MarkComplete(t: Task): (r: Task)
    ensures r.status == Completed
    ensures r.(status := t.status) == t
  {
    t.(status := Completed)
  }
}
