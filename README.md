# Smart Task Manager — a Dafny model of the in-memory task table

This project models the core of `task_manager.py`: the `Task` record with its
class-level id counter, and the `TaskManager` that keeps a list of tasks and
offers `add_task`, `view_tasks`, `mark_task_complete` and `delete_task`.

- `wrappers.dfy` (module `Wrappers`): the `Option` type.
- `tasks.dfy` (module `Tasks`): `Date`, `Status` (`Pending`/`Completed`), the `Task`
  record, `MarkComplete` (`Task.mark_complete`), and `DateParser`, the type of the
  date parser, which callers supply.
- `task_list.dfy` (module `TaskList`): the task list as a value. It holds the
  first-match scan (`FindFirst`) and reference definitions of what completing
  (`CompleteFirst`) and deleting (`RemoveFirst`) do to the list. It also holds the
  id invariant (`IdsAscending`, `IdsWithin`) and lemmas relating these.
- `task_manager.dfy` (module `TaskManagement`): class `TaskManager`. Its field
  `tasks: seq<Task>` is `self.tasks`. Its field `taskCounter` is `Task.task_counter`.
  The ghost field `issued` holds every id handed out so far. Each method states
  the new list and counter in terms of the old ones and keeps `Valid()`. `Valid()`
  says that ids in the list ascend, so they are distinct. It also says that they
  were all issued and that every issued id is below the counter.
  `CompleteTwiceThenDelete` is a client run that uses only these contracts.

Outcomes that the program reports with a console message are results here.
`AddTask` returns whether the task was added; `false` stands for "Invalid date format".
`MarkTaskComplete` and `DeleteTask` return whether a task was found.
`ViewTasks` returns the tasks it would print, in order; an empty result stands
for "No tasks available".

The code has no persistence, undo stack, reminder queue, sorting or keyword
search, and nothing reloads or reseeds the counter. The model follows the code
and has none of these either.

## Model

| member | source | states |
|---|---|---|
| `Tasks.MarkComplete` | task_manager.py:18-19 | the status becomes Completed and every other field is kept |
| `TaskList.FindFirst` | task_manager.py:50-51 | the scan's result is the index of a task with the id, and no earlier task has it; it is None exactly when no task has the id |
| `TaskList.CompleteFirstEffect` | task_manager.py:49-55 | completing keeps the length and order, completes just the first matching task, and changes nothing when no task matches |
| `TaskList.CompleteFirstIdempotent` | task_manager.py:49-54 | completing the same id a second time leaves the list as the first time did |
| `TaskList.CompleteFirstKeepsIds` | task_manager.py:50-54 | completing changes no id, so ascending ids and the id bound survive it |
| `TaskList.RemoveFirstAt` | task_manager.py:58-60 | when the first task with the id sits at position k, deleting leaves the tasks before k and after k, in order |
| `TaskList.RemoveFirstAbsent` | task_manager.py:57-63 | deleting an id no task carries leaves the list unchanged |
| `TaskList.RemoveFirstEffect` | task_manager.py:57-63 | deleting removes exactly the first matching task: the length drops by one and the rest keep their order; no match changes nothing |
| `TaskList.RemoveAtKeepsIds` | task_manager.py:58-60 | removing one element keeps the ids ascending and within their bound |
| `TaskList.RemoveFirstDropsId` | task_manager.py:57-62 | with unique ids, no task carries the deleted id afterwards |
| `TaskManagement.TaskManager.constructor` | task_manager.py:29-30 | a new manager starts with no tasks and the counter at 1 |
| `TaskManagement.TaskManager.NewTask` | task_manager.py:7-16 | a new task takes the counter's value, an id never issued before, with the given fields and status Pending; the counter grows by one |
| `TaskManagement.TaskManager.AddTask` | task_manager.py:32-39 | if the date parses, one task with the next id is appended and earlier tasks are untouched; otherwise list, counter and issued ids are unchanged |
| `TaskManagement.TaskManager.ViewTasks` | task_manager.py:41-47 | shows every task in list order and changes nothing |
| `TaskManagement.TaskManager.MarkTaskComplete` | task_manager.py:49-55 | found exactly when some task has the id; the new list is the reference completion of the old, and the id invariant holds |
| `TaskManagement.TaskManager.DeleteTask` | task_manager.py:57-63 | found exactly when some task has the id; the new list is the old one minus the first match, one shorter when found, no task keeps the id, and the invariant holds |

## Left out

- `main()` and its menu loop, including the `int(...)` conversion of typed ids (task_manager.py:69-113): console I/O.
- The printed success and error messages: they are results (see above).
- `Task.__str__` (task_manager.py:21-22): display formatting.
- The rules by which `datetime.strptime(s, "%Y-%m-%d")` accepts a string: the parser is a parameter of `AddTask`, and `None` stands for its `ValueError`.
- `Task.task_counter` is shared by every `TaskManager` in the process; here one manager owns it, which is all the program uses.
- Tasks are Python objects that `mark_complete` changes in place; here a task is a value and the list element is replaced. No one else holds a task reference in this program, so only aliasing is lost.
- `list.remove(task)` removes the first element equal to `task` (identity by default); each task object is in the list once, so that is the scanned position, which `DeleteTask` removes.
