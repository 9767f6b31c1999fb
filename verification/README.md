# MindThreads task tree, modelled in Dafny

MindThreads is a single-screen to-do app. Its logic is a small store of
`Task` and `TaskList` records kept by SwiftData, plus the actions that the
main view (`ContentView`) and each row (`TaskRowView`) perform on it. This
project models that logic as pure functions over an immutable store and
proves what each action does to it.

- `TaskStore` (`task_store.dfy`) holds the records. The store is
  `map<TaskId, Task>` plus `map<ListId, TaskList>`. `parentTask` and `list`
  are stored as identifiers. Their inverses, `subtasks` and `tasks`, are
  computed (`Subtasks`, `TasksOf`) and never stored. `Valid` is the
  referential integrity the app relies on:
  - every parent chain ends at a root task (`Acyclic`, via `AtDepth`);
  - every `list` reference names a stored list.
- `Subtrees` (`subtrees.dfy`) defines "the parent chain of `x` reaches `t`"
  (`Reaches`) and the store left once the subtree of `t` is removed
  (`Prune`). It is the reference definition for the recursive delete.
- `TaskRow` (`task_row.dfy`) models the row's store logic:
  - the clamped indentation;
  - trimming against Foundation's `whitespacesAndNewlines` set;
  - completion toggling;
  - duplication.
- `ContentView` (`content_view.dfy`) models the main view's store logic:
  - the "Main" list lookup;
  - the main-list filter;
  - the default list;
  - `addNewTask` and `createTaskBelow`;
  - the recursive `deleteTaskAndSubtasks`.
- `Focus` (`focus.dfy`) pairs the store with the shared `focusedTaskID`.
  Every assignment to the focus goes through `SetFocus`, which also runs the
  reaction of the row that loses focus: its title is trimmed. The module
  also holds the focus-moving actions: the floating add/dismiss button,
  return key, duplicate, `deleteSpecificTask` and `deleteTask(at:)`.

The recursive delete needs the store to be acyclic: a cycle of `parentTask`
references would make `deleteTaskAndSubtasks` recurse forever. The Swift
code assumes acyclicity silently. Here it is the precondition `Acyclic`, and
every operation that creates, changes or deletes tasks or lists is proved to
keep `Valid`. For most store and focus actions a `...KeepsValid` lemma
proves it. `DuplicateIsChildlessSibling` and `CreateTaskBelowIsSibling` cover
the duplicate and the new sibling. `PruneKeepsValid` and the contracts of
`DeleteSpecificTask` and `DeleteTasksAt` cover the deletes, which take
effect through `CommitDeletes`.

The model follows the code in three places where the app's intent might
suggest otherwise:
- `duplicateTask` clamps the copied indentation to [0, 5]. It does not copy
  it unchanged.
- `indentationLevel` is any `Int`. It is not kept non-negative.
- `createDefaultListIfNeeded` creates "Main" only when the list query is
  empty, that is, when there is no list at all. If the lists are not empty but none is named "Main", no list named
  "Main" exists afterwards, and `addNewTask` does nothing.

## Model

| member | source | states |
|---|---|---|
| TaskStore.NewTask | MindThreads/MindThreads/Task.swift:24-30 | a new task has the given title, completion, date and level, and no parent and no list |
| TaskStore.NewTaskList | MindThreads/MindThreads/TaskList.swift:19-22 | a new list has the given name |
| TaskStore.FreshId | MindThreads/MindThreads/Task.swift:25 | the identifier of a newly created record differs from every identifier in use |
| TaskStore.Subtasks | MindThreads/MindThreads/Task.swift:20-21 | a task is among the subtasks of `p` exactly when it is stored and its parent is `p` |
| TaskStore.TasksOf | MindThreads/MindThreads/TaskList.swift:17 | a task is among the `tasks` of `l` exactly when it is stored and its `list` is `l` |
| TaskStore.AddTaskKeepsValid | MindThreads/MindThreads/Task.swift:20-22 | inserting a task whose parent and list are stored keeps every parent chain finite and every list reference resolved |
| TaskStore.UpdateTaskKeepsValid | MindThreads/MindThreads/Task.swift:14-17 | changing title, completion, date or indentation of a task keeps the store valid |
| TaskStore.IndentationUnconstrained | MindThreads/MindThreads/Task.swift:17 | any indentation level, whatever the parent depth, is allowed in a valid store |
| TaskStore.AddListKeepsValid | MindThreads/MindThreads/TaskList.swift:14 | a list with any name, even one already in use, can be added to a valid store |
| TaskStore.NewListHasNoTasks | MindThreads/MindThreads/TaskList.swift:17-22 | a list under a fresh identifier has an empty `tasks` |
| TaskStore.SubtasksAfterAddTask | MindThreads/MindThreads/Task.swift:20-21 | after an insertion, only the new task's parent gains a subtask, namely the new task |
| TaskStore.TasksOfAfterAddTask | MindThreads/MindThreads/TaskList.swift:17 | after an insertion, only the new task's list gains a task, namely the new task |
| TaskStore.SubtasksInverse | MindThreads/MindThreads/Task.swift:20-21 | in a valid store, a task is among the subtasks of `p` exactly when its parent is `p`, and then `p` is stored |
| TaskStore.TasksOfInverse | MindThreads/MindThreads/TaskList.swift:17 | in a valid store, a task is among the `tasks` of `l` exactly when its `list` is `l`, and then `l` is stored |
| Subtrees.ReachesIsDeeper | MindThreads/MindThreads/Task.swift:20 | a task below `a` sits strictly deeper than `a`, so no task is below its own descendant |
| Subtrees.SubtreeSplit | MindThreads/MindThreads/ContentView.swift:214-225 | the subtree of `t` is `t` plus the subtrees of its subtasks, the decomposition the recursion follows |
| Subtrees.SubtreeShrinks | MindThreads/MindThreads/ContentView.swift:219-221 | the subtree of a subtask is strictly smaller than its parent's, so the recursion terminates |
| Subtrees.PruneRemovesExactlySubtree | MindThreads/MindThreads/ContentView.swift:214-225 | after the cascading delete of `t`, neither `t` nor any task below it remains, and every other task remains unchanged |
| Subtrees.PruneKeepsValid | MindThreads/MindThreads/ContentView.swift:214-225 | the cascading delete leaves no dangling parent reference |
| Subtrees.ReachesTransitive | MindThreads/MindThreads/Task.swift:20 | a task below a task that lies below some roots lies below those roots |
| Subtrees.PruneTwice | MindThreads/MindThreads/ContentView.swift:185-192 | deleting one subtree after others equals deleting them all at once |
| Subtrees.PruneAbsorbs | MindThreads/MindThreads/ContentView.swift:185-192 | deleting a task already removed with an earlier subtree changes nothing |
| TaskRow.SafeIndentationLevel | MindThreads/MindThreads/TaskRowView.swift:28-30 | the display level lies in [0, 5]: equal to the stored level inside that range, 0 below it, 5 above it |
| TaskRow.SafeIndentationIdempotent | MindThreads/MindThreads/TaskRowView.swift:28-30 | clamping a clamped level changes nothing |
| TaskRow.Trim | MindThreads/MindThreads/TaskRowView.swift:63 | the trimmed title neither starts nor ends with whitespace, and only whitespace was cut from the two ends |
| TaskRow.TrimIsOnlyTrimmedCut | MindThreads/MindThreads/TaskRowView.swift:63 | any part of the title obtained by cutting only whitespace from the ends, and not starting or ending with whitespace, is the trimmed title |
| TaskRow.TrimIdempotent | MindThreads/MindThreads/TaskRowView.swift:61-66 | trimming again changes nothing |
| TaskRow.TrimTitle | MindThreads/MindThreads/TaskRowView.swift:111 | the task's title becomes the trimmed old title, so it neither starts nor ends with whitespace; no other field and no other task changes |
| TaskRow.TrimTitleKeepsValid | MindThreads/MindThreads/TaskRowView.swift:61-66 | trimming a title keeps the store valid |
| TaskRow.TrimTitleIdempotent | MindThreads/MindThreads/TaskRowView.swift:61-66 | trimming a title twice leaves the same store as trimming it once |
| TaskRow.ToggleCompletion | MindThreads/MindThreads/TaskRowView.swift:103-108 | `isComplete` of the task is negated; no other field and no other task changes |
| TaskRow.ToggleTwiceRestores | MindThreads/MindThreads/TaskRowView.swift:103-108 | toggling twice restores the original store |
| TaskRow.ToggleCompletionKeepsValid | MindThreads/MindThreads/TaskRowView.swift:103-108 | toggling completion keeps the store valid |
| TaskRow.DuplicateTask | MindThreads/MindThreads/TaskRowView.swift:123-132 | exactly one task is added: same title, incomplete, clamped level, same list and parent; every existing task is unchanged |
| TaskRow.DuplicateIsChildlessSibling | MindThreads/MindThreads/TaskRowView.swift:123-132 | the duplicate has no subtasks, is a sibling of the original, the original keeps its subtasks, and the store stays valid |
| ContentView.ListQueryEmpty | MindThreads/MindThreads/ContentView.swift:14 | a list query holding every stored list once is empty exactly when no list is stored |
| ContentView.MainListFindsStoredMain | MindThreads/MindThreads/ContentView.swift:26 | over a query holding every stored list, there is no main list exactly when no stored list is named "Main" |
| ContentView.FirstNamedFrom | MindThreads/MindThreads/ContentView.swift:26 | the first position of a list with the given name, or none exactly when no list has that name |
| ContentView.MainList | MindThreads/MindThreads/ContentView.swift:26 | the first list named "Main" in query order, or none exactly when no list is named "Main" |
| ContentView.TasksInList | MindThreads/MindThreads/ContentView.swift:29 | exactly the queried tasks of the list, as a subsequence of the query, sorted when the query is |
| ContentView.TasksInListIdempotent | MindThreads/MindThreads/ContentView.swift:29 | filtering the filtered tasks again changes nothing |
| ContentView.MainListTasks | MindThreads/MindThreads/ContentView.swift:25-30 | empty without a "Main" list; otherwise exactly the queried tasks of that list, order-preserving |
| ContentView.MainListTasksAreListTasks | MindThreads/MindThreads/ContentView.swift:13 | over the creation-sorted query of all tasks, the main list's rows are exactly that list's `tasks`, sorted by creation date |
| ContentView.CreateDefaultListIfNeeded | MindThreads/MindThreads/ContentView.swift:125-131 | with an empty list query, exactly one list named "Main" is added and every other list and task is unchanged; with a non-empty query nothing changes; over a full query of a store without lists, exactly one list remains, named "Main" |
| ContentView.CreateDefaultListIdempotent | MindThreads/MindThreads/ContentView.swift:119-131 | calling it again over the list query of the store it produced changes nothing |
| ContentView.DefaultListIsMain | MindThreads/MindThreads/ContentView.swift:125-131 | the list created on an empty store is the main list of the next list query, the one `addNewTask` and `mainListTasks` use |
| ContentView.CreateDefaultListKeepsValid | MindThreads/MindThreads/ContentView.swift:125-131 | the default list keeps the store valid |
| ContentView.AddNewTask | MindThreads/MindThreads/ContentView.swift:134-143 | without "Main" nothing changes; otherwise exactly one empty, incomplete, level-0, parentless task in "Main" is added and all other tasks are unchanged |
| ContentView.AddNewTaskKeepsValid | MindThreads/MindThreads/ContentView.swift:134-143 | adding a task keeps the store valid |
| ContentView.CreateTaskBelow | MindThreads/MindThreads/ContentView.swift:159-167 | without a list nothing changes; otherwise exactly one empty task is added with level `max(0, level)`, the same list and the same parent |
| ContentView.CreateTaskBelowIsSibling | MindThreads/MindThreads/ContentView.swift:167 | the new task is a subtask of exactly the parents of the current task, never below it, and the store stays valid |
| ContentView.SiblingSurvivesDelete | MindThreads/MindThreads/ContentView.swift:214-225 | deleting the current task with its subtasks spares the sibling created below it |
| ContentView.DeleteTaskAndSubtasks | MindThreads/MindThreads/ContentView.swift:214-225 | the recursion marks exactly `t` and every task whose parent chain reaches `t` |
| ContentView.CommitDeletes | MindThreads/MindThreads/ContentView.swift:205-206 | saving removes exactly the marked tasks and leaves the rest unchanged |
| Focus.IsFocused | MindThreads/MindThreads/TaskRowView.swift:23-25 | a row is focused exactly when the shared focus holds its task's identifier |
| Focus.IsKeyboardOpen | MindThreads/MindThreads/ContentView.swift:20-22 | the keyboard is open exactly when some row is focused |
| Focus.FocusIsUnique | MindThreads/MindThreads/TaskRowView.swift:23-25 | at most one row is focused, and then the keyboard is open |
| Focus.SetFocus | MindThreads/MindThreads/TaskRowView.swift:61-66 | the focus takes the new value, the row that loses focus gets a trimmed title, and nothing else changes |
| Focus.SetFocusKeepsValid | MindThreads/MindThreads/TaskRowView.swift:61-66 | moving the focus keeps the store valid |
| Focus.AddNewTaskFocused | MindThreads/MindThreads/ContentView.swift:134-151 | when a task is added it is the new focus, the lists are unchanged, and every existing task is unchanged except that the previously focused one has its title trimmed; without "Main" the state is unchanged |
| Focus.AddNewTaskFocusedKeepsValid | MindThreads/MindThreads/ContentView.swift:134-151 | adding and focusing a task keeps the store valid |
| Focus.AddButton | MindThreads/MindThreads/ContentView.swift:103-112 | with the keyboard open the button only clears the focus and adds no task: the lists and every task but the previously focused one are unchanged, and that one has its title trimmed; otherwise it performs `addNewTask`, and the new task is focused exactly when it was created |
| Focus.AddButtonKeepsValid | MindThreads/MindThreads/ContentView.swift:103-112 | pressing the add button keeps the store valid |
| Focus.CreateTaskBelowFocused | MindThreads/MindThreads/ContentView.swift:159-177 | when a sibling is created it is the new focus, the lists are unchanged, and every existing task is unchanged except that the previously focused one has its title trimmed; otherwise the state is unchanged |
| Focus.CreateTaskBelowFocusedKeepsValid | MindThreads/MindThreads/ContentView.swift:159-177 | creating and focusing a sibling keeps the store valid |
| Focus.HandleReturnKey | MindThreads/MindThreads/TaskRowView.swift:110-117 | the task's title becomes the trimmed old title, so it neither starts nor ends with whitespace, and nothing else of it changes; with a list, an empty sibling is created and focused |
| Focus.HandleReturnKeyKeepsValid | MindThreads/MindThreads/TaskRowView.swift:110-117 | the return key keeps the store valid |
| Focus.HandleReturnKeyIsTrimThenCreateBelow | MindThreads/MindThreads/TaskRowView.swift:110-117 | the resulting store equals `createTaskBelow` applied after trimming |
| Focus.DuplicateTaskFocused | MindThreads/MindThreads/TaskRowView.swift:123-139 | the duplicate is added and becomes the focus; the lists are unchanged, and every existing task is unchanged except that the previously focused one has its title trimmed |
| Focus.DuplicateTaskFocusedKeepsValid | MindThreads/MindThreads/TaskRowView.swift:123-139 | duplicating and focusing the copy keeps the store valid |
| Focus.DeleteSpecificTask | MindThreads/MindThreads/ContentView.swift:195-211 | the store loses exactly the subtree of `t`; the focus is cleared exactly when it was on `t`, and is kept even on a deleted descendant; validity is kept |
| Focus.DeleteTasksAt | MindThreads/MindThreads/ContentView.swift:185-192 | deleting the selected rows of a snapshot removes exactly the union of their subtrees, in any order; the focus is cleared exactly when it was on a selected task |

## Left out

- SwiftUI rendering is not modelled: layout, icons, colours, animations,
  context menus, previews, `FloatingActionButton.swift` and
  `MindThreadsApp.swift`. These have no stateable behaviour. The
  chevron/plus icon of the add button is only `Focus.IsKeyboardOpen`.
- SwiftData is modelled as two maps. `insert` becomes a map update, and
  `delete` becomes a mark that `save` commits (`CommitDeletes`).
- `save` is taken to always succeed. When it fails, the app only prints the
  error. In `addNewTask`, `createTaskBelow` and `duplicateTask` the failure
  also skips the focus hand-off, so the new task stays in the context but is
  not focused. The model has no failing save, so it always focuses the new
  task.
- The `save` in the title's `onChange` is the identity in the model.
- `@Query` results are inputs to the model, not computed from the store:
  - the task query is a sequence of task ids (`IsTaskQuery` states what it
    must be);
  - the list query is a sequence of list ids.
- The name order of `@Query(sort: \TaskList.name)` is not modelled, because
  Swift's `String` comparison is outside the model. `MainList` takes the
  first "Main" list in the given order.
- The `DispatchQueue.main.asyncAfter` delays before focusing a new task are
  not modelled. Only the resulting focus is: it becomes the new identifier
  at once.
- `UUID()` is replaced by `FreshId`, which returns one more than the largest
  identifier in use. The creating operations take the new identifier as a
  parameter, and their precondition says it is unused.
- `Date()` is replaced by a `now: nat` parameter.
- Titles are sequences of Unicode scalars, and trimming tests scalars one by
  one at both ends, as `CharacterSet` trimming does. Foundation's
  `whitespacesAndNewlines` is not imported. Its members are written out
  instead: the Unicode general category Z, the tab, U+000A to U+000D and
  U+0085.
- Swift's `Int` is 64 bits wide. The model uses unbounded `int` for
  `indentationLevel`. This makes no difference, because only `max` and
  `min` are applied to it.
- `deleteTask(at:)` is modelled over a snapshot of the visible rows. The
  source re-reads `mainListTasks[index]` on each iteration, and whether
  that re-read sees the earlier deletions depends on when `@Query`
  refreshes, which the source does not show.
- Focus.DeleteSpecificTask: does not run the blur trim for the deleted row,
  because that row's task is deleted in the same action.
- The tap on a row (`TaskRowView.swift` lines 77-79) and the tap on the
  background (`ContentView.swift` lines 89-94) are plain focus
  assignments. They are `Focus.SetFocus` and have no separate member.
