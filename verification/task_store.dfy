/**
 * The two persistent record types of MindThreads (`Task` and `TaskList`) and
 * the object store that owns them, modelled as two maps keyed by identifier.
 * The relationships `parentTask` and `list` are stored as identifiers; their
 * inverses `subtasks` and `tasks` are never stored, only computed.
 */
module TaskStore {
  import opened Wrappers

  type TaskId = nat
  type ListId = nat

  /** A task record; its identifier is the key under which the store holds it. */
  datatype Task = Task(
    title: string,
    isComplete: bool,
    creationDate: nat,
    indentationLevel: int,
    parentTask: Option<TaskId>,
    list: Option<ListId>)

  /** A task list record; its identifier is the key under which the store holds it. */
  datatype TaskList = TaskList(name: string)

  datatype Store = Store(tasks: map<TaskId, Task>, lists: map<ListId, TaskList>)

  /** `Task.init`: the given fields, no parent and no list. */
  function NewTask(title: string, isComplete: bool := false, creationDate: nat, indentationLevel: int := 0): (t: Task)
    ensures t.title == title && t.isComplete == isComplete
    ensures t.creationDate == creationDate && t.indentationLevel == indentationLevel
    ensures t.parentTask == None && t.list == None
  {
    Task(title, isComplete, creationDate, indentationLevel, None, None)
  }

  /** `TaskList.init`: the given name. */
  function NewTaskList(name: string): (l: TaskList)
    ensures l.name == name
  {
    TaskList(name)
  }

  /**
   * `UUID()`: an identifier that differs from every identifier in use.
   * It is one more than the largest used identifier.
   */
  method FreshId(used: set<nat>) returns (id: nat)
    ensures id !in used
    ensures forall u :: u in used ==> u < id
  {
    id := 0;
    var rest := used;
    while rest != {}
      invariant rest <= used
      invariant forall u :: u in used - rest ==> u < id
      decreases |rest|
    {
      var u :| u in rest;
      if id <= u {
        id := u + 1;
      }
      assert used - (rest - {u}) == (used - rest) + {u};
      rest := rest - {u};
    }
    assert used - rest == used;
  }

  /** The store with one more task. */
  function AddTask(s: Store, id: TaskId, t: Task): (r: Store)
  {
    Store(s.tasks[id := t], s.lists)
  }

  /** The store with one more list. */
  function AddList(s: Store, id: ListId, l: TaskList): (r: Store)
  {
    Store(s.tasks, s.lists[id := l])
  }

  /** `Task.subtasks`: the inverse of `parentTask`. */
  function Subtasks(s: Store, p: TaskId): (r: set<TaskId>)
    ensures forall c :: c in r <==> c in s.tasks && s.tasks[c].parentTask == Some(p)
  {
    set c | c in s.tasks && s.tasks[c].parentTask == Some(p)
  }

  /** `TaskList.tasks`: the inverse of `Task.list`. */
  function TasksOf(s: Store, l: ListId): (r: set<TaskId>)
    ensures forall c :: c in r <==> c in s.tasks && s.tasks[c].list == Some(l)
  {
    set c | c in s.tasks && s.tasks[c].list == Some(l)
  }

  /**
   * Following `parentTask` from `x` reaches a task without a parent after
   * exactly `d` steps, and every task on the way is in the store.
   */
  predicate AtDepth(s: Store, x: TaskId, d: nat)
    decreases d
  {
    && x in s.tasks
    && match s.tasks[x].parentTask
       case None => d == 0
       case Some(p) => d > 0 && AtDepth(s, p, d - 1)
  }

  /** Every parent chain ends at a root: no cycles and no dangling parents. */
  ghost predicate Acyclic(s: Store)
  {
    forall x :: x in s.tasks ==> exists d: nat :: AtDepth(s, x, d)
  }

  /** Every `list` reference names a list in the store. */
  predicate ListsResolve(s: Store)
  {
    forall x :: x in s.tasks && s.tasks[x].list.Some? ==> s.tasks[x].list.value in s.lists
  }

  /** The referential integrity the store keeps between saves. */
  ghost predicate Valid(s: Store)
  {
    Acyclic(s) && ListsResolve(s)
  }

  /** The number of ancestors of `x`. */
  ghost function Depth(s: Store, x: TaskId): (d: nat)
    requires Acyclic(s) && x in s.tasks
    ensures AtDepth(s, x, d)
  {
    var d :| AtDepth(s, x, d); d
  }

  lemma {:induction false} AtDepthUnique(s: Store, x: TaskId, d1: nat, d2: nat)
    requires AtDepth(s, x, d1) && AtDepth(s, x, d2)
    ensures d1 == d2
    decreases d1
  {
    match s.tasks[x].parentTask
    case None =>
    case Some(p) => AtDepthUnique(s, p, d1 - 1, d2 - 1);
  }

  /** A parent is in the store and sits exactly one level higher than its child. */
  lemma ParentDepth(s: Store, x: TaskId)
    requires Acyclic(s) && x in s.tasks && s.tasks[x].parentTask.Some?
    ensures s.tasks[x].parentTask.value in s.tasks
    ensures Depth(s, s.tasks[x].parentTask.value) + 1 == Depth(s, x)
  {
    var p := s.tasks[x].parentTask.value;
    assert AtDepth(s, p, Depth(s, x) - 1);
    AtDepthUnique(s, p, Depth(s, p), Depth(s, x) - 1);
  }

  /**
   * A depth stays the same in any store that keeps every task of `s` with
   * the same parent.
   */
  lemma {:induction false} AtDepthKept(s: Store, s': Store, x: TaskId, d: nat)
    requires AtDepth(s, x, d)
    requires forall k :: k in s.tasks ==> k in s'.tasks && s'.tasks[k].parentTask == s.tasks[k].parentTask
    ensures AtDepth(s', x, d)
    decreases d
  {
    match s.tasks[x].parentTask
    case None =>
    case Some(p) => AtDepthKept(s, s', p, d - 1);
  }

  /** Every task of `s` keeps its parent in `s'`, and `s` was acyclic: so are those tasks in `s'`. */
  lemma AcyclicKept(s: Store, s': Store)
    requires Acyclic(s)
    requires forall k :: k in s.tasks ==> k in s'.tasks && s'.tasks[k].parentTask == s.tasks[k].parentTask
    ensures forall x :: x in s.tasks ==> AtDepth(s', x, Depth(s, x))
  {
    forall x | x in s.tasks
      ensures AtDepth(s', x, Depth(s, x))
    {
      AtDepthKept(s, s', x, Depth(s, x));
    }
  }

  /**
   * Inserting a task whose parent and list (if any) are already stored keeps
   * the store valid, whatever its other fields hold.
   */
  lemma AddTaskKeepsValid(s: Store, id: TaskId, t: Task)
    requires Valid(s) && id !in s.tasks
    requires t.parentTask.Some? ==> t.parentTask.value in s.tasks
    requires t.list.Some? ==> t.list.value in s.lists
    ensures Valid(AddTask(s, id, t))
  {
    var s' := AddTask(s, id, t);
    AcyclicKept(s, s');
    match t.parentTask
    case None =>
      assert AtDepth(s', id, 0);
    case Some(p) =>
      assert AtDepth(s', p, Depth(s, p));
      assert AtDepth(s', id, Depth(s, p) + 1);
  }

  /**
   * Replacing a task by one with the same parent and list keeps the store
   * valid: the title, completion flag, date and indentation level take part
   * in no invariant.
   */
  lemma UpdateTaskKeepsValid(s: Store, id: TaskId, t: Task)
    requires Valid(s) && id in s.tasks
    requires t.parentTask == s.tasks[id].parentTask && t.list == s.tasks[id].list
    ensures Valid(AddTask(s, id, t))
  {
    AcyclicKept(s, AddTask(s, id, t));
  }

  /** `indentationLevel` is free: any value, unrelated to the depth, keeps a store valid. */
  lemma IndentationUnconstrained(s: Store, id: TaskId, level: int)
    requires Valid(s) && id in s.tasks
    ensures Valid(AddTask(s, id, s.tasks[id].(indentationLevel := level)))
  {
    UpdateTaskKeepsValid(s, id, s.tasks[id].(indentationLevel := level));
  }

  /**
   * A new list under a fresh identifier keeps the store valid whatever its
   * name, even one already used: names need not be unique.
   */
  lemma AddListKeepsValid(s: Store, id: ListId, name: string)
    requires Valid(s) && id !in s.lists
    ensures Valid(AddList(s, id, NewTaskList(name)))
    ensures AddList(s, id, NewTaskList(name)).lists[id].name == name
  {
    AcyclicKept(s, AddList(s, id, NewTaskList(name)));
  }

  /** A list under a fresh identifier has no tasks: no task refers to it. */
  lemma NewListHasNoTasks(s: Store, id: ListId, name: string)
    requires ListsResolve(s) && id !in s.lists
    ensures TasksOf(AddList(s, id, NewTaskList(name)), id) == {}
  {
  }

  /** `subtasks` follows an insertion: only the new task's parent gains a subtask. */
  lemma SubtasksAfterAddTask(s: Store, id: TaskId, t: Task, p: TaskId)
    requires id !in s.tasks
    ensures Subtasks(AddTask(s, id, t), p) == Subtasks(s, p) + (if t.parentTask == Some(p) then {id} else {})
  {
  }

  /** `tasks` of a list follows an insertion: only the new task's list gains a task. */
  lemma TasksOfAfterAddTask(s: Store, id: TaskId, t: Task, l: ListId)
    requires id !in s.tasks
    ensures TasksOf(AddTask(s, id, t), l) == TasksOf(s, l) + (if t.list == Some(l) then {id} else {})
  {
  }

  /** In a valid store every task with a parent is a subtask of exactly that parent. */
  lemma SubtasksInverse(s: Store, c: TaskId, p: TaskId)
    requires Valid(s) && c in s.tasks
    ensures c in Subtasks(s, p) <==> s.tasks[c].parentTask == Some(p)
    ensures c in Subtasks(s, p) ==> p in s.tasks
  {
    if s.tasks[c].parentTask.Some? {
      ParentDepth(s, c);
    }
  }

  /** In a valid store a task is among the `tasks` of `l` exactly when its `list` is `l`, and `l` is stored. */
  lemma TasksOfInverse(s: Store, x: TaskId, l: ListId)
    requires Valid(s) && x in s.tasks
    ensures x in TasksOf(s, l) <==> s.tasks[x].list == Some(l)
    ensures x in TasksOf(s, l) ==> l in s.lists
  {
  }
}
