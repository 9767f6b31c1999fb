/**
 * The store-level logic of the main screen: locating the "Main" list,
 * filtering its tasks, creating the default list, adding a task, creating a
 * sibling below a task, and the recursive delete of a task and its subtasks.
 */
module ContentView {
  import opened Wrappers
  import opened TaskStore
  import opened Subtrees
  import opened TaskRow

  const MainListName: string := "Main"

  /** Every element of a list query result is a stored list. */
  predicate ListsListed(s: Store, listQuery: seq<ListId>)
  {
    forall i :: 0 <= i < |listQuery| ==> listQuery[i] in s.lists
  }

  /**
   * What `@Query(sort: \TaskList.name)` returns: every stored list exactly
   * once (the order of names is not modelled).
   */
  predicate IsListQuery(s: Store, q: seq<ListId>)
  {
    && ListsListed(s, q)
    && (forall l :: l in s.lists ==> l in q)
    && (forall i, j :: 0 <= i < j < |q| ==> q[i] != q[j])
  }

  /** A complete list query is empty exactly when there is no list. */
  lemma ListQueryEmpty(s: Store, q: seq<ListId>)
    requires IsListQuery(s, q)
    ensures q == [] <==> |s.lists| == 0
  {
    assert q != [] ==> q[0] in s.lists;
    if |s.lists| > 0 {
      var l :| l in s.lists;
      assert l in q;
    }
  }

  /** Every element of a task query result is a stored task. */
  predicate TasksListed(s: Store, taskQuery: seq<TaskId>)
  {
    forall i :: 0 <= i < |taskQuery| ==> taskQuery[i] in s.tasks
  }

  /** The tasks are in ascending `creationDate` order. */
  predicate SortedByCreation(s: Store, q: seq<TaskId>)
    requires TasksListed(s, q)
  {
    forall i, j :: 0 <= i < j < |q| ==> s.tasks[q[i]].creationDate <= s.tasks[q[j]].creationDate
  }

  /**
   * What `@Query(sort: \Task.creationDate)` returns: every stored task
   * exactly once, in ascending `creationDate` order.
   */
  predicate IsTaskQuery(s: Store, q: seq<TaskId>)
  {
    && TasksListed(s, q)
    && (forall x :: x in s.tasks ==> x in q)
    && (forall i, j :: 0 <= i < j < |q| ==> q[i] != q[j])
    && SortedByCreation(s, q)
  }

  /** `a` is `b` with some elements left out, the rest in their order. */
  predicate IsSubsequence<T(==)>(a: seq<T>, b: seq<T>)
    decreases |b|
  {
    if a == [] then true
    else if b == [] then false
    else if a[0] == b[0] then IsSubsequence(a[1..], b[1..])
    else IsSubsequence(a, b[1..])
  }

  /** The position at or after `from` of the first list named `name`. */
  function FirstNamedFrom(s: Store, listQuery: seq<ListId>, name: string, from: nat): (r: Option<nat>)
    requires ListsListed(s, listQuery) && from <= |listQuery|
    ensures r.None? <==> forall i :: from <= i < |listQuery| ==> s.lists[listQuery[i]].name != name
    ensures r.Some? ==> from <= r.value < |listQuery| && s.lists[listQuery[r.value]].name == name
    ensures r.Some? ==> forall i :: from <= i < r.value ==> s.lists[listQuery[i]].name != name
    decreases |listQuery| - from
  {
    if from == |listQuery| then None
    else if s.lists[listQuery[from]].name == name then Some(from)
    else FirstNamedFrom(s, listQuery, name, from + 1)
  }

  /**
   * The list that `mainListTasks` and `addNewTask` look up: the first list
   * named "Main" in query order, or none when no list has that name.
   */
  function MainList(s: Store, listQuery: seq<ListId>): (r: Option<ListId>)
    requires ListsListed(s, listQuery)
    ensures r.None? <==> forall i :: 0 <= i < |listQuery| ==> s.lists[listQuery[i]].name != MainListName
    ensures r.Some? ==> r.value in s.lists && s.lists[r.value].name == MainListName
    ensures r.Some? ==> exists k :: 0 <= k < |listQuery| && listQuery[k] == r.value
                                    && forall i :: 0 <= i < k ==> s.lists[listQuery[i]].name != MainListName
  {
    match FirstNamedFrom(s, listQuery, MainListName, 0)
    case None => None
    case Some(k) => Some(listQuery[k])
  }

  /**
   * Over a complete list query there is no main list exactly when no stored
   * list is named "Main".
   */
  lemma MainListFindsStoredMain(s: Store, listQuery: seq<ListId>)
    requires IsListQuery(s, listQuery)
    ensures MainList(s, listQuery).None? <==> forall l :: l in s.lists ==> s.lists[l].name != MainListName
  {
    if MainList(s, listQuery).None? {
      forall l | l in s.lists
        ensures s.lists[l].name != MainListName
      {
        var i :| 0 <= i < |listQuery| && listQuery[i] == l;
      }
    }
  }

  /** The body of `mainListTasks`: the queried tasks whose list is `l`, in query order. */
  function TasksInList(s: Store, taskQuery: seq<TaskId>, l: ListId): (r: seq<TaskId>)
    requires TasksListed(s, taskQuery)
    ensures TasksListed(s, r)
    ensures forall x :: x in r <==> x in taskQuery && s.tasks[x].list == Some(l)
    ensures IsSubsequence(r, taskQuery)
    ensures SortedByCreation(s, taskQuery) ==> SortedByCreation(s, r)
  {
    if taskQuery == [] then []
    else
      var rest := TasksInList(s, taskQuery[1..], l);
      if s.tasks[taskQuery[0]].list == Some(l) then [taskQuery[0]] + rest else rest
  }

  /** Filtering a filtered query again changes nothing. */
  lemma {:induction false} TasksInListIdempotent(s: Store, taskQuery: seq<TaskId>, l: ListId)
    requires TasksListed(s, taskQuery)
    ensures TasksInList(s, TasksInList(s, taskQuery, l), l) == TasksInList(s, taskQuery, l)
  {
    if taskQuery != [] {
      TasksInListIdempotent(s, taskQuery[1..], l);
      var rest := TasksInList(s, taskQuery[1..], l);
      if s.tasks[taskQuery[0]].list == Some(l) {
        assert ([taskQuery[0]] + rest)[1..] == rest;
      }
    }
  }

  /**
   * `mainListTasks`: nothing when no list is named "Main"; otherwise the
   * tasks of that list, in query order.
   */
  function MainListTasks(s: Store, taskQuery: seq<TaskId>, listQuery: seq<ListId>): (r: seq<TaskId>)
    requires TasksListed(s, taskQuery) && ListsListed(s, listQuery)
    ensures TasksListed(s, r)
    ensures MainList(s, listQuery).None? ==> r == []
    ensures MainList(s, listQuery).Some? ==>
              forall x :: x in r <==> x in taskQuery && s.tasks[x].list == MainList(s, listQuery)
    ensures IsSubsequence(r, taskQuery)
    ensures SortedByCreation(s, taskQuery) ==> SortedByCreation(s, r)
  {
    match MainList(s, listQuery)
    case None => []
    case Some(m) => TasksInList(s, taskQuery, m)
  }

  /**
   * Over the full creation-ordered task query, the main list's tasks are
   * exactly the stored tasks of that list, sorted by creation date.
   */
  lemma MainListTasksAreListTasks(s: Store, taskQuery: seq<TaskId>, listQuery: seq<ListId>)
    requires IsTaskQuery(s, taskQuery) && ListsListed(s, listQuery)
    requires MainList(s, listQuery).Some?
    ensures forall x :: x in MainListTasks(s, taskQuery, listQuery) <==> x in TasksOf(s, MainList(s, listQuery).value)
    ensures SortedByCreation(s, MainListTasks(s, taskQuery, listQuery))
  {
  }

  /**
   * `createDefaultListIfNeeded`: a list named "Main" is added when the list
   * query is empty; otherwise nothing changes. Over a complete query of a
   * store without lists, exactly one list remains, named "Main".
   */
  function CreateDefaultListIfNeeded(s: Store, listQuery: seq<ListId>, id: ListId): (r: Store)
    requires ListsListed(s, listQuery) && id !in s.lists
    ensures r.tasks == s.tasks
    ensures listQuery == [] ==>
              && r.lists.Keys == s.lists.Keys + {id}
              && r.lists[id].name == MainListName
              && (forall l :: l in s.lists ==> r.lists[l] == s.lists[l])
    ensures listQuery != [] ==> r == s
    ensures IsListQuery(s, listQuery) && |s.lists| == 0 ==>
              r.lists.Keys == {id} && r.lists[id].name == MainListName
  {
    assert listQuery != [] ==> listQuery[0] in s.lists;
    if listQuery == [] then AddList(s, id, NewTaskList(MainListName)) else s
  }

  /**
   * Calling `createDefaultListIfNeeded` again, over the list query of the
   * store it produced, changes nothing: calling it twice is calling it once.
   */
  lemma CreateDefaultListIdempotent(s: Store, q1: seq<ListId>, id1: ListId, q2: seq<ListId>, id2: ListId)
    requires ListsListed(s, q1) && id1 !in s.lists
    requires IsListQuery(CreateDefaultListIfNeeded(s, q1, id1), q2)
    requires id2 !in CreateDefaultListIfNeeded(s, q1, id1).lists
    ensures CreateDefaultListIfNeeded(CreateDefaultListIfNeeded(s, q1, id1), q2, id2)
            == CreateDefaultListIfNeeded(s, q1, id1)
  {
    var r := CreateDefaultListIfNeeded(s, q1, id1);
    if q1 != [] {
      assert q1[0] in r.lists;
    }
    ListQueryEmpty(r, q2);
  }

  /** On an empty store the default list is the main list of the next list query. */
  lemma DefaultListIsMain(s: Store, id: ListId, listQuery: seq<ListId>)
    requires |s.lists| == 0
    requires IsListQuery(CreateDefaultListIfNeeded(s, [], id), listQuery)
    ensures MainList(CreateDefaultListIfNeeded(s, [], id), listQuery) == Some(id)
  {
    var r := CreateDefaultListIfNeeded(s, [], id);
    assert id in listQuery;
    assert forall i :: 0 <= i < |listQuery| ==> listQuery[i] == id;
  }

  lemma CreateDefaultListKeepsValid(s: Store, listQuery: seq<ListId>, id: ListId)
    requires Valid(s) && ListsListed(s, listQuery) && id !in s.lists
    ensures Valid(CreateDefaultListIfNeeded(s, listQuery, id))
  {
    if listQuery == [] {
      AddListKeepsValid(s, id, MainListName);
    }
  }

  /**
   * `addNewTask` on the store: without a "Main" list nothing happens;
   * otherwise exactly one task is added, empty, incomplete, at level 0, in
   * the main list and without parent, and every other task is unchanged.
   */
  function AddNewTask(s: Store, listQuery: seq<ListId>, id: TaskId, now: nat): (r: Store)
    requires ListsListed(s, listQuery) && id !in s.tasks
    ensures MainList(s, listQuery).None? ==> r == s
    ensures MainList(s, listQuery).Some? ==>
              && r.lists == s.lists
              && r.tasks.Keys == s.tasks.Keys + {id}
              && (forall x :: x in s.tasks ==> r.tasks[x] == s.tasks[x])
              && r.tasks[id] == Task("", false, now, 0, None, MainList(s, listQuery))
  {
    match MainList(s, listQuery)
    case None => s
    case Some(m) =>
      var t := NewTask("", creationDate := now);
      AddTask(s, id, t.(list := Some(m), indentationLevel := 0))
  }

  lemma AddNewTaskKeepsValid(s: Store, listQuery: seq<ListId>, id: TaskId, now: nat)
    requires Valid(s) && ListsListed(s, listQuery) && id !in s.tasks
    ensures Valid(AddNewTask(s, listQuery, id, now))
  {
    if MainList(s, listQuery).Some? {
      AddTaskKeepsValid(s, id, AddNewTask(s, listQuery, id, now).tasks[id]);
    }
  }

  /**
   * `createTaskBelow` on the store: nothing happens when `cur` has no list;
   * otherwise exactly one task is added: empty, incomplete, at level
   * `max(0, level)` of `cur`, in the list of `cur`, with the parent of `cur`.
   */
  function CreateTaskBelow(s: Store, cur: TaskId, id: TaskId, now: nat): (r: Store)
    requires cur in s.tasks && id !in s.tasks
    ensures s.tasks[cur].list.None? ==> r == s
    ensures s.tasks[cur].list.Some? ==>
              && r.lists == s.lists
              && r.tasks.Keys == s.tasks.Keys + {id}
              && (forall x :: x in s.tasks ==> r.tasks[x] == s.tasks[x])
              && r.tasks[id].title == ""
              && !r.tasks[id].isComplete
              && r.tasks[id].creationDate == now
              && r.tasks[id].indentationLevel >= 0
              && (s.tasks[cur].indentationLevel >= 0 ==> r.tasks[id].indentationLevel == s.tasks[cur].indentationLevel)
              && (s.tasks[cur].indentationLevel < 0 ==> r.tasks[id].indentationLevel == 0)
              && r.tasks[id].list == s.tasks[cur].list
              && r.tasks[id].parentTask == s.tasks[cur].parentTask
  {
    var current := s.tasks[cur];
    match current.list
    case None => s
    case Some(l) =>
      var level := if 0 < current.indentationLevel then current.indentationLevel else 0;
      var t := NewTask("", creationDate := now, indentationLevel := level);
      AddTask(s, id, t.(list := Some(l), parentTask := current.parentTask))
  }

  /**
   * The task created below `cur` is a sibling of `cur` and never below it,
   * and the store stays valid.
   */
  lemma CreateTaskBelowIsSibling(s: Store, cur: TaskId, id: TaskId, now: nat)
    requires Valid(s) && cur in s.tasks && id !in s.tasks && s.tasks[cur].list.Some?
    ensures Valid(CreateTaskBelow(s, cur, id, now))
    ensures forall p :: id in Subtasks(CreateTaskBelow(s, cur, id, now), p) <==> cur in Subtasks(s, p)
    ensures !Reaches(CreateTaskBelow(s, cur, id, now), id, {cur})
  {
    var r := CreateTaskBelow(s, cur, id, now);
    if s.tasks[cur].parentTask.Some? {
      ParentDepth(s, cur);
    }
    AddTaskKeepsValid(s, id, r.tasks[id]);
    if s.tasks[cur].parentTask.Some? {
      var p := s.tasks[cur].parentTask.value;
      ParentDepth(r, cur);
      ParentDepth(r, id);
      if Reaches(r, p, {cur}) {
        ReachesIsDeeper(r, p, cur);
      }
    }
  }

  /** Deleting `cur` with its subtasks spares the sibling created below it. */
  lemma SiblingSurvivesDelete(s: Store, cur: TaskId, id: TaskId, now: nat)
    requires Valid(s) && cur in s.tasks && id !in s.tasks && s.tasks[cur].list.Some?
    ensures Valid(CreateTaskBelow(s, cur, id, now))
    ensures id in Prune(CreateTaskBelow(s, cur, id, now), cur).tasks
  {
    CreateTaskBelowIsSibling(s, cur, id, now);
  }

  /**
   * `deleteTaskAndSubtasks`: marks for deletion the subtasks of `t`, each
   * with its own subtasks, and then `t`. `modelContext.delete` only marks;
   * the marks take effect at the next save.
   */
  method DeleteTaskAndSubtasks(s: Store, t: TaskId, marked: set<TaskId>) returns (marked': set<TaskId>)
    requires Acyclic(s) && t in s.tasks
    ensures marked' == marked + Subtree(s, t)
    decreases |Subtree(s, t)|
  {
    var subtasks := Subtasks(s, t);
    marked' := marked;
    var pending := subtasks;
    SubtreesOfNothing(s);
    assert subtasks - pending == {};
    while pending != {}
      invariant pending <= subtasks
      invariant marked' == marked + SubtreesOf(s, subtasks - pending)
      decreases |pending|
    {
      var c :| c in pending;
      SubtreeShrinks(s, t, c);
      marked' := DeleteTaskAndSubtasks(s, c, marked');
      SubtreesOfUnion(s, subtasks - pending, {c});
      assert (subtasks - pending) + {c} == subtasks - (pending - {c});
      pending := pending - {c};
    }
    SubtreeSplit(s, t);
    assert subtasks - pending == subtasks;
    marked' := marked' + {t};
  }

  /** `modelContext.save()` after deletions: the marked tasks leave the store. */
  function CommitDeletes(s: Store, marked: set<TaskId>): (r: Store)
    ensures r.lists == s.lists
    ensures forall x :: x in r.tasks <==> x in s.tasks && x !in marked
    ensures forall x :: x in r.tasks ==> r.tasks[x] == s.tasks[x]
  {
    Store(s.tasks - marked, s.lists)
  }
}
