/**
 * The screen state shared by `ContentView` and its rows: the store together
 * with the `@FocusState` identifier of the task whose title field has the
 * keyboard. Every change of focus goes through `SetFocus`, which includes
 * the reaction of the row that loses focus (its title is trimmed).
 */
module Focus {
  import opened Wrappers
  import opened TaskStore
  import opened Subtrees
  import opened TaskRow
  import opened ContentView

  datatype AppState = AppState(store: Store, focus: Option<TaskId>)

  /** `isFocused` of the row showing task `t`: the shared identifier is that of `t`. */
  predicate IsFocused(st: AppState, t: TaskId)
    ensures IsFocused(st, t) <==> st.focus == Some(t)
  {
    st.focus == Some(t)
  }

  /** `isKeyboardOpen`: the keyboard is open exactly when some row has the focus. */
  predicate IsKeyboardOpen(st: AppState)
    ensures IsKeyboardOpen(st) <==> exists t :: IsFocused(st, t)
  {
    assert st.focus.Some? ==> IsFocused(st, st.focus.value);
    st.focus.Some?
  }

  /** At most one row is focused at a time. */
  lemma FocusIsUnique(st: AppState, a: TaskId, b: TaskId)
    requires IsFocused(st, a) && IsFocused(st, b)
    ensures a == b && IsKeyboardOpen(st)
  {
  }

  /**
   * Assigning `focusedTaskID`: the focus becomes `f`, and the stored task
   * whose row loses the focus gets its title trimmed (the row's
   * `.onChange(of: isFocused)`). Nothing else changes.
   */
  function SetFocus(st: AppState, f: Option<TaskId>): (r: AppState)
    ensures r.focus == f
    ensures r.store.lists == st.store.lists && r.store.tasks.Keys == st.store.tasks.Keys
    ensures forall x :: x in st.store.tasks && IsFocused(st, x) && !IsFocused(r, x) ==>
              && IsTrimmed(r.store.tasks[x].title)
              && r.store.tasks[x] == st.store.tasks[x].(title := Trim(st.store.tasks[x].title))
    ensures forall x :: x in st.store.tasks && !(IsFocused(st, x) && !IsFocused(r, x)) ==>
              r.store.tasks[x] == st.store.tasks[x]
  {
    match st.focus
    case Some(x) =>
      if x in st.store.tasks && f != Some(x) then AppState(TrimTitle(st.store, x), f)
      else AppState(st.store, f)
    case None => AppState(st.store, f)
  }

  /** Moving the focus keeps the store valid. */
  lemma SetFocusKeepsValid(st: AppState, f: Option<TaskId>)
    requires Valid(st.store)
    ensures Valid(SetFocus(st, f).store)
  {
    if st.focus.Some? && st.focus.value in st.store.tasks && f != st.focus {
      var x := st.focus.value;
      UpdateTaskKeepsValid(st.store, x, st.store.tasks[x].(title := Trim(st.store.tasks[x].title)));
    }
  }

  /**
   * Apart from records added, `r` differs from `st` only by the blur trim:
   * the lists are the same, every stored task without the focus is
   * unchanged, and the stored task that had the focus has its title trimmed.
   */
  predicate OnlyBlurTrimmed(st: AppState, r: AppState)
  {
    && r.store.lists == st.store.lists
    && (forall x :: x in st.store.tasks && st.focus != Some(x) ==>
          x in r.store.tasks && r.store.tasks[x] == st.store.tasks[x])
    && (st.focus.Some? && st.focus.value in st.store.tasks ==>
          && st.focus.value in r.store.tasks
          && r.store.tasks[st.focus.value]
             == st.store.tasks[st.focus.value].(title := Trim(st.store.tasks[st.focus.value].title)))
  }

  /** `addNewTask`, with the focus moved to the new task when one is created. */
  function AddNewTaskFocused(st: AppState, listQuery: seq<ListId>, id: TaskId, now: nat): (r: AppState)
    requires ListsListed(st.store, listQuery) && id !in st.store.tasks
    ensures MainList(st.store, listQuery).None? ==> r == st
    ensures MainList(st.store, listQuery).Some? ==>
              && r.focus == Some(id)
              && r.store.tasks.Keys == st.store.tasks.Keys + {id}
              && r.store.tasks[id] == Task("", false, now, 0, None, MainList(st.store, listQuery))
              && OnlyBlurTrimmed(st, r)
  {
    match MainList(st.store, listQuery)
    case None => st
    case Some(_) => SetFocus(AppState(AddNewTask(st.store, listQuery, id, now), st.focus), Some(id))
  }

  /**
   * The floating button: with the keyboard open it only dismisses it (the
   * focus is cleared and no task is added); otherwise it adds a task to the
   * "Main" list, which then has the focus.
   */
  function AddButton(st: AppState, listQuery: seq<ListId>, id: TaskId, now: nat): (r: AppState)
    requires ListsListed(st.store, listQuery) && id !in st.store.tasks
    ensures IsKeyboardOpen(st) ==>
              && r.focus == None
              && r.store.tasks.Keys == st.store.tasks.Keys
              && r.store.lists == st.store.lists
              && OnlyBlurTrimmed(st, r)
    ensures !IsKeyboardOpen(st) ==> r.store == AddNewTask(st.store, listQuery, id, now)
    ensures !IsKeyboardOpen(st) ==> (IsKeyboardOpen(r) <==> MainList(st.store, listQuery).Some?)
    ensures !IsKeyboardOpen(st) && IsKeyboardOpen(r) ==> IsFocused(r, id) && id in r.store.tasks
  {
    if IsKeyboardOpen(st) then SetFocus(st, None)
    else AddNewTaskFocused(st, listQuery, id, now)
  }

  /** Adding a task and focusing it keeps the store valid. */
  lemma AddNewTaskFocusedKeepsValid(st: AppState, listQuery: seq<ListId>, id: TaskId, now: nat)
    requires Valid(st.store) && ListsListed(st.store, listQuery) && id !in st.store.tasks
    ensures Valid(AddNewTaskFocused(st, listQuery, id, now).store)
  {
    if MainList(st.store, listQuery).Some? {
      AddNewTaskKeepsValid(st.store, listQuery, id, now);
      SetFocusKeepsValid(AppState(AddNewTask(st.store, listQuery, id, now), st.focus), Some(id));
    }
  }

  /** Pressing the add button keeps the store valid. */
  lemma AddButtonKeepsValid(st: AppState, listQuery: seq<ListId>, id: TaskId, now: nat)
    requires Valid(st.store) && ListsListed(st.store, listQuery) && id !in st.store.tasks
    ensures Valid(AddButton(st, listQuery, id, now).store)
  {
    if IsKeyboardOpen(st) {
      SetFocusKeepsValid(st, None);
    } else {
      AddNewTaskFocusedKeepsValid(st, listQuery, id, now);
    }
  }

  /** `createTaskBelow`, with the focus moved to the new sibling when one is created. */
  function CreateTaskBelowFocused(st: AppState, cur: TaskId, id: TaskId, now: nat): (r: AppState)
    requires cur in st.store.tasks && id !in st.store.tasks
    ensures st.store.tasks[cur].list.None? ==> r == st
    ensures st.store.tasks[cur].list.Some? ==>
              && r.focus == Some(id)
              && r.store.tasks.Keys == st.store.tasks.Keys + {id}
              && r.store.tasks[id] == CreateTaskBelow(st.store, cur, id, now).tasks[id]
              && OnlyBlurTrimmed(st, r)
  {
    match st.store.tasks[cur].list
    case None => st
    case Some(_) => SetFocus(AppState(CreateTaskBelow(st.store, cur, id, now), st.focus), Some(id))
  }

  /** Creating a sibling below a task and focusing it keeps the store valid. */
  lemma CreateTaskBelowFocusedKeepsValid(st: AppState, cur: TaskId, id: TaskId, now: nat)
    requires Valid(st.store) && cur in st.store.tasks && id !in st.store.tasks
    ensures Valid(CreateTaskBelowFocused(st, cur, id, now).store)
  {
    if st.store.tasks[cur].list.Some? {
      CreateTaskBelowIsSibling(st.store, cur, id, now);
      SetFocusKeepsValid(AppState(CreateTaskBelow(st.store, cur, id, now), st.focus), Some(id));
    }
  }

  /**
   * `handleReturnKey`: the title of `t` is trimmed first, then a sibling is
   * created below `t` and takes the focus (if `t` has a list).
   */
  function HandleReturnKey(st: AppState, t: TaskId, id: TaskId, now: nat): (r: AppState)
    requires t in st.store.tasks && id !in st.store.tasks
    ensures t in r.store.tasks && r.store.tasks[t].title == Trim(st.store.tasks[t].title)
    ensures IsTrimmed(r.store.tasks[t].title)
    ensures r.store.tasks[t].(title := st.store.tasks[t].title) == st.store.tasks[t]
    ensures st.store.tasks[t].list.None? ==> r.focus == st.focus && r.store.tasks.Keys == st.store.tasks.Keys
    ensures st.store.tasks[t].list.Some? ==>
              && IsFocused(r, id)
              && r.store.tasks.Keys == st.store.tasks.Keys + {id}
              && r.store.tasks[id].title == ""
              && r.store.tasks[id].parentTask == st.store.tasks[t].parentTask
              && r.store.tasks[id].list == st.store.tasks[t].list
  {
    var s1 := TrimTitle(st.store, t);
    var r := CreateTaskBelowFocused(AppState(s1, st.focus), t, id, now);
    assert r.store.tasks[t] == s1.tasks[t] by {
      TrimKeepsTrimmed(s1.tasks[t].title);
    }
    r
  }

  /**
   * Pressing return in the focused row leaves exactly the store that
   * `createTaskBelow` makes from the trimmed task: the blur of that row
   * trims an already trimmed title, which changes nothing.
   */
  lemma HandleReturnKeyIsTrimThenCreateBelow(st: AppState, t: TaskId, id: TaskId, now: nat)
    requires t in st.store.tasks && id !in st.store.tasks && IsFocused(st, t)
    ensures HandleReturnKey(st, t, id, now).store == CreateTaskBelow(TrimTitle(st.store, t), t, id, now)
  {
    var s1 := TrimTitle(st.store, t);
    if st.store.tasks[t].list.Some? {
      var s2 := CreateTaskBelow(s1, t, id, now);
      assert s2.tasks[t] == s1.tasks[t];
      TrimTitleKeepsTrimmed(s2, t);
      assert SetFocus(AppState(s2, st.focus), Some(id)) == AppState(s2, Some(id));
    }
  }

  /** The return key keeps the store valid. */
  lemma HandleReturnKeyKeepsValid(st: AppState, t: TaskId, id: TaskId, now: nat)
    requires Valid(st.store) && t in st.store.tasks && id !in st.store.tasks
    ensures Valid(HandleReturnKey(st, t, id, now).store)
  {
    var s1 := TrimTitle(st.store, t);
    TrimTitleKeepsValid(st.store, t);
    CreateTaskBelowFocusedKeepsValid(AppState(s1, st.focus), t, id, now);
  }

  /** `duplicateTask`, with the focus moved to the duplicate. */
  function DuplicateTaskFocused(st: AppState, t: TaskId, id: TaskId, now: nat): (r: AppState)
    requires t in st.store.tasks && id !in st.store.tasks
    ensures IsFocused(r, id)
    ensures r.store.tasks.Keys == st.store.tasks.Keys + {id}
    ensures r.store.tasks[id] == DuplicateTask(st.store, t, id, now).tasks[id]
    ensures r.store.lists == st.store.lists
    ensures OnlyBlurTrimmed(st, r)
  {
    SetFocus(AppState(DuplicateTask(st.store, t, id, now), st.focus), Some(id))
  }

  /**
   * `deleteSpecificTask`: clears the focus if (and only if) it is on `t`,
   * deletes `t` with all its subtasks, and saves. A focus on a deleted
   * subtask of `t` is kept, and then names no stored task.
   */
  method DeleteSpecificTask(st: AppState, t: TaskId) returns (r: AppState)
    requires Acyclic(st.store) && t in st.store.tasks
    ensures r.store == Prune(st.store, t)
    ensures t !in r.store.tasks
    ensures forall x :: x in r.store.tasks <==> x in st.store.tasks && !Reaches(st.store, x, {t})
    ensures forall x :: x in r.store.tasks ==> r.store.tasks[x] == st.store.tasks[x]
    ensures r.store.lists == st.store.lists
    ensures IsFocused(st, t) ==> r.focus == None
    ensures !IsFocused(st, t) ==> r.focus == st.focus
    ensures Valid(st.store) ==> Valid(r.store)
  {
    var focus := st.focus;
    if focus == Some(t) {
      focus := None;
    }
    var marked := DeleteTaskAndSubtasks(st.store, t, {});
    r := AppState(CommitDeletes(st.store, marked), focus);
    if Valid(st.store) {
      PruneKeepsValid(st.store, t);
    }
  }

  /** The tasks at the given positions of a snapshot of the visible rows. */
  function Selected(visible: seq<TaskId>, offsets: seq<nat>): (r: set<TaskId>)
    requires forall i :: 0 <= i < |offsets| ==> offsets[i] < |visible|
    ensures forall x :: x in r <==> exists i :: 0 <= i < |offsets| && visible[offsets[i]] == x
  {
    set i | 0 <= i < |offsets| :: visible[offsets[i]]
  }

  /**
   * `deleteTask(at:)` over a snapshot of the visible rows: each selected
   * task goes through `deleteSpecificTask`. The result is the store without
   * the subtrees of all selected tasks, whatever their order and even when
   * one selected task lies below another; the focus is cleared exactly when
   * it was on a selected task.
   */
  method DeleteTasksAt(st: AppState, visible: seq<TaskId>, offsets: seq<nat>) returns (r: AppState)
    requires Acyclic(st.store) && TasksListed(st.store, visible)
    requires forall i :: 0 <= i < |offsets| ==> offsets[i] < |visible|
    ensures r.store == PruneAll(st.store, Selected(visible, offsets))
    ensures forall x :: x in Selected(visible, offsets) ==> x !in r.store.tasks
    ensures st.focus.Some? && st.focus.value in Selected(visible, offsets) ==> r.focus == None
    ensures !(st.focus.Some? && st.focus.value in Selected(visible, offsets)) ==> r.focus == st.focus
    ensures Valid(st.store) ==> Valid(r.store)
  {
    r := st;
    SubtreesOfNothing(st.store);
    assert Selected(visible, offsets[..0]) == {};
    assert st.store.tasks - {} == st.store.tasks;
    var i := 0;
    while i < |offsets|
      invariant 0 <= i <= |offsets|
      invariant r.store == PruneAll(st.store, Selected(visible, offsets[..i]))
      invariant st.focus.Some? && st.focus.value in Selected(visible, offsets[..i]) ==> r.focus == None
      invariant !(st.focus.Some? && st.focus.value in Selected(visible, offsets[..i])) ==> r.focus == st.focus
    {
      var done := Selected(visible, offsets[..i]);
      var x := visible[offsets[i]];
      assert Selected(visible, offsets[..i + 1]) == done + {x} by {
        assert offsets[..i + 1] == offsets[..i] + [offsets[i]];
      }
      if x in r.store.tasks {
        PruneTwice(st.store, done, x);
        r := DeleteSpecificTask(r, x);
      } else {
        PruneAbsorbs(st.store, done, x);
        if r.focus == Some(x) {
          r := r.(focus := None);
        }
      }
      i := i + 1;
    }
    assert offsets[..i] == offsets;
    forall x | x in Selected(visible, offsets)
      ensures x !in r.store.tasks
    {
      assert Reaches(st.store, x, Selected(visible, offsets));
    }
    if Valid(st.store) {
      PruneAllKeepsAcyclic(st.store, Selected(visible, offsets));
    }
  }

  /** Duplicating a task and focusing the copy keeps the store valid. */
  lemma DuplicateTaskFocusedKeepsValid(st: AppState, t: TaskId, id: TaskId, now: nat)
    requires Valid(st.store) && t in st.store.tasks && id !in st.store.tasks
    ensures Valid(DuplicateTaskFocused(st, t, id, now).store)
  {
    DuplicateIsChildlessSibling(st.store, t, id, now);
    SetFocusKeepsValid(AppState(DuplicateTask(st.store, t, id, now), st.focus), Some(id));
  }
}
