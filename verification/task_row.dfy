/**
 * The store-level logic of one task row: the clamped indentation used for
 * display, completion toggling, title trimming and duplication.
 */
module TaskRow {
  import opened Wrappers
  import opened TaskStore
  import opened Subtrees

  const MaxIndentation: int := 5

  /** The indentation used for display: the stored level clamped to [0, 5]. */
  function SafeIndentationLevel(level: int): (r: int)
    ensures 0 <= r <= MaxIndentation
    ensures 0 <= level <= MaxIndentation ==> r == level
    ensures level < 0 ==> r == 0
    ensures level > MaxIndentation ==> r == MaxIndentation
  {
    var upper := if MaxIndentation < level then MaxIndentation else level;
    if 0 < upper then upper else 0
  }

  /** Clamping an already clamped level changes nothing. */
  lemma SafeIndentationIdempotent(level: int)
    ensures SafeIndentationLevel(SafeIndentationLevel(level)) == SafeIndentationLevel(level)
  {
  }

  /**
   * Foundation's `whitespacesAndNewlines`: Unicode general category Z,
   * the tab, and the line breaks U+000A to U+000D and U+0085.
   */
  predicate IsWhitespace(c: char)
  {
    || ('\U{9}' <= c <= '\U{D}')
    || c == '\U{20}' || c == '\U{85}' || c == '\U{A0}' || c == '\U{1680}'
    || ('\U{2000}' <= c <= '\U{200A}')
    || c == '\U{2028}' || c == '\U{2029}' || c == '\U{202F}' || c == '\U{205F}' || c == '\U{3000}'
  }

  /** Neither the first nor the last character is whitespace. */
  predicate IsTrimmed(s: string)
  {
    s == [] || (!IsWhitespace(s[0]) && !IsWhitespace(s[|s| - 1]))
  }

  /** `s` without its leading whitespace. */
  function TrimStart(s: string): (r: string)
    ensures |r| <= |s| && r == s[|s| - |r|..]
    ensures forall i :: 0 <= i < |s| - |r| ==> IsWhitespace(s[i])
    ensures r == [] || !IsWhitespace(r[0])
  {
    if |s| > 0 && IsWhitespace(s[0]) then TrimStart(s[1..]) else s
  }

  /** `s` without its trailing whitespace. */
  function TrimEnd(s: string): (r: string)
    ensures |r| <= |s| && r == s[..|r|]
    ensures forall i :: |r| <= i < |s| ==> IsWhitespace(s[i])
    ensures r == [] || !IsWhitespace(r[|r| - 1])
  {
    if |s| > 0 && IsWhitespace(s[|s| - 1]) then TrimEnd(s[..|s| - 1]) else s
  }

  /**
   * `r` is `s` with its first `i` characters and its last `|s| - i - |r|`
   * characters cut off, all of them whitespace.
   */
  predicate IsWhitespaceCut(s: string, r: string, i: int)
  {
    && 0 <= i <= |s| - |r|
    && r == s[i..i + |r|]
    && (forall k :: 0 <= k < i ==> IsWhitespace(s[k]))
    && (forall k :: i + |r| <= k < |s| ==> IsWhitespace(s[k]))
  }

  /**
   * Foundation's `trimmingCharacters` over `whitespacesAndNewlines`: the part of `s`
   * left by cutting whitespace off both ends until neither end is
   * whitespace.
   */
  function Trim(s: string): (r: string)
    ensures IsTrimmed(r)
    ensures exists i :: IsWhitespaceCut(s, r, i)
  {
    var front := TrimStart(s);
    var r := TrimEnd(front);
    assert IsWhitespaceCut(s, r, |s| - |front|);
    r
  }

  /**
   * The trimming is the only whitespace cut of `s` that neither starts nor
   * ends with whitespace.
   */
  lemma TrimIsOnlyTrimmedCut(s: string, r: string, i: int)
    requires IsTrimmed(r) && IsWhitespaceCut(s, r, i)
    ensures r == Trim(s)
  {
    var t := Trim(s);
    var j :| IsWhitespaceCut(s, t, j);
    if r != [] {
      assert s[i] == r[0] && s[i + |r| - 1] == r[|r| - 1];
    }
    if t != [] {
      assert s[j] == t[0] && s[j + |t| - 1] == t[|t| - 1];
    }
    if r != [] && t != [] {
      assert i == j && |r| == |t|;
    }
  }

  /** A title without surrounding whitespace is its own trimming. */
  lemma TrimKeepsTrimmed(s: string)
    requires IsTrimmed(s)
    ensures Trim(s) == s
  {
  }

  /** Trimming twice is trimming once. */
  lemma TrimIdempotent(s: string)
    ensures Trim(Trim(s)) == Trim(s)
  {
    TrimKeepsTrimmed(Trim(s));
  }

  /** The row's blur and return-key reaction: the title of the stored task `t` is replaced by its trimmed form. */
  function TrimTitle(s: Store, t: TaskId): (r: Store)
    requires t in s.tasks
    ensures r.lists == s.lists && r.tasks.Keys == s.tasks.Keys
    ensures r.tasks[t].title == Trim(s.tasks[t].title)
    ensures IsTrimmed(r.tasks[t].title)
    ensures r.tasks[t] == s.tasks[t].(title := r.tasks[t].title)
    ensures forall x :: x in s.tasks && x != t ==> r.tasks[x] == s.tasks[x]
  {
    AddTask(s, t, s.tasks[t].(title := Trim(s.tasks[t].title)))
  }

  /** Trimming a title that is already trimmed leaves the store as it is. */
  lemma TrimTitleKeepsTrimmed(s: Store, t: TaskId)
    requires t in s.tasks && IsTrimmed(s.tasks[t].title)
    ensures TrimTitle(s, t) == s
  {
    TrimKeepsTrimmed(s.tasks[t].title);
    assert TrimTitle(s, t).tasks == s.tasks;
  }

  /** Trimming a title twice leaves the store as trimming it once. */
  lemma TrimTitleIdempotent(s: Store, t: TaskId)
    requires t in s.tasks
    ensures TrimTitle(TrimTitle(s, t), t) == TrimTitle(s, t)
  {
    TrimTitleKeepsTrimmed(TrimTitle(s, t), t);
  }

  /** Trimming a title keeps the store valid. */
  lemma TrimTitleKeepsValid(s: Store, t: TaskId)
    requires Valid(s) && t in s.tasks
    ensures Valid(TrimTitle(s, t))
  {
    UpdateTaskKeepsValid(s, t, TrimTitle(s, t).tasks[t]);
  }

  /** `toggleCompletion`: flips `isComplete` of `t` and touches nothing else. */
  function ToggleCompletion(s: Store, t: TaskId): (r: Store)
    requires t in s.tasks
    ensures r.lists == s.lists && r.tasks.Keys == s.tasks.Keys
    ensures r.tasks[t].isComplete == !s.tasks[t].isComplete
    ensures r.tasks[t].(isComplete := s.tasks[t].isComplete) == s.tasks[t]
    ensures forall x :: x in s.tasks && x != t ==> r.tasks[x] == s.tasks[x]
  {
    AddTask(s, t, s.tasks[t].(isComplete := !s.tasks[t].isComplete))
  }

  /** Toggling twice restores the store. */
  lemma ToggleTwiceRestores(s: Store, t: TaskId)
    requires t in s.tasks
    ensures ToggleCompletion(ToggleCompletion(s, t), t) == s
  {
    var r := ToggleCompletion(ToggleCompletion(s, t), t);
    assert r.tasks == s.tasks;
  }

  /** Toggling completion keeps the store valid. */
  lemma ToggleCompletionKeepsValid(s: Store, t: TaskId)
    requires Valid(s) && t in s.tasks
    ensures Valid(ToggleCompletion(s, t))
  {
    UpdateTaskKeepsValid(s, t, ToggleCompletion(s, t).tasks[t]);
  }

  /**
   * `duplicateTask`: one new task with the title of `t`, not complete, the
   * clamped indentation, and the list and parent of `t`; nothing else changes.
   */
  function DuplicateTask(s: Store, t: TaskId, id: TaskId, now: nat): (r: Store)
    requires t in s.tasks && id !in s.tasks
    ensures r.lists == s.lists
    ensures r.tasks.Keys == s.tasks.Keys + {id}
    ensures forall x :: x in s.tasks ==> r.tasks[x] == s.tasks[x]
    ensures r.tasks[id].title == s.tasks[t].title
    ensures !r.tasks[id].isComplete
    ensures r.tasks[id].creationDate == now
    ensures r.tasks[id].indentationLevel == SafeIndentationLevel(s.tasks[t].indentationLevel)
    ensures r.tasks[id].list == s.tasks[t].list
    ensures r.tasks[id].parentTask == s.tasks[t].parentTask
  {
    var original := s.tasks[t];
    var copy := NewTask(original.title, isComplete := false, creationDate := now,
                        indentationLevel := SafeIndentationLevel(original.indentationLevel));
    AddTask(s, id, copy.(list := original.list, parentTask := original.parentTask))
  }

  /**
   * The duplicate is a sibling of `t` with no subtasks of its own: the
   * subtree of `t` is not copied, and the store stays valid.
   */
  lemma DuplicateIsChildlessSibling(s: Store, t: TaskId, id: TaskId, now: nat)
    requires Valid(s) && t in s.tasks && id !in s.tasks
    ensures Valid(DuplicateTask(s, t, id, now))
    ensures Subtasks(DuplicateTask(s, t, id, now), id) == {}
    ensures forall p :: id in Subtasks(DuplicateTask(s, t, id, now), p) <==> t in Subtasks(s, p)
    ensures Subtasks(DuplicateTask(s, t, id, now), t) == Subtasks(s, t)
  {
    var r := DuplicateTask(s, t, id, now);
    if s.tasks[t].parentTask.Some? {
      ParentDepth(s, t);
    }
    AddTaskKeepsValid(s, id, r.tasks[id]);
    forall c | c in s.tasks
      ensures s.tasks[c].parentTask != Some(id)
    {
      if s.tasks[c].parentTask.Some? {
        ParentDepth(s, c);
      }
    }
  }
}
