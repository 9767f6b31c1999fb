/**
 * Subtrees of the `parentTask` hierarchy in an acyclic store: which tasks
 * hang below which, and the store left after removing a whole subtree. This
 * is the reference against which the recursive delete of `ContentView` is
 * proved.
 */
module Subtrees {
  import opened Wrappers
  import opened TaskStore

  /** `x` itself or one of its ancestors is in `roots`. */
  ghost predicate Reaches(s: Store, x: TaskId, roots: set<TaskId>)
    requires Acyclic(s) && x in s.tasks
    decreases Depth(s, x)
  {
    || x in roots
    || match s.tasks[x].parentTask
       case None => false
       case Some(p) => ParentDepth(s, x); Reaches(s, p, roots)
  }

  /** Every stored task whose parent chain meets `roots`. */
  ghost function SubtreesOf(s: Store, roots: set<TaskId>): (r: set<TaskId>)
    requires Acyclic(s)
  {
    set x | x in s.tasks && Reaches(s, x, roots)
  }

  /** `t` and every task whose parent chain reaches `t`. */
  ghost function Subtree(s: Store, t: TaskId): (r: set<TaskId>)
    requires Acyclic(s)
  {
    SubtreesOf(s, {t})
  }

  /** The store without the subtrees of `roots`. */
  ghost function PruneAll(s: Store, roots: set<TaskId>): (r: Store)
    requires Acyclic(s)
  {
    Store(s.tasks - SubtreesOf(s, roots), s.lists)
  }

  /** The store without the subtree of `t`: what a cascading delete must leave. */
  ghost function Prune(s: Store, t: TaskId): (r: Store)
    requires Acyclic(s)
  {
    PruneAll(s, {t})
  }

  /** Every task below `a` sits deeper than `a`, or is `a`. */
  lemma {:induction false} ReachesIsDeeper(s: Store, x: TaskId, a: TaskId)
    requires Acyclic(s) && x in s.tasks && Reaches(s, x, {a})
    ensures a in s.tasks && Depth(s, a) <= Depth(s, x)
    ensures x != a ==> Depth(s, a) < Depth(s, x)
    decreases Depth(s, x)
  {
    if x != a {
      ParentDepth(s, x);
      ReachesIsDeeper(s, s.tasks[x].parentTask.value, a);
    }
  }

  /** No task meets an empty set of roots. */
  lemma {:induction false} ReachesNothing(s: Store, x: TaskId)
    requires Acyclic(s) && x in s.tasks
    ensures !Reaches(s, x, {})
    decreases Depth(s, x)
  {
    if s.tasks[x].parentTask.Some? {
      ParentDepth(s, x);
      ReachesNothing(s, s.tasks[x].parentTask.value);
    }
  }

  lemma SubtreesOfNothing(s: Store)
    requires Acyclic(s)
    ensures SubtreesOf(s, {}) == {}
  {
    forall x | x in s.tasks
      ensures !Reaches(s, x, {})
    {
      ReachesNothing(s, x);
    }
  }

  /** Meeting a union of roots is meeting one of them. */
  lemma {:induction false} ReachesUnion(s: Store, x: TaskId, a: set<TaskId>, b: set<TaskId>)
    requires Acyclic(s) && x in s.tasks
    ensures Reaches(s, x, a + b) <==> Reaches(s, x, a) || Reaches(s, x, b)
    decreases Depth(s, x)
  {
    if s.tasks[x].parentTask.Some? {
      ParentDepth(s, x);
      ReachesUnion(s, s.tasks[x].parentTask.value, a, b);
    }
  }

  lemma SubtreesOfUnion(s: Store, a: set<TaskId>, b: set<TaskId>)
    requires Acyclic(s)
    ensures SubtreesOf(s, a + b) == SubtreesOf(s, a) + SubtreesOf(s, b)
  {
    forall x | x in s.tasks
      ensures Reaches(s, x, a + b) <==> Reaches(s, x, a) || Reaches(s, x, b)
    {
      ReachesUnion(s, x, a, b);
    }
  }

  /** Below `t` means: `t`, or below one of the subtasks of `t`. */
  lemma {:induction false} ReachesThroughSubtask(s: Store, x: TaskId, t: TaskId)
    requires Acyclic(s) && x in s.tasks
    ensures Reaches(s, x, {t}) <==> x == t || Reaches(s, x, Subtasks(s, t))
    decreases Depth(s, x)
  {
    if s.tasks[x].parentTask.Some? {
      var p := s.tasks[x].parentTask.value;
      ParentDepth(s, x);
      ReachesThroughSubtask(s, p, t);
      if p == t {
        assert x in Subtasks(s, t);
      }
    }
  }

  /** The subtree of `t` is `t` together with the subtrees of its subtasks. */
  lemma SubtreeSplit(s: Store, t: TaskId)
    requires Acyclic(s) && t in s.tasks
    ensures Subtree(s, t) == {t} + SubtreesOf(s, Subtasks(s, t))
  {
    forall x | x in s.tasks
      ensures Reaches(s, x, {t}) <==> x == t || Reaches(s, x, Subtasks(s, t))
    {
      ReachesThroughSubtask(s, x, t);
    }
  }

  /** The subtree of a subtask is strictly smaller than the subtree of its parent. */
  lemma SubtreeShrinks(s: Store, t: TaskId, c: TaskId)
    requires Acyclic(s) && t in s.tasks && c in Subtasks(s, t)
    ensures Subtree(s, c) < Subtree(s, t)
    ensures |Subtree(s, c)| < |Subtree(s, t)|
  {
    SubtreeSplit(s, t);
    SubtreesOfUnion(s, {c}, Subtasks(s, t) - {c});
    assert {c} + (Subtasks(s, t) - {c}) == Subtasks(s, t);
    ParentDepth(s, c);
    if t in Subtree(s, c) {
      ReachesIsDeeper(s, t, c);
    }
    assert Subtree(s, t) == Subtree(s, c) + (Subtree(s, t) - Subtree(s, c));
    assert t in Subtree(s, t) - Subtree(s, c);
  }

  /**
   * After removing the subtree of `t`, neither `t` nor any task whose parent
   * chain reached `t` remains, and every other task is still there, unchanged.
   */
  lemma PruneRemovesExactlySubtree(s: Store, t: TaskId)
    requires Acyclic(s) && t in s.tasks
    ensures t !in Prune(s, t).tasks
    ensures forall x :: x in Prune(s, t).tasks <==> x in s.tasks && !Reaches(s, x, {t})
    ensures forall x :: x in Prune(s, t).tasks ==> Prune(s, t).tasks[x] == s.tasks[x]
    ensures Prune(s, t).lists == s.lists
  {
  }

  /**
   * The ancestors of a task that survives are not pruned either, so the
   * pruned store keeps every remaining parent chain whole.
   */
  lemma {:induction false} SurvivorKeepsDepth(s: Store, roots: set<TaskId>, x: TaskId)
    requires Acyclic(s) && x in s.tasks && !Reaches(s, x, roots)
    ensures AtDepth(PruneAll(s, roots), x, Depth(s, x))
    decreases Depth(s, x)
  {
    if s.tasks[x].parentTask.Some? {
      var p := s.tasks[x].parentTask.value;
      ParentDepth(s, x);
      SurvivorKeepsDepth(s, roots, p);
    }
  }

  lemma PruneAllKeepsAcyclic(s: Store, roots: set<TaskId>)
    requires Acyclic(s)
    ensures Acyclic(PruneAll(s, roots))
  {
    forall x | x in PruneAll(s, roots).tasks
      ensures AtDepth(PruneAll(s, roots), x, Depth(s, x))
    {
      SurvivorKeepsDepth(s, roots, x);
    }
  }

  /** A cascading delete leaves a valid store: no parent reference dangles. */
  lemma PruneKeepsValid(s: Store, t: TaskId)
    requires Valid(s)
    ensures Valid(Prune(s, t))
  {
    PruneAllKeepsAcyclic(s, {t});
  }

  /** Below a task that is below `roots` is below `roots`. */
  lemma {:induction false} ReachesTransitive(s: Store, x: TaskId, b: TaskId, roots: set<TaskId>)
    requires Acyclic(s) && x in s.tasks && b in s.tasks
    requires Reaches(s, x, {b}) && Reaches(s, b, roots)
    ensures Reaches(s, x, roots)
    decreases Depth(s, x)
  {
    if x != b {
      ParentDepth(s, x);
      ReachesTransitive(s, s.tasks[x].parentTask.value, b, roots);
    }
  }

  /** In a pruned store a surviving task lies below the same tasks as before. */
  lemma {:induction false} ReachesAfterPrune(s: Store, roots: set<TaskId>, x: TaskId, r: set<TaskId>)
    requires Acyclic(s) && x in PruneAll(s, roots).tasks
    ensures Acyclic(PruneAll(s, roots))
    ensures Reaches(PruneAll(s, roots), x, r) <==> Reaches(s, x, r)
    decreases Depth(s, x)
  {
    var s1 := PruneAll(s, roots);
    PruneAllKeepsAcyclic(s, roots);
    if s.tasks[x].parentTask.Some? {
      var p := s.tasks[x].parentTask.value;
      ParentDepth(s, x);
      assert p in s1.tasks;
      ParentDepth(s1, x);
      ReachesAfterPrune(s, roots, p, r);
    }
  }

  /**
   * Deleting the subtree of `b` after those of `roots` leaves what deleting
   * the subtrees of `roots` and `b` at once leaves.
   */
  lemma PruneTwice(s: Store, roots: set<TaskId>, b: TaskId)
    requires Acyclic(s) && b in PruneAll(s, roots).tasks
    ensures Acyclic(PruneAll(s, roots))
    ensures Prune(PruneAll(s, roots), b) == PruneAll(s, roots + {b})
  {
    var s1 := PruneAll(s, roots);
    PruneAllKeepsAcyclic(s, roots);
    forall x | x in s.tasks
      ensures x in Prune(s1, b).tasks <==> x in PruneAll(s, roots + {b}).tasks
    {
      ReachesUnion(s, x, roots, {b});
      if x in s1.tasks {
        ReachesAfterPrune(s, roots, x, {b});
      }
    }
  }

  /** Deleting a task already deleted with an earlier subtree changes nothing. */
  lemma PruneAbsorbs(s: Store, roots: set<TaskId>, b: TaskId)
    requires Acyclic(s) && b in s.tasks && b !in PruneAll(s, roots).tasks
    ensures PruneAll(s, roots + {b}) == PruneAll(s, roots)
  {
    forall x | x in s.tasks
      ensures Reaches(s, x, roots + {b}) <==> Reaches(s, x, roots)
    {
      ReachesUnion(s, x, roots, {b});
      if Reaches(s, x, {b}) {
        ReachesTransitive(s, x, b, roots);
      }
    }
  }
}
