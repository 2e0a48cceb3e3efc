/** The completed-task count that the App component derives with `reduce`
    on every render, and how each transition changes it. */
module Counting {
  import opened Tasks

  /** The `reduce` over the stored list: a left fold from 0 that adds one
      for each task whose flag is set. */
  function CompletedCount(ts: seq<Task>): (n: nat)
    ensures n <= |ts|
    ensures n == 0 <==> forall k :: 0 <= k < |ts| ==> !ts[k].completed
    ensures n == |ts| <==> forall k :: 0 <= k < |ts| ==> ts[k].completed
  {
    if ts == [] then 0
    else
      var init := ts[..|ts| - 1];
      assert forall k :: 0 <= k < |init| ==> init[k] == ts[k];
      CompletedCount(init) + (if ts[|ts| - 1].completed then 1 else 0)
  }

  /** The count of a concatenation is the sum of the counts. */
  lemma {:induction false} CountConcat(a: seq<Task>, b: seq<Task>)
    ensures CompletedCount(a + b) == CompletedCount(a) + CompletedCount(b)
    decreases |b|
  {
    if b == [] {
      assert a + b == a;
    } else {
      var init := b[..|b| - 1];
      CountConcat(a, init);
      assert (a + b)[..|a + b| - 1] == a + init;
      assert b[..|b| - 1] == init;
    }
  }

  /** The count depends only on which tasks are held, not on their order:
      any reordering of the list, whatever sort produced it, shows the
      same count. */
  lemma {:induction false} CountPermutationInvariant(a: seq<Task>, b: seq<Task>)
    requires multiset(a) == multiset(b)
    ensures CompletedCount(a) == CompletedCount(b)
    decreases |a|
  {
    if a == [] {
      assert |b| == |multiset(b)| == 0;
    } else {
      var x := a[|a| - 1];
      var init := a[..|a| - 1];
      assert a == init + [x];
      assert x in multiset(b);
      var j :| 0 <= j < |b| && b[j] == x;
      var rest := Delete(b, j);
      assert multiset(init) == multiset(rest) by {
        DeleteRemovesOne(b, j);
        assert multiset(init) == multiset(a) - multiset{x};
        assert multiset(rest) == multiset(b) - multiset{x};
      }
      CountPermutationInvariant(init, rest);
      CountAfterDelete(b, j);
      CountConcat(init, [x]);
    }
  }

  /** Completing an incomplete task raises the count by one, uncompleting a
      completed one lowers it by one, and setting a flag to the value it
      already has leaves the count alone. */
  lemma {:induction false} CountAfterSetCompleted(ts: seq<Task>, i: int, done: bool)
    requires 0 <= i < |ts|
    ensures CompletedCount(SetCompleted(ts, i, done)) + (if ts[i].completed then 1 else 0)
         == CompletedCount(ts) + (if done then 1 else 0)
  {
    var r := SetCompleted(ts, i, done);
    var front, back := ts[..i], ts[i + 1..];
    assert ts == front + [ts[i]] + back;
    assert r == front + [r[i]] + back;
    CountConcat(front + [ts[i]], back);
    CountConcat(front, [ts[i]]);
    CountConcat(front + [r[i]], back);
    CountConcat(front, [r[i]]);
  }

  /** Deleting a task lowers the count by one exactly when that task was
      completed. */
  lemma {:induction false} CountAfterDelete(ts: seq<Task>, k: int)
    requires 0 <= k < |ts|
    ensures CompletedCount(Delete(ts, k)) + (if ts[k].completed then 1 else 0) == CompletedCount(ts)
  {
    var front, back := ts[..k], ts[k + 1..];
    assert ts == front + [ts[k]] + back;
    CountConcat(front + [ts[k]], back);
    CountConcat(front, [ts[k]]);
    CountConcat(front, back);
  }

  /** A created task is incomplete, so creating never changes the count. */
  lemma {:induction false} CountAfterAppend(ts: seq<Task>, description: string)
    ensures CompletedCount(AppendTask(ts, description)) == CompletedCount(ts)
  {
    var r := AppendTask(ts, description);
    assert r[..|r| - 1] == ts;
  }
}
