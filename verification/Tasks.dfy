/** The task record held in the App component's state, and the list
    transitions behind its create, complete/uncomplete and delete handlers,
    stated on values. */
module Tasks {

  /** One task. The record's `completed` flag is optional; an absent flag and
      `false` are treated alike everywhere, so the model uses a plain bool
      that is false for a freshly created task. Every id comes from the
      allocation scheme of NextId, so ids are natural numbers. */
  datatype Task = Task(id: nat, description: string, completed: bool)

  /** Ids 1, 2, 3, ... in storage order: what a run of creates with no
      intervening completion or deletion leaves behind. */
  predicate SequentialIds(ts: seq<Task>)
  {
    forall k :: 0 <= k < |ts| ==> ts[k].id == k + 1
  }

  /** The id the create handler allocates: 1 when the list is empty, else one
      more than the id of the last stored element (not the largest id). */
  function NextId(ts: seq<Task>): (id: nat)
    ensures id >= 1
    ensures ts != [] ==> id > ts[|ts| - 1].id
    ensures SequentialIds(ts) ==> id == |ts| + 1
  {
    if ts == [] then 1 else ts[|ts| - 1].id + 1
  }

  /** The create handler: the stored list with one new, incomplete task
      appended. Any description is accepted, the empty string included. */
  function AppendTask(ts: seq<Task>, description: string): (r: seq<Task>)
    ensures |r| == |ts| + 1
    ensures r[..|ts|] == ts
    ensures r[|ts|].description == description && !r[|ts|].completed
    ensures r[|ts|].id == if ts == [] then 1 else ts[|ts| - 1].id + 1
  {
    ts + [Task(NextId(ts), description, false)]
  }

  /** Creates one task per description, in order, starting from the empty
      list: the stored list after a run of creates and nothing else. */
  function CreateAll(descriptions: seq<string>): seq<Task>
  {
    if descriptions == [] then []
    else AppendTask(CreateAll(descriptions[..|descriptions| - 1]), descriptions[|descriptions| - 1])
  }

  /** A run of creates from the empty list stores the tasks in call order,
      all incomplete, numbered 1 to n. */
  lemma {:induction false} CreateAllNumbersInOrder(descriptions: seq<string>)
    ensures |CreateAll(descriptions)| == |descriptions|
    ensures SequentialIds(CreateAll(descriptions))
    ensures forall k :: 0 <= k < |descriptions| ==>
      CreateAll(descriptions)[k].description == descriptions[k] && !CreateAll(descriptions)[k].completed
  {
    if descriptions != [] {
      var init := descriptions[..|descriptions| - 1];
      CreateAllNumbersInOrder(init);
      var before := CreateAll(init);
      var after := CreateAll(descriptions);
      assert after == AppendTask(before, descriptions[|descriptions| - 1]);
      forall k | 0 <= k < |descriptions|
        ensures after[k].id == k + 1
        ensures after[k].description == descriptions[k] && !after[k].completed
      {
        if k < |init| {
          assert after[k] == after[..|before|][k] == before[k];
          assert descriptions[k] == init[k];
        }
      }
    }
  }

  /** Sets the completion flag of the task at index i: the complete handler
      with done = true, the uncomplete handler with done = false. An index
      outside the list makes the source throw, so callers must pass a valid
      one (they pass the position of a rendered task). */
  function SetCompleted(ts: seq<Task>, i: int, done: bool): (r: seq<Task>)
    requires 0 <= i < |ts|
    ensures |r| == |ts|
    ensures r[i].completed == done
    ensures r[i].id == ts[i].id && r[i].description == ts[i].description
    ensures forall j :: 0 <= j < |ts| && j != i ==> r[j] == ts[j]
  {
    ts[i := ts[i].(completed := done)]
  }

  /** Setting the same flag twice is the same as setting it once. */
  lemma SetCompletedIdempotent(ts: seq<Task>, i: int, done: bool)
    requires 0 <= i < |ts|
    ensures SetCompleted(SetCompleted(ts, i, done), i, done) == SetCompleted(ts, i, done)
  {
  }

  /** Completing and then uncompleting the same index leaves the flag false
      and everything else as it was; on a task that was incomplete it
      restores the list exactly. */
  lemma CompleteThenUncomplete(ts: seq<Task>, i: int)
    requires 0 <= i < |ts|
    ensures SetCompleted(SetCompleted(ts, i, true), i, false) == SetCompleted(ts, i, false)
    ensures !ts[i].completed ==> SetCompleted(SetCompleted(ts, i, true), i, false) == ts
  {
    if !ts[i].completed {
      assert ts[i].(completed := false) == ts[i];
    }
  }

  /** The delete handler, `filter` by position: keeps every element whose
      position differs from k, in order. Positions are counted from 0, so
      the recursion shifts k down by one for the tail. A k outside the list
      removes nothing. */
  function Delete(ts: seq<Task>, k: int): (r: seq<Task>)
    ensures 0 <= k < |ts| ==> r == ts[..k] + ts[k + 1..]
    ensures !(0 <= k < |ts|) ==> r == ts
    decreases |ts|
  {
    if ts == [] then []
    else if k == 0 then Delete(ts[1..], k - 1)
    else [ts[0]] + Delete(ts[1..], k - 1)
  }

  /** Deleting position k removes exactly ts[k] and nothing else. */
  lemma {:induction false} DeleteRemovesOne(ts: seq<Task>, k: int)
    requires 0 <= k < |ts|
    ensures |Delete(ts, k)| == |ts| - 1
    ensures multiset(Delete(ts, k)) + multiset{ts[k]} == multiset(ts)
  {
    var front, back := ts[..k], ts[k + 1..];
    assert Delete(ts, k) == front + back;
    assert multiset(ts) == multiset(front) + multiset{ts[k]} + multiset(back) by {
      assert ts == front + [ts[k]] + back;
    }
  }
}
