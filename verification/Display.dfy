/** The display order the App component gives its list on every render:
    the comparator handed to `sort`, the consistent comparator it evidently
    stands for, and the stable partition (incomplete tasks first) that the
    model takes as the outcome of that sort. */
module Display {
  import opened Tasks
  import opened Counting

  /** The comparator as written: 1 whenever the first task is completed,
      otherwise -1 when the second is, otherwise 0. */
  function Compare(t1: Task, t2: Task): (r: int)
    ensures t1.completed ==> r == 1
    ensures !t1.completed && !t2.completed ==> r == 0
    ensures r < 0 <==> !t1.completed && t2.completed
  {
    if t1.completed then 1
    else if t2.completed then -1
    else 0
  }

  /** The comparator the display order calls for: incomplete before
      completed, equal flags tie. */
  function ConsistentCompare(t1: Task, t2: Task): (r: int)
    ensures r == 0 <==> t1.completed == t2.completed
    ensures r < 0 <==> !t1.completed && t2.completed
  {
    if t1.completed == t2.completed then 0
    else if t1.completed then 1
    else -1
  }

  /** ConsistentCompare meets what `sort` asks of a comparator: it is
      antisymmetric in sign, reflexive and transitive. */
  lemma ConsistentCompareIsConsistent(a: Task, b: Task, c: Task)
    ensures ConsistentCompare(a, a) == 0
    ensures ConsistentCompare(a, b) == -ConsistentCompare(b, a)
    ensures ConsistentCompare(a, b) <= 0 && ConsistentCompare(b, c) <= 0 ==> ConsistentCompare(a, c) <= 0
  {
  }

  /** The comparator as written agrees with ConsistentCompare on every pair
      except two completed tasks. */
  lemma CompareAgreesUnlessBothCompleted(a: Task, b: Task)
    ensures !(a.completed && b.completed) ==> Compare(a, b) == ConsistentCompare(a, b)
    ensures a.completed && b.completed ==> Compare(a, b) == 1 && ConsistentCompare(a, b) == 0
  {
  }

  /** The comparator as written is inconsistent: in any list holding two
      completed tasks there is a pair for which compare(a, b) and
      compare(b, a) are both greater than 0, so each compares greater than
      the other. */
  lemma {:induction false} NoArrangementSortedByCompare(ts: seq<Task>, p: int, q: int)
    requires 0 <= p < |ts| && 0 <= q < |ts| && p != q
    requires ts[p].completed && ts[q].completed
    ensures exists i, j :: 0 <= i < j < |ts| && Compare(ts[i], ts[j]) > 0 && Compare(ts[j], ts[i]) > 0
  {
    var i, j := if p < q then p else q, if p < q then q else p;
    assert Compare(ts[i], ts[j]) > 0 && Compare(ts[j], ts[i]) > 0;
  }

  /** Sorted by ConsistentCompare: no task compares greater than a later
      one, that is, every incomplete task stands before every completed one. */
  predicate Partitioned(ts: seq<Task>)
  {
    forall i, j :: 0 <= i < j < |ts| ==> ConsistentCompare(ts[i], ts[j]) <= 0
  }

  /** The tasks whose flag equals done, in their order in ts. */
  function Group(ts: seq<Task>, done: bool): (r: seq<Task>)
    ensures |r| <= |ts|
    ensures forall k :: 0 <= k < |r| ==> r[k].completed == done
  {
    if ts == [] then []
    else
      assert ts == [ts[0]] + ts[1..];
      if ts[0].completed == done then [ts[0]] + Group(ts[1..], done)
      else Group(ts[1..], done)
  }

  lemma {:induction false} GroupConcat(a: seq<Task>, b: seq<Task>, done: bool)
    ensures Group(a + b, done) == Group(a, done) + Group(b, done)
  {
    if a == [] {
      assert a + b == b;
    } else {
      assert (a + b)[0] == a[0];
      assert (a + b)[1..] == a[1..] + b;
      GroupConcat(a[1..], b, done);
    }
  }

  /** The two groups together hold exactly the tasks of ts. */
  lemma {:induction false} GroupsCoverAll(ts: seq<Task>)
    ensures multiset(Group(ts, false)) + multiset(Group(ts, true)) == multiset(ts)
  {
    if ts != [] {
      GroupsCoverAll(ts[1..]);
      assert ts == [ts[0]] + ts[1..];
    }
  }

  /** A list whose flags all equal done is its own done group, and its
      other group is empty. */
  lemma {:induction false} GroupOfUniform(ts: seq<Task>, done: bool)
    requires forall k :: 0 <= k < |ts| ==> ts[k].completed == done
    ensures Group(ts, done) == ts
    ensures Group(ts, !done) == []
  {
    if ts != [] {
      GroupOfUniform(ts[1..], done);
      assert ts == [ts[0]] + ts[1..];
    }
  }

  /** A partitioned list is its incomplete group followed by its completed
      group. */
  lemma {:induction false} PartitionedSplits(ts: seq<Task>)
    requires Partitioned(ts)
    ensures ts == Group(ts, false) + Group(ts, true)
  {
    if ts != [] {
      if ts[0].completed {
        forall k | 0 <= k < |ts| ensures ts[k].completed {
          if k > 0 {
            assert ConsistentCompare(ts[0], ts[k]) <= 0;
          }
        }
        GroupOfUniform(ts, true);
      } else {
        var rest := ts[1..];
        assert Partitioned(rest) by {
          forall i, j | 0 <= i < j < |rest| ensures ConsistentCompare(rest[i], rest[j]) <= 0 {
            assert rest[i] == ts[i + 1] && rest[j] == ts[j + 1];
          }
        }
        PartitionedSplits(rest);
        assert ts == [ts[0]] + rest;
      }
    }
  }

  /** The display order: the stored list as a stable partition, the
      incomplete tasks first, each group in stored order. That it holds the
      same tasks, keeps both groups' order and is the only such arrangement
      is stated by DisplayOrderIsStablePartition and DisplayOrderUnique. */
  function DisplayOrder(ts: seq<Task>): (r: seq<Task>)
    ensures Partitioned(r)
  {
    Group(ts, false) + Group(ts, true)
  }

  /** The display order holds the same tasks as the stored list, is sorted
      by ConsistentCompare, and keeps the relative order within each group. */
  lemma {:induction false} DisplayOrderIsStablePartition(ts: seq<Task>)
    ensures |DisplayOrder(ts)| == |ts| && multiset(DisplayOrder(ts)) == multiset(ts)
    ensures Partitioned(DisplayOrder(ts))
    ensures Group(DisplayOrder(ts), false) == Group(ts, false)
    ensures Group(DisplayOrder(ts), true) == Group(ts, true)
  {
    var incomplete, completed := Group(ts, false), Group(ts, true);
    GroupsCoverAll(ts);
    assert |multiset(incomplete + completed)| == |multiset(ts)|;
    GroupConcat(incomplete, completed, false);
    GroupConcat(incomplete, completed, true);
    GroupOfUniform(incomplete, false);
    GroupOfUniform(completed, true);
  }

  /** DisplayOrder is the only arrangement with those three properties:
      any partitioned list that keeps the order within both groups is it. */
  lemma {:induction false} DisplayOrderUnique(ts: seq<Task>, r: seq<Task>)
    requires Partitioned(r)
    requires Group(r, false) == Group(ts, false) && Group(r, true) == Group(ts, true)
    ensures r == DisplayOrder(ts)
  {
    PartitionedSplits(r);
  }

  /** Re-rendering does not reorder: a list already in display order is
      left as it is, so applying the order twice is applying it once. */
  lemma {:induction false} DisplayOrderIdempotent(ts: seq<Task>)
    ensures Partitioned(ts) ==> DisplayOrder(ts) == ts
    ensures DisplayOrder(DisplayOrder(ts)) == DisplayOrder(ts)
  {
    if Partitioned(ts) {
      PartitionedSplits(ts);
    }
    DisplayOrderIsStablePartition(ts);
    PartitionedSplits(DisplayOrder(ts));
  }

  /** The display order of two tasks: they swap exactly when the first is
      completed and the second is not. */
  lemma DisplayOrderOfTwo(a: Task, b: Task)
    ensures DisplayOrder([a, b]) == if a.completed && !b.completed then [b, a] else [a, b]
  {
    var ab := [a, b];
    assert ab[1..] == [b] && [b][1..] == [];
    assert Group(ab, false) == (if a.completed then [] else [a]) + (if b.completed then [] else [b]);
    assert Group(ab, true) == (if a.completed then [a] else []) + (if b.completed then [b] else []);
  }

  /** The completed count is the size of the completed group, and the
      display order shows the same count as the stored list. */
  lemma {:induction false} CountIsCompletedGroupSize(ts: seq<Task>)
    ensures CompletedCount(ts) == |Group(ts, true)|
    ensures CompletedCount(DisplayOrder(ts)) == CompletedCount(ts)
  {
    if ts != [] {
      CountIsCompletedGroupSize(ts[1..]);
      CountConcat([ts[0]], ts[1..]);
      assert [ts[0]] + ts[1..] == ts;
      assert [ts[0]][..0] == [];
    }
    DisplayOrderIsStablePartition(ts);
    CountPermutationInvariant(DisplayOrder(ts), ts);
  }

  /** A created task, being incomplete, is shown after every incomplete
      task and before every completed one. */
  lemma {:induction false} DisplayAfterCreate(ts: seq<Task>, description: string)
    ensures DisplayOrder(AppendTask(ts, description))
         == Group(ts, false) + [Task(NextId(ts), description, false)] + Group(ts, true)
  {
    var t := Task(NextId(ts), description, false);
    GroupConcat(ts, [t], false);
    GroupConcat(ts, [t], true);
    assert [t][1..] == [];
  }

  /** Ids are not unique: with tasks 1 and 2, completing task 1 moves it
      behind task 2 on the next render, and the next create then takes id
      1 + 1 = 2, the id task 2 still holds. */
  lemma IdRepeatsAfterSort()
    ensures var stored := [Task(1, "a", false), Task(2, "b", false)];
            var shown := DisplayOrder(SetCompleted(stored, 0, true));
            var after := AppendTask(shown, "c");
            after[0].id == 2 && after[2].id == 2
  {
    var a, b := Task(1, "a", true), Task(2, "b", false);
    var completedFirst := [a, b];
    assert SetCompleted([Task(1, "a", false), Task(2, "b", false)], 0, true) == completedFirst;
    assert completedFirst[1..] == [b] && [b][1..] == [];
    assert Group(completedFirst, false) == [b];
    assert Group(completedFirst, true) == [a];
  }
}
