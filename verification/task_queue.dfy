/** task.c: the doubly linked list of tasks and the round robin over it. */
module TaskQueue {

  /** The list fields of struct task. */
  class Task {
    var prev: Task?
    var next: Task?

    constructor ()
      ensures prev == null && next == null
    {
      prev, next := null, null;
    }
  }

  ghost function At(tasks: seq<Task>, k: int): Task? {
    if 0 <= k < |tasks| then tasks[k] else null
  }

  /** Every task's next is the task after it. */
  ghost predicate NextLinks(tasks: seq<Task>, nexts: seq<Task?>) {
    |nexts| == |tasks| && forall k :: 0 <= k < |tasks| ==> nexts[k] == At(tasks, k + 1)
  }

  ghost function NextsOf(tasks: seq<Task>): (nexts: seq<Task?>)
    reads tasks
    ensures |nexts| == |tasks| && forall k {:trigger nexts[k]} :: 0 <= k < |tasks| ==> nexts[k] == tasks[k].next
  {
    seq(|tasks|, k requires 0 <= k < |tasks| reads tasks => tasks[k].next)
  }

  ghost function PrevsOf(tasks: seq<Task>): (prevs: seq<Task?>)
    reads tasks
    ensures |prevs| == |tasks| && forall k {:trigger prevs[k]} :: 0 <= k < |tasks| ==> prevs[k] == tasks[k].prev
  {
    seq(|tasks|, k requires 0 <= k < |tasks| reads tasks => tasks[k].prev)
  }

  lemma LinksWithout(tasks: seq<Task>, k: nat)
    requires k < |tasks|
    ensures NextsOf(Without(tasks, k)) == Without(NextsOf(tasks), k)
    ensures PrevsOf(Without(tasks, k)) == Without(PrevsOf(tasks), k)
  {
  }

  /** Head, tail and next links spell tasks, and the current task is one of them. */
  ghost predicate Spells(head: Task?, tail: Task?, nexts: seq<Task?>, current: Task?, tasks: seq<Task>) {
    && head == At(tasks, 0) && tail == At(tasks, |tasks| - 1)
    && Distinct(tasks)
    && NextLinks(tasks, nexts)
    && (if tasks == [] then current == null else current in tasks)
  }

  /** Every task's prev is the task before it. */
  ghost predicate BackLinks(tasks: seq<Task>, prevs: seq<Task?>) {
    |prevs| == |tasks| && forall k :: 0 <= k < |tasks| ==> prevs[k] == At(tasks, k - 1)
  }

  ghost predicate Distinct(tasks: seq<Task>) {
    forall j, k :: 0 <= j < k < |tasks| ==> tasks[j] != tasks[k]
  }

  function Without<T>(s: seq<T>, k: nat): seq<T>
    requires k < |s|
  {
    s[..k] + s[k + 1..]
  }

  lemma WithoutDistinct(tasks: seq<Task>, k: nat)
    requires Distinct(tasks) && k < |tasks|
    ensures Distinct(Without(tasks, k)) && tasks[k] !in Without(tasks, k)
    ensures forall j :: 0 <= j < |tasks| - 1 ==> Without(tasks, k)[j] == if j < k then tasks[j] else tasks[j + 1]
    ensures forall t :: t in tasks && t != tasks[k] ==> t in Without(tasks, k)
  {
    var rest := Without(tasks, k);
    assert forall j :: 0 <= j < |rest| ==> rest[j] == tasks[if j < k then j else j + 1];
    forall t | t in tasks && t != tasks[k]
      ensures t in rest
    {
      var j :| 0 <= j < |tasks| && tasks[j] == t;
      assert rest[if j < k then j else j - 1] == t;
    }
  }

  /** task_head, task_tail and current_task; `tasks` is the forward order. */
  class Queue {
    var head: Task?
    var tail: Task?
    var current: Task?
    ghost var tasks: seq<Task>

    constructor ()
      ensures Valid() && tasks == []
    {
      head, tail, current := null, null, null;
      tasks := [];
    }

    ghost predicate Forward()
      reads this, tasks
    {
      Spells(head, tail, NextsOf(tasks), current, tasks)
    }

    ghost predicate Backward()
      reads this, tasks
    {
      BackLinks(tasks, PrevsOf(tasks))
    }

    ghost predicate Valid()
      reads this, tasks
    {
      Forward() && Backward()
    }

    /** The list part of task_new. */
    method Insert(task: Task)
      requires Forward() && task !in tasks && task.prev == null && task.next == null
      modifies this, task, tasks
      ensures Forward() && tasks == old(tasks) + [task]
      ensures old(Backward()) ==> Backward()
      ensures current == if old(tasks) == [] then task else old(current)
    {
      ghost var before := tasks;
      tasks := tasks + [task];
      if head == null {
        assert before == [];
        head, tail, current := task, task, task;
        return;
      }
      assert tail == before[|before| - 1];
      tail.next := task;
      task.prev := tail;
      tail := task;
      assert NextsOf(tasks) == old(NextsOf(tasks))[|before| - 1 := task] + [null];
      ghost var prevs := PrevsOf(tasks);
      assert prevs == old(PrevsOf(tasks)) + [old(tail)];
    }

    /** task_get_next. */
    method GetNext(ghost i: nat) returns (next: Task)
      requires Forward() && i < |tasks| && current == tasks[i]
      ensures next == if i + 1 < |tasks| then tasks[i + 1] else tasks[0]
    {
      assert NextsOf(tasks)[i] == current.next;
      next := if current.next != null then current.next else head;
    }

    /** task_next: the switch to whatever task_get_next returns. */
    method TaskNext(ghost i: nat)
      requires Forward() && i < |tasks| && current == tasks[i]
      modifies this`current
      ensures Forward() && tasks == old(tasks) && current == tasks[if i + 1 < |tasks| then i + 1 else 0]
      ensures Follows(tasks, old(current), current)
      ensures old(Backward()) ==> Backward()
    {
      var next := GetNext(i);
      SuccessorFollows(tasks, i);
      current := next;
      assert PrevsOf(tasks) == old(PrevsOf(tasks)) && NextsOf(tasks) == old(NextsOf(tasks));
    }

    /** The timer's work: m interrupts, each a call of task_next; currents lists who ran. */
    method Ticks(m: nat) returns (ghost currents: seq<Task>)
      requires Forward() && tasks != []
      modifies this`current
      ensures Forward() && tasks == old(tasks) && |currents| == m + 1
      ensures currents[0] == old(current) && currents[m] == current && Rotates(tasks, currents)
      ensures forall a: nat, t :: a + |tasks| <= m + 1 && t in tasks ==> RunsOnceFrom(currents, a, |tasks|, t)
    {
      currents := [current];
      var k := 0;
      while k < m
        invariant 0 <= k <= m && Forward() && tasks == old(tasks) && |currents| == k + 1
        invariant currents[0] == old(current) && currents[k] == current && Rotates(tasks, currents)
      {
        ghost var i: nat :| i < |tasks| && tasks[i] == current;
        TaskNext(i);
        currents := currents + [current];
        k := k + 1;
      }
      EveryTaskRunsOnce(tasks, currents);
    }

    /** if (task->prev) task->prev->next = task->next. */
    method Bypass(task: Task, ghost k: nat)
      requires k < |tasks| && tasks[k] == task
      modifies if task.prev != null then {task.prev} else {}
      ensures NextsOf(tasks) == Relinked(tasks, old(NextsOf(tasks)), task.prev, old(task.next))
      ensures PrevsOf(tasks) == old(PrevsOf(tasks)) && task.next == old(task.next) && task.prev == old(task.prev)
    {
      ghost var nexts := NextsOf(tasks);
      if task.prev != null {
        task.prev.next := task.next;
      }
      assert forall i :: 0 <= i < |tasks| ==>
          NextsOf(tasks)[i] == if tasks[i] == task.prev then old(task.next) else nexts[i];
    }

    /**
     task_list_remove. The links spell the list without the task exactly when its own prev link is
     right, or when it is the head of a longer list and its prev link leads to no other task of the
     queue. The current task is replaced by its successor, and no other task's prev link goes away.
     */
    method Remove(task: Task, ghost k: nat)
      requires Forward() && k < |tasks| && tasks[k] == task
      modifies this, tasks, if task.prev != null then {task.prev} else {}
      ensures tasks == Without(old(tasks), k)
      ensures Forward() <==> CanUnlink(old(tasks), k, old(task.prev))
      ensures old(current) != task ==> current == old(current)
      ensures old(current) == task ==> current == if |tasks| > 0 then tasks[if k < |tasks| then k else 0] else null
      ensures old(current) == task && |old(tasks)| > 1 ==> Follows(old(tasks), task, current)
      ensures PrevsOf(tasks) == Without(old(PrevsOf(tasks)), k)
    {
      ghost var before := tasks;
      UnlinkIff(head, tail, NextsOf(before), current, before, k, task.prev);
      SuccessorStays(before, k);
      assert NextsOf(before)[k] == task.next;
      Bypass(task, k);
      ghost var nexts, prevs := NextsOf(before), PrevsOf(before);
      if task == head {
        head := task.next;
      }
      if task == tail {
        tail := task.prev;
      }
      if task == current {
        if current.next != null {
          current := current.next;
        } else {
          current := head;
        }
      }
      tasks := Without(before, k);
      LinksWithout(before, k);
      assert NextsOf(before) == nexts && PrevsOf(before) == prevs;
    }
  }

  /** What the caller of task_list_remove has to see to. */
  ghost predicate CanUnlink(tasks: seq<Task>, k: nat, prev: Task?)
    requires k < |tasks|
  {
    prev == At(tasks, k - 1) || (k == 0 && |tasks| > 1 && (prev !in tasks || prev == tasks[0]))
  }

  /** The next links after prev's is set to next. */
  ghost function Relinked(tasks: seq<Task>, nexts: seq<Task?>, prev: Task?, next: Task?): seq<Task?>
    requires |nexts| == |tasks|
  {
    seq(|nexts|, i requires 0 <= i < |nexts| => if tasks[i] == prev then next else nexts[i])
  }

  /** The links after task_list_remove spell the list without the task exactly when it could be unlinked. */
  lemma UnlinkIff(head: Task?, tail: Task?, nexts: seq<Task?>, current: Task?, tasks: seq<Task>, k: nat, prev: Task?)
    requires Spells(head, tail, nexts, current, tasks) && k < |tasks|
    ensures var rest, next := Without(tasks, k), At(tasks, k + 1);
            Spells(
              if tasks[k] == head then next else head,
              if tasks[k] == tail then prev else tail,
              Without(Relinked(tasks, nexts, prev, next), k),
              if current != tasks[k] then current
              else if next != null then next
              else if tasks[k] == head then next else head,
              rest)
            <==> CanUnlink(tasks, k, prev)
  {
    WithoutDistinct(tasks, k);
    RelinkedAt(tasks, nexts, k, prev);
    if CanUnlink(tasks, k, prev) {
      RelinkedWell(tasks, nexts, k, prev);
    } else if k > 0 || |tasks| > 1 {
      RelinkedBadly(tasks, nexts, k, prev);
    }
  }

  lemma RelinkedAt(tasks: seq<Task>, nexts: seq<Task?>, k: nat, prev: Task?)
    requires Distinct(tasks) && NextLinks(tasks, nexts) && k < |tasks|
    ensures var left := Without(Relinked(tasks, nexts, prev, At(tasks, k + 1)), k);
            && |left| == |tasks| - 1
            && forall j :: 0 <= j < |left| ==>
                 var i := if j < k then j else j + 1;
                 left[j] == if tasks[i] == prev then At(tasks, k + 1) else At(tasks, i + 1)
  {
  }

  lemma RelinkedWell(tasks: seq<Task>, nexts: seq<Task?>, k: nat, prev: Task?)
    requires Distinct(tasks) && NextLinks(tasks, nexts) && k < |tasks| && CanUnlink(tasks, k, prev)
    ensures NextLinks(Without(tasks, k), Without(Relinked(tasks, nexts, prev, At(tasks, k + 1)), k))
  {
    WithoutDistinct(tasks, k);
    RelinkedAt(tasks, nexts, k, prev);
  }

  lemma RelinkedBadly(tasks: seq<Task>, nexts: seq<Task?>, k: nat, prev: Task?)
    requires Distinct(tasks) && NextLinks(tasks, nexts) && k < |tasks| && !CanUnlink(tasks, k, prev)
    requires k > 0 || |tasks| > 1
    ensures !NextLinks(Without(tasks, k), Without(Relinked(tasks, nexts, prev, At(tasks, k + 1)), k))
  {
    WithoutDistinct(tasks, k);
    RelinkedAt(tasks, nexts, k, prev);
    var rest, left := Without(tasks, k), Without(Relinked(tasks, nexts, prev, At(tasks, k + 1)), k);
    if k > 0 {
      assert left[k - 1] == tasks[k] && At(rest, k) != tasks[k];
    } else {
      var j :| 0 < j < |tasks| && prev == tasks[j];
      assert left[j - 1] == At(tasks, 1) && At(rest, j) == At(tasks, j + 1);
    }
  }

  /**
   The successor of a removed task keeps its stale prev link: the backward links survive a removal
   exactly when the task was the last one.
   */
  lemma BackLinksSurviveIff(tasks: seq<Task>, prevs: seq<Task?>, k: nat)
    requires Distinct(tasks) && BackLinks(tasks, prevs) && k < |tasks|
    ensures BackLinks(Without(tasks, k), Without(prevs, k)) <==> k == |tasks| - 1
  {
    var rest, left := Without(tasks, k), Without(prevs, k);
    if k < |tasks| - 1 {
      assert left[k] == prevs[k + 1] == tasks[k];
      assert k > 0 ==> rest[k - 1] == tasks[k - 1];
      assert left[k] != At(rest, k - 1);
    }
  }

  /**
   Removing a task and then the one after it: with its prev link stale, the second can be unlinked
   only as the new head of a list that goes on after it.
   */
  lemma SuccessorCanUnlinkIff(tasks: seq<Task>, prevs: seq<Task?>, k: nat)
    requires Distinct(tasks) && BackLinks(tasks, prevs) && k + 1 < |tasks|
    ensures CanUnlink(Without(tasks, k), k, Without(prevs, k)[k]) <==> k == 0 && |tasks| > 2
  {
    WithoutDistinct(tasks, k);
    assert Without(prevs, k)[k] == tasks[k];
  }

  /** In the round u comes right after t. */
  ghost predicate Follows(tasks: seq<Task>, t: Task?, u: Task?) {
    exists k: nat :: k < |tasks| && t == tasks[k] && u == tasks[NextIndex(k, |tasks|)]
  }

  lemma SuccessorFollows(tasks: seq<Task>, i: nat)
    requires i < |tasks|
    ensures Follows(tasks, tasks[i], tasks[if i + 1 < |tasks| then i + 1 else 0])
  {
    assert tasks[NextIndex(i, |tasks|)] == tasks[if i + 1 < |tasks| then i + 1 else 0];
  }

  /** Where the task after the one taken out is then. */
  lemma SuccessorStays(tasks: seq<Task>, k: nat)
    requires k < |tasks|
    ensures var rest := Without(tasks, k);
            && (|tasks| == 1 ==> rest == [])
            && (|tasks| > 1 ==>
                  && Follows(tasks, tasks[k], rest[if k < |rest| then k else 0])
                  && rest[if k < |rest| then k else 0] == if k + 1 < |tasks| then tasks[k + 1] else tasks[0])
  {
    SuccessorFollows(tasks, k);
  }

  // -- Round robin -------------------------------------------------------------------------------

  /** Position of the task that follows position i among n. */
  function NextIndex(i: nat, n: nat): (j: nat)
    requires i < n
    ensures j < n
  {
    if i + 1 < n then i + 1 else 0
  }

  /** Position of the current task after m switches. */
  function AfterSwitches(i: nat, n: nat, m: nat): (j: nat)
    requires i < n
    ensures j < n
  {
    if m == 0 then i else NextIndex(AfterSwitches(i, n, m - 1), n)
  }

  lemma {:induction false} SwitchesAdd(i: nat, n: nat, a: nat, b: nat)
    requires i < n
    ensures AfterSwitches(i, n, a + b) == AfterSwitches(AfterSwitches(i, n, a), n, b)
    decreases b
  {
    if b > 0 {
      SwitchesAdd(i, n, a, b - 1);
      assert a + b - 1 == a + (b - 1);
    }
  }

  lemma {:induction false} SwitchesWithinRound(i: nat, n: nat, m: nat)
    requires i < n && m <= n
    ensures AfterSwitches(i, n, m) == if i + m < n then i + m else i + m - n
  {
    if m > 0 {
      SwitchesWithinRound(i, n, m - 1);
    }
  }

  ghost predicate RunsAt(i: nat, n: nat, j: nat, m: nat)
    requires i < n
  {
    AfterSwitches(i, n, m) == j
  }

  /** In any n consecutive positions of the rotation every index occurs exactly once. */
  lemma EachIndexOncePerRound(i: nat, n: nat, a: nat, j: nat)
    requires i < n && j < n
    ensures exists m: nat :: a <= m < a + n && RunsAt(i, n, j, m)
    ensures forall m: nat, l: nat ::
              a <= m < a + n && a <= l < a + n && RunsAt(i, n, j, m) && RunsAt(i, n, j, l) ==> m == l
  {
    var c := AfterSwitches(i, n, a);
    forall m: nat | a <= m < a + n
      ensures AfterSwitches(i, n, m) == if c + (m - a) < n then c + (m - a) else c + (m - a) - n
    {
      SwitchesAdd(i, n, a, m - a);
      SwitchesWithinRound(c, n, m - a);
    }
    var m := a + if j >= c then j - c else j + n - c;
    assert RunsAt(i, n, j, m);
  }

  // -- Rounds of tasks ---------------------------------------------------------------------------

  /** Each task of the list is the one that follows the one before it, from some task of the queue on. */
  ghost predicate Rotates(tasks: seq<Task>, currents: seq<Task>) {
    && currents != [] && currents[0] in tasks
    && forall k :: 0 < k < |currents| ==> Follows(tasks, currents[k - 1], currents[k])
  }

  ghost predicate IsAt(currents: seq<Task>, m: int, t: Task) {
    0 <= m < |currents| && currents[m] == t
  }

  /** Among the n from position a on, t occurs exactly once. */
  ghost predicate RunsOnceFrom(currents: seq<Task>, a: nat, n: nat, t: Task) {
    && (exists m :: a <= m < a + n && IsAt(currents, m, t))
    && (forall m, l :: a <= m < a + n && a <= l < a + n && IsAt(currents, m, t) && IsAt(currents, l, t) ==> m == l)
  }

  lemma {:induction false} RotationIndex(tasks: seq<Task>, currents: seq<Task>, i: nat, m: nat)
    requires Distinct(tasks) && Rotates(tasks, currents) && m < |currents| && i < |tasks| && tasks[i] == currents[0]
    ensures currents[m] == tasks[AfterSwitches(i, |tasks|, m)]
  {
    if m > 0 {
      RotationIndex(tasks, currents, i, m - 1);
      assert Follows(tasks, currents[m - 1], currents[m]);
    }
  }

  /** In any n consecutive switches each of the n tasks of the queue is current exactly once. */
  lemma EachTaskOncePerRound(tasks: seq<Task>, currents: seq<Task>, a: nat, t: Task)
    requires Distinct(tasks) && Rotates(tasks, currents) && a + |tasks| <= |currents| && t in tasks
    ensures RunsOnceFrom(currents, a, |tasks|, t)
  {
    var n := |tasks|;
    var i: nat :| i < n && tasks[i] == currents[0];
    var j: nat :| j < n && tasks[j] == t;
    EachIndexOncePerRound(i, n, a, j);
    forall m: nat | m < |currents|
      ensures IsAt(currents, m, t) <==> RunsAt(i, n, j, m)
    {
      RotationIndex(tasks, currents, i, m);
    }
    var m: nat :| a <= m < a + n && RunsAt(i, n, j, m);
    assert IsAt(currents, m, t);
  }

  lemma EveryTaskRunsOnce(tasks: seq<Task>, currents: seq<Task>)
    requires Distinct(tasks) && Rotates(tasks, currents)
    ensures forall a: nat, t :: a + |tasks| <= |currents| && t in tasks ==> RunsOnceFrom(currents, a, |tasks|, t)
  {
    forall a: nat, t | a + |tasks| <= |currents| && t in tasks
      ensures RunsOnceFrom(currents, a, |tasks|, t)
    {
      EachTaskOncePerRound(tasks, currents, a, t);
    }
  }
}
