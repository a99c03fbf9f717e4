/** The scheduler's list and its choice of whom to run next: kernel/src/tasking/task.c. */
module Tasks {

  const READY := 0

  class Task {
    var state: int
    var next: Task?

    /** The links and the state that `task_init` gives. */
    constructor ()
      ensures state == READY && next == null
    {
      state, next := READY, null;
    }
  }

  ghost function At(tasks: seq<Task>, i: nat): Task? {
    if i < |tasks| then tasks[i] else null
  }

  /** The links lead from `first` through the nodes of `chain` to null. */
  ghost predicate Chain(first: Task?, chain: seq<Task>)
    reads chain
  {
    && first == At(chain, 0)
    && forall i :: 0 <= i < |chain| ==> chain[i].next == At(chain, i + 1)
  }

  ghost predicate Distinct(tasks: seq<Task>) {
    forall i, j :: 0 <= i < j < |tasks| ==> tasks[i] != tasks[j]
  }

  /** The tasks in front of `t`; all of them where it is not in the list. */
  ghost function Before(tasks: seq<Task>, t: Task): (before: seq<Task>)
    ensures before <= tasks && t !in before
    ensures |before| == |tasks| || tasks[|before|] == t
  {
    if tasks == [] || tasks[0] == t then [] else [tasks[0]] + Before(tasks[1..], t)
  }

  /** The first of `order` that is READY, or null exactly when there is none. */
  ghost predicate IsFirstReady(order: seq<Task>, t: Task?)
    reads order
  {
    if t == null then forall u :: u in order ==> u.state != READY
    else exists i :: 0 <= i < |order| && order[i] == t && FirstReady(order, i)
  }

  ghost predicate FirstReady(order: seq<Task>, i: nat)
    requires i < |order|
    reads order
  {
    order[i].state == READY && forall j :: 0 <= j < i ==> order[j].state != READY
  }

  /** Links lead through one sequence of nodes only. */
  lemma {:induction false} ChainIsUnique(first: Task?, chain: seq<Task>, other: seq<Task>)
    requires Chain(first, chain) && Chain(first, other)
    ensures chain == other
  {
    if chain != [] && other != [] {
      assert chain[0].next == At(chain[1..], 0) && other[0].next == At(other[1..], 0);
      ChainIsUnique(chain[0].next, chain[1..], other[1..]);
      assert chain == [chain[0]] + chain[1..] && other == [other[0]] + other[1..];
    }
  }

  /** A current task in the list: the nodes behind it and those in front of it are the others in cyclic order. */
  lemma CyclicOrder(first: Task?, tasks: seq<Task>, c: nat, behind: seq<Task>)
    requires Chain(first, tasks) && Distinct(tasks) && c < |tasks| && Chain(tasks[c].next, behind)
    ensures behind + Before(tasks, tasks[c]) == tasks[c + 1..] + tasks[..c]
  {
    assert Chain(tasks[c].next, tasks[c + 1..]);
    ChainIsUnique(tasks[c].next, behind, tasks[c + 1..]);
    BeforeIsPrefix(tasks, c);
  }

  lemma {:induction false} BeforeIsPrefix(tasks: seq<Task>, c: nat)
    requires Distinct(tasks) && c < |tasks|
    ensures Before(tasks, tasks[c]) == tasks[..c]
  {
    if c != 0 {
      BeforeIsPrefix(tasks[1..], c - 1);
    }
  }

  lemma Apart(tasks: seq<Task>, t: Task, behind: seq<Task>)
    requires Distinct(tasks + [t] + behind)
    ensures t !in tasks && forall i :: 0 <= i < |tasks| ==> tasks[i] !in behind
  {
    var longer, n := tasks + [t] + behind, |tasks|;
    assert longer[n] == t;
    forall i | 0 <= i < n ensures tasks[i] != t && tasks[i] !in behind {
      assert longer[i] == tasks[i];
      forall j | 0 <= j < |behind| ensures behind[j] != tasks[i] {
        assert longer[n + 1 + j] == behind[j];
      }
    }
  }

  /** Two chains with `t` between them. */
  lemma ChainsJoin(tasks: seq<Task>, t: Task, behind: seq<Task>)
    requires forall i :: 0 <= i < |tasks| ==> tasks[i].next == At(tasks + [t], i + 1)
    requires Chain(t.next, behind)
    ensures Chain(if tasks == [] then t else tasks[0], tasks + [t] + behind)
  {
    var longer, n := tasks + [t] + behind, |tasks|;
    forall i | 0 <= i < |longer| ensures longer[i].next == At(longer, i + 1) {
      if i < n {
        assert longer[i] == tasks[i] && At(longer, i + 1) == At(tasks + [t], i + 1);
      } else if i == n {
        assert longer[i] == t && At(longer, i + 1) == At(behind, 0);
      } else {
        assert longer[i] == behind[i - n - 1] && At(longer, i + 1) == At(behind, i - n);
      }
    }
  }

  class Scheduler {
    var taskList: Task?
    var currentTask: Task?
    ghost var tasks: seq<Task>     // the list as the links give it

    ghost predicate Valid()
      reads this, tasks
    {
      Distinct(tasks) && Chain(taskList, tasks)
    }

    constructor ()
      ensures Valid() && tasks == [] && currentTask == null
    {
      taskList, currentTask, tasks := null, null, [];
    }

    /** `task_add`: a walk to the end of the list. A node that already leads to others brings them along. */
    method Add(t: Task, ghost behind: seq<Task>)
      requires Valid() && Chain(t.next, behind) && Distinct(tasks + [t] + behind)
      modifies this`taskList, this`tasks, tasks
      ensures Valid() && tasks == old(tasks) + [t] + behind
      ensures forall u :: u in tasks ==> u.state == old(u.state)
    {
      Apart(tasks, t, behind);
      if taskList == null {
        taskList := t;
      } else {
        var last: Task := taskList;
        ghost var i := 0;
        while last.next != null
          invariant i < |tasks| && last == tasks[i]
          decreases |tasks| - i
        {
          last := last.next;
          i := i + 1;
        }
        last.next := t;
      }
      ChainsJoin(tasks, t, behind);
      tasks := tasks + [t] + behind;
    }

    /** `task_get_next_ready`: the first READY one of the nodes that the links of the current one lead to and then of
    those in front of it in the list; null exactly when there is none. Without a current one, the first of the list,
    READY or not. */
    method GetNextReady(ghost behind: seq<Task>) returns (t: Task?)
      requires Valid() && (currentTask != null ==> Chain(currentTask.next, behind))
      ensures currentTask == null ==> t == At(tasks, 0)
      ensures currentTask != null ==> IsFirstReady(behind + Before(tasks, currentTask), t)
    {
      if currentTask == null {
        return taskList;
      }
      t := ReadyBehind(behind);
      if t == null {
        t := ReadyBefore();
        FoundBefore(behind, Before(tasks, currentTask), t);
      } else {
        FoundBehind(behind, Before(tasks, currentTask), t);
      }
    }

    /** The loop from the current one along its links. */
    method ReadyBehind(ghost behind: seq<Task>) returns (t: Task?)
      requires currentTask != null && Chain(currentTask.next, behind)
      ensures IsFirstReady(behind, t)
    {
      t := currentTask.next;
      ghost var i := 0;
      while t != null
        invariant 0 <= i <= |behind| && t == At(behind, i)
        invariant forall j :: 0 <= j < i ==> behind[j].state != READY
        decreases |behind| - i
      {
        if t.state == READY {
          assert FirstReady(behind, i);
          return;
        }
        t := t.next;
        i := i + 1;
      }
    }

    /** The loop from the head of the list to the current one. */
    method ReadyBefore() returns (t: Task?)
      requires Valid() && currentTask != null
      ensures IsFirstReady(Before(tasks, currentTask), t)
    {
      ghost var before := Before(tasks, currentTask);
      t := taskList;
      ghost var i := 0;
      while t != null && t != currentTask
        invariant 0 <= i <= |before| && t == At(tasks, i)
        invariant forall j :: 0 <= j < i ==> before[j].state != READY
        decreases |tasks| - i
      {
        assert i < |before| && before[i] == t;
        if t.state == READY {
          assert FirstReady(before, i);
          return;
        }
        t := t.next;
        i := i + 1;
      }
      t := null;
    }
  }

  lemma FoundBehind(behind: seq<Task>, before: seq<Task>, t: Task)
    requires IsFirstReady(behind, t)
    ensures IsFirstReady(behind + before, t)
  {
    var i :| 0 <= i < |behind| && behind[i] == t && FirstReady(behind, i);
    assert FirstReady(behind + before, i);
  }

  lemma FoundBefore(behind: seq<Task>, before: seq<Task>, t: Task?)
    requires IsFirstReady(behind, null) && IsFirstReady(before, t)
    ensures IsFirstReady(behind + before, t)
  {
    if t != null {
      var i :| 0 <= i < |before| && before[i] == t && FirstReady(before, i);
      assert FirstReady(behind + before, |behind| + i);
    }
  }
}
