/**
  The round-robin scheduler: its list of tasks, the choice of the next one, and how
  long a ready task can wait for its turn.
 */
module Scheduler {

  /** The place k places after i in a circle of n. */
  function Along(i: nat, k: nat, n: nat): (j: nat)
    requires i < n && k <= n
    ensures j < n
  {
    if i + k < n then i + k else i + k - n
  }

  /** How far j is ahead of i in a circle of n, from 1 to n. */
  function Ahead(i: nat, j: nat, n: nat): (d: nat)
    requires i < n && j < n
    ensures 1 <= d <= n && Along(i, d, n) == j
  {
    if i < j then j - i else j + n - i
  }

  /** Task j is the first ready one after i, going round. */
  ghost predicate FirstReady(ready: seq<bool>, i: nat, j: nat) {
    i < |ready| && exists k: nat :: 1 <= k <= |ready| && SkipsTo(ready, i, k, j)
  }

  ghost predicate SkipsTo(ready: seq<bool>, i: nat, k: nat, j: nat)
    requires i < |ready| && k <= |ready|
  {
    && j == Along(i, k, |ready|) && ready[j]
    && forall l: nat :: 1 <= l < k ==> Unready(ready, i, l)
  }

  /** The task l places after i is not ready. */
  ghost predicate Unready(ready: seq<bool>, i: nat, l: nat)
    requires i < |ready| && l <= |ready|
  {
    !ready[Along(i, l, |ready|)]
  }

  /** There is exactly one, if any task is ready. */
  lemma FirstReadyUnique(ready: seq<bool>, i: nat, j: nat, j': nat)
    requires FirstReady(ready, i, j) && FirstReady(ready, i, j')
    ensures j == j'
  {
    var k: nat :| 1 <= k <= |ready| && SkipsTo(ready, i, k, j);
    var k': nat :| 1 <= k' <= |ready| && SkipsTo(ready, i, k', j');
    assert !Unready(ready, i, k) && !Unready(ready, i, k');
  }

  class Task {
    var pid: nat
    var status: nat        // 0 ready, 1 blocked, 2 finished
    var next: Task?

    constructor (status: nat)
      ensures pid == 0 && this.status == status && next == null
    {
      pid := 0;
      this.status := status;
      next := null;
    }
  }

  class Tasks {
    var current: Task
    var list: Task
    var nextPid: nat
    ghost var tasks: seq<Task>

    /** Task i is followed by task i + 1, if there is one. */
    ghost predicate Linked(i: nat)
      requires i < |tasks|
      reads `tasks, tasks`next
    {
      tasks[i].next == if i + 1 < |tasks| then tasks[i + 1] else null
    }

    ghost predicate Older(i: nat, j: nat)
      requires i < |tasks| && j < |tasks|
      reads `tasks, tasks`pid
    {
      tasks[i] != tasks[j] && tasks[i].pid < tasks[j].pid
    }

    /** The list from task_list runs through the tasks, each once, to its end. */
    ghost predicate Listed()
      reads `tasks, `list, tasks`next
    {
      && tasks != [] && list == tasks[0]
      && (forall i: nat :: i < |tasks| ==> Linked(i))
    }

    /** Pids grow along the list. */
    ghost predicate Numbered()
      reads `tasks, `nextPid, tasks`pid
    {
      && (forall i: nat, j: nat :: i < j < |tasks| ==> Older(i, j))
      && (forall i :: 0 <= i < |tasks| ==> tasks[i].pid < nextPid)
    }

    ghost predicate Valid()
      reads this, tasks
    {
      Listed() && Numbered() && current in tasks
    }

    ghost function Ready(): (r: seq<bool>)
      reads `tasks, tasks
      ensures |r| == |tasks|
      ensures forall i :: 0 <= i < |tasks| ==> r[i] == (tasks[i].status == 0)
    {
      var ts := tasks;
      seq(|ts|, i requires 0 <= i < |ts| reads ts => ts[i].status == 0)
    }

    /** scheduler_init: the kernel's own task. */
    constructor ()
      ensures Valid() && fresh(list) && tasks == [list] && current == list
      ensures current.status == 0 && current.pid == 0 && nextPid == 1
    {
      var kernel := new Task(0);
      current, list, nextPid, tasks := kernel, kernel, 1, [kernel];
      new;
      assert Linked(0);
    }

    /** The last task of the list. */
    method Last() returns (tmp: Task)
      requires Listed()
      ensures tmp == tasks[|tasks| - 1]
    {
      tmp := list;
      ghost var i := 0;
      while tmp.next != null
        invariant 0 <= i < |tasks| && tmp == tasks[i]
        decreases |tasks| - i
      {
        assert Linked(i);
        tmp := tmp.next;
        i := i + 1;
      }
      assert Linked(i);
    }

    /** add_task: the task goes last, ready, with a pid above all others. */
    method AddTask(task: Task)
      requires Valid() && task !in tasks && task.next == null
      modifies `nextPid, `tasks, tasks`next, task
      ensures Valid() && tasks == old(tasks) + [task]
      ensures task.status == 0 && task.pid == old(nextPid) && nextPid == old(nextPid) + 1
    {
      task.pid := nextPid;
      nextPid := nextPid + 1;
      task.status := 0;
      forall j: nat | j < |tasks|
        ensures Linked(j)
      {
        assert old(Linked(j));
      }
      var tmp := Last();
      ghost var was := tasks;
      forall j: nat, k: nat | j < k < |was|
        ensures was[j].pid < was[k].pid && was[j] != was[k]
      {
        assert old(Older(j, k));
      }
      tmp.next := task;
      tasks := tasks + [task];
      forall j: nat | j < |tasks|
        ensures Linked(j)
      {
        assert j < |was| ==> tasks[j] == was[j] && old(Linked(j)) && (j + 1 < |was| ==> was[j] != tmp);
      }
    }

    /** The step of the round. */
    method Advance(ghost i: nat) returns (ghost j: nat)
      requires Listed() && i < |tasks| && current == tasks[i]
      modifies `current
      ensures j < |tasks| && current == tasks[j] && j == if i + 1 < |tasks| then i + 1 else 0
    {
      assert Linked(i);
      if current.next == null { current := list; } else { current := current.next; }
      j := if i + 1 < |tasks| then i + 1 else 0;
    }

    /** The selection in switch_task: the first ready task after the current one. */
    method SwitchTask(ghost i: nat) returns (ghost j: nat)
      requires Listed() && i < |tasks| && tasks[i] == current
      requires exists r :: 0 <= r < |tasks| && Ready()[r]
      modifies `current
      ensures j < |tasks| && tasks[j] == current && FirstReady(Ready(), i, j)
    {
      ghost var n, k, ready: seq<bool> := |tasks|, 1, Ready();
      ghost var r :| 0 <= r < n && ready[r];
      ghost var far := Ahead(i, r, n);
      j := Advance(i);
      while current.status != 0
        invariant 1 <= k <= far && j == Along(i, k, n) && current == tasks[j]
        invariant forall l: nat :: 1 <= l < k ==> Unready(ready, i, l)
        decreases far - k
      {
        assert Unready(ready, i, k);
        j := Advance(j);
        k := k + 1;
      }
      assert SkipsTo(ready, i, k, j);
    }

    /** change_task_status: the task with that pid, if there is one, and no other. */
    method ChangeStatus(pid: nat, status: nat)
      requires Listed()
      modifies tasks`status
      ensures forall t :: t in tasks ==> t.status == if t.pid == pid then status else old(t.status)
    {
      var tmp: Task? := list;
      ghost var i := 0;
      while tmp != null
        invariant 0 <= i <= |tasks| && tmp == if i < |tasks| then tasks[i] else null
        invariant forall t :: t in tasks ==> t.status == status || t.status == old(t.status)
        invariant forall t :: t in tasks[..i] ==> t.pid == pid ==> t.status == status
        invariant forall t :: t in tasks ==> t.pid != pid ==> t.status == old(t.status)
        decreases |tasks| - i
      {
        assert Linked(i) && tasks[..i + 1] == tasks[..i] + [tasks[i]];
        if tmp.pid == pid {
          tmp.status := status;
        }
        tmp := tmp.next;
        i := i + 1;
      }
      assert tasks[..i] == tasks;
    }

    /** A pid names at most one task. */
    lemma PidUnique(t: Task, u: Task)
      requires Valid() && t in tasks && u in tasks && t.pid == u.pid
      ensures t == u
    {
      var i :| 0 <= i < |tasks| && tasks[i] == t;
      var j :| 0 <= j < |tasks| && tasks[j] == u;
      assert i < j ==> Older(i, j);
      assert j < i ==> Older(j, i);
    }
  }

  // ----- turns -----------------------------------------------------------------------------

  /** A task list of n tasks over time: ready[t] are the statuses at the t-th switch,
      turn[t] is the task that was running, turn[t + 1] the one chosen. */
  ghost predicate Turns(n: nat, ready: seq<seq<bool>>, turn: seq<nat>) {
    && |turn| == |ready| + 1
    && (forall t :: 0 <= t < |ready| ==> |ready[t]| == n)
    && (forall t: nat, u: nat {:trigger Chosen(ready, turn, t, u)} ::
         t < |ready| && u == t + 1 ==> Chosen(ready, turn, t, u))
  }

  ghost predicate Chosen(ready: seq<seq<bool>>, turn: seq<nat>, t: nat, next: nat)
    requires t < |ready| && next < |turn| && t < |turn|
  {
    FirstReady(ready[t], turn[t], turn[next])
  }

  /** A ready task is not overtaken: a switch chooses it or comes nearer to it. */
  lemma SwitchComesNearer(ready: seq<bool>, i: nat, j: nat, p: nat)
    requires FirstReady(ready, i, j) && p < |ready| && ready[p] && j != p
    ensures j < |ready| && Ahead(j, p, |ready|) < Ahead(i, p, |ready|)
  {
    var n := |ready|;
    var k: nat :| 1 <= k <= n && SkipsTo(ready, i, k, j);
    var d := Ahead(i, p, n);
    assert !Unready(ready, i, d);
  }

  /** Fairness: whatever the other tasks do, a task that stays ready is chosen within n
      switches. */
  lemma {:induction false} ChosenWithin(n: nat, ready: seq<seq<bool>>, turn: seq<nat>, p: nat)
    requires Turns(n, ready, turn) && p < n && turn[0] < n && |ready| >= Ahead(turn[0], p, n)
    requires forall t :: 0 <= t < |ready| ==> ready[t][p]
    ensures exists t :: 1 <= t <= Ahead(turn[0], p, n) && t < |turn| && turn[t] == p
    decreases |ready|
  {
    assert Chosen(ready, turn, 0, 1);
    if turn[1] != p {
      SwitchComesNearer(ready[0], turn[0], turn[1], p);
      var later, rest := ready[1..], turn[1..];
      forall t: nat, u: nat | t < |later| && u == t + 1
        ensures Chosen(later, rest, t, u)
      {
        assert Chosen(ready, turn, t + 1, u + 1);
      }
      ChosenWithin(n, later, rest, p);
      var t :| 1 <= t <= Ahead(rest[0], p, n) && t < |rest| && rest[t] == p;
      assert turn[t + 1] == p;
    }
  }
}
