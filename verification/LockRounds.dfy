/**
  Locks under the round-robin scheduler: a process that has reached the head of a
  lock's queue has the lock within one round.
 */
module LockRounds {
  import opened LockProtocol
  import Scheduler

  /** While a task runs, the steps are its own or wake-ups. */
  ghost predicate SliceOf(steps: seq<Step>, p: nat) {
    forall i :: 0 <= i < |steps| ==> steps[i].p == p || steps[i].Wake?
  }

  function Ready(s: State): (r: seq<bool>)
    ensures |r| == |s.procs|
  {
    seq(|s.procs|, i requires 0 <= i < |s.procs| => !s.procs[i].blocked)
  }

  /** From state s with task cur running: slice after slice, the running task takes any
      number of steps, and then the scheduler chooses the first ready task after it.
      Only p, when it runs, is known to take a step. */
  ghost predicate Timeline(s: State, cur: nat, slices: seq<seq<Step>>, p: nat)
    decreases |slices|
  {
    slices == [] ||
    (&& Run(s, slices[0]) && SliceOf(slices[0], cur)
     && (cur == p ==> exists i :: 0 <= i < |slices[0]| && Own(slices[0][i], p))
     && exists next: nat :: Scheduler.FirstReady(Ready(After(s, slices[0])), cur, next) &&
          Timeline(After(s, slices[0]), next, slices[1..], p))
  }

  /** In the course of the steps p gets inside l. */
  ghost predicate Gets(s: State, steps: seq<Step>, l: nat, p: nat)
    requires Run(s, steps) && p < |s.procs|
    decreases |steps|
  {
    steps != [] &&
    var t := Apply(s, steps[0]);
    p < |t.procs| && (l in t.procs[p].inside || Gets(t, steps[1..], l, p))
  }

  /** In one of the first n slices p gets inside l. */
  ghost predicate GetsWithin(s: State, cur: nat, slices: seq<seq<Step>>, l: nat, p: nat, n: nat)
    requires Timeline(s, cur, slices, p) && p < |s.procs|
    decreases |slices|
  {
    slices != [] && n > 0 &&
    (|| Gets(s, slices[0], l, p)
     || exists next: nat :: Scheduler.FirstReady(Ready(After(s, slices[0])), cur, next) &&
          Timeline(After(s, slices[0]), next, slices[1..], p) && p < |After(s, slices[0]).procs| &&
          GetsWithin(After(s, slices[0]), next, slices[1..], l, p, n - 1))
  }

  lemma {:induction false} OwnSliceGets(s: State, steps: seq<Step>, l: nat, p: nat)
    requires Inv(s) && Run(s, steps) && WaitsAtHead(s, l, p)
    requires exists i :: 0 <= i < |steps| && Own(steps[i], p)
    ensures Gets(s, steps, l, p)
    decreases |steps|
  {
    StepKeeps(s, steps[0]);
    if Own(steps[0], p) {
      HeadMoveGetsLock(s, steps[0], l, p);
    } else {
      OthersLeaveHead(s, steps[0], l, p);
      var i :| 0 <= i < |steps| && Own(steps[i], p);
      assert steps[1..][i - 1] == steps[i];
      OwnSliceGets(Apply(s, steps[0]), steps[1..], l, p);
    }
  }

  /** No wake-up is lost, so the wait at the head is bounded: with n processes, p is
      inside the lock within n slices, whatever the others do in theirs, or if they do
      nothing. */
  lemma {:induction false} HeadGetsLockWithinRound(s: State, cur: nat, slices: seq<seq<Step>>, l: nat, p: nat)
    requires Inv(s) && Timeline(s, cur, slices, p) && WaitsAtHead(s, l, p) && cur < |s.procs|
    requires |slices| > Wait(cur, p, |s.procs|)
    ensures GetsWithin(s, cur, slices, l, p, Wait(cur, p, |s.procs|) + 1)
    decreases |slices|
  {
    var steps, n := slices[0], |s.procs|;
    RunKeeps(s, steps);
    if cur == p {
      OwnSliceGets(s, steps, l, p);
    } else {
      HeadStaysReady(s, steps, l, p);
      var t := After(s, steps);
      var next: nat :| Scheduler.FirstReady(Ready(t), cur, next) && Timeline(t, next, slices[1..], p);
      if next != p { Scheduler.SwitchComesNearer(Ready(t), cur, next, p); }
      HeadGetsLockWithinRound(t, next, slices[1..], l, p);
      WithinMore(t, next, slices[1..], l, p, Wait(next, p, n) + 1, Wait(cur, p, n));
    }
  }

  /** How many switches away p is from the running task, at most. */
  function Wait(cur: nat, p: nat, n: nat): (d: nat)
    requires cur < n && p < n
    ensures d < n
  {
    if cur == p then 0 else Scheduler.Ahead(cur, p, n)
  }

  lemma {:induction false} WithinMore(s: State, cur: nat, slices: seq<seq<Step>>, l: nat, p: nat, n: nat, k: nat)
    requires Timeline(s, cur, slices, p) && p < |s.procs| && n <= k
    requires GetsWithin(s, cur, slices, l, p, n)
    ensures GetsWithin(s, cur, slices, l, p, k)
    decreases |slices|
  {
    if !Gets(s, slices[0], l, p) {
      var t := After(s, slices[0]);
      var next: nat :| Scheduler.FirstReady(Ready(t), cur, next) && Timeline(t, next, slices[1..], p) &&
        p < |t.procs| && GetsWithin(t, next, slices[1..], l, p, n - 1);
      WithinMore(t, next, slices[1..], l, p, n - 1, k - 1);
    }
  }
}
