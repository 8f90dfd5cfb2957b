/**
  Processes sharing locks, as interleaved steps: each section under the master lock
  is one step, and so is finding oneself not at the head and blocking. Over every run
  under the locking discipline at most one process is inside a lock, processes enter
  in the order in which they asked, and no wake-up is lost.
 */
module LockProtocol {
  import opened Basics
  import opened LockQueue

  /** A process: the lock it waits for, the locks it is inside, and its status. */
  datatype Proc = Proc(waiting: Option<nat>, inside: set<nat>, blocked: bool)

  /** Besides the processes and the queues, the histories of each lock: who asked
      for it and who got it, in order. */
  datatype State = State(procs: seq<Proc>, queues: seq<seq<nat>>, asked: seq<seq<nat>>, got: seq<seq<nat>>)

  datatype Step =
    | Lock(p: nat, l: nat)      // the first section of lock
    | Check(p: nat)             // one turn of its wait loop
    | Unlock(p: nat, l: nat)
    | Sleep(p: nat)             // p blocks for another reason
    | Wake(p: nat)              // p is set ready for another reason

  predicate Known(s: State, step: Step) {
    && step.p < |s.procs|
    && (step.Lock? || step.Unlock? ==> step.l < |s.queues|)
  }

  predicate Sized(s: State) {
    |s.asked| == |s.queues| == |s.got|
  }

  function SetBlocked(procs: seq<Proc>, p: nat, blocked: bool): seq<Proc> {
    if p < |procs| then procs[p := procs[p].(blocked := blocked)] else procs
  }

  function GetLock(s: State, p: nat, l: nat): State
    requires p < |s.procs| && l < |s.got|
  {
    s.(procs := s.procs[p := s.procs[p].(waiting := None, inside := s.procs[p].inside + {l})],
       got := s.got[l := s.got[l] + [p]])
  }

  /** What a step does, whether or not the discipline allows it. */
  function Apply(s: State, step: Step): State
    requires Known(s, step) && Sized(s)
  {
    match step
    case Lock(p, l) =>
      var q := s.queues[l];
      var t := s.(queues := s.queues[l := Entered(q, p)], asked := s.asked[l := s.asked[l] + [p]]);
      if q == [] then GetLock(t, p, l)
      else if q[0] == p then s
      else t.(procs := t.procs[p := t.procs[p].(waiting := Some(l))])
    case Check(p) =>
      if s.procs[p].waiting.None? || s.procs[p].waiting.value >= |s.queues| then s
      else
        var l := s.procs[p].waiting.value;
        if s.queues[l] != [] && s.queues[l][0] == p then GetLock(s, p, l)
        else s.(procs := SetBlocked(s.procs, p, true))
    case Unlock(p, l) =>
      var q := s.queues[l];
      var t := s.(queues := s.queues[l := Left(q, p)],
                  procs := s.procs[p := s.procs[p].(inside := s.procs[p].inside - {l})]);
      if Woken(q, p).None? then t else t.(procs := SetBlocked(t.procs, Woken(q, p).value, false))
    case Sleep(p) => s.(procs := SetBlocked(s.procs, p, true))
    case Wake(p) => s.(procs := SetBlocked(s.procs, p, false))
  }

  /** The locking discipline: only a ready process takes a step of its own; one that
      waits for a lock does nothing but check; a lock is asked for from outside it
      and given up from inside. */
  predicate Allowed(s: State, step: Step)
    requires Known(s, step)
  {
    var proc := s.procs[step.p];
    match step
    case Lock(p, l) => !proc.blocked && proc.waiting.None? && l !in proc.inside
    case Check(p) => !proc.blocked && proc.waiting.Some?
    case Unlock(p, l) => !proc.blocked && proc.waiting.None? && l in proc.inside
    case Sleep(p) => !proc.blocked && proc.waiting.None?
    case Wake(p) => true
  }

  ghost predicate InLine(s: State, l: nat, p: nat)
    requires l < |s.queues| && p < |s.procs|
  {
    p in s.queues[l] <==> l in s.procs[p].inside || s.procs[p].waiting == Some(l)
  }

  ghost predicate AtHead(s: State, l: nat, p: nat)
    requires l < |s.queues|
  {
    s.queues[l] != [] && s.queues[l][0] == p
  }

  /** The step is a turn of the wait loop that finds another process at the head. */
  ghost predicate FindsOther(s: State, step: Step)
    requires Known(s, step)
  {
    && step.Check? && s.procs[step.p].waiting.Some? && s.procs[step.p].waiting.value < |s.queues|
    && !AtHead(s, s.procs[step.p].waiting.value, step.p)
  }

  /** Who blocks and who is woken: a process blocks exactly when it finds another one at
      the head, or for another reason; an unlock sets ready exactly the process it
      wakes, whatever that waits for. */
  lemma BlockedIff(s: State, step: Step, r: nat)
    requires Sized(s) && Known(s, step) && r < |s.procs|
    ensures |Apply(s, step).procs| == |s.procs|
    ensures Apply(s, step).procs[r].blocked <==>
      if r == step.p && (step.Sleep? || FindsOther(s, step)) then true
      else if r == step.p && step.Wake? then false
      else if step.Unlock? && Woken(s.queues[step.l], step.p) == Some(r) then false
      else s.procs[r].blocked
  {
  }

  /** Finding another process at the head changes nothing but that. */
  lemma CheckAway(s: State, step: Step, r: nat)
    requires Sized(s) && Known(s, step) && FindsOther(s, step) && r < |s.procs|
    ensures var t := Apply(s, step);
      && t.queues == s.queues && t.asked == s.asked && t.got == s.got && |t.procs| == |s.procs|
      && t.procs[r] == if r == step.p then s.procs[r].(blocked := true) else s.procs[r]
  {
  }

  /** The process at the head is ready unless it is inside the lock. */
  ghost predicate NoLostWakeUp(s: State, l: nat)
    requires l < |s.queues|
  {
    s.queues[l] != [] && s.queues[l][0] < |s.procs| ==>
      var head := s.procs[s.queues[l][0]];
      head.waiting == Some(l) ==> !head.blocked
  }

  /** Those who asked are those who got the lock, then those still waiting, in that
      order. */
  ghost predicate FirstCome(s: State, l: nat)
    requires Sized(s) && l < |s.queues|
  {
    var q := s.queues[l];
    s.asked[l] == s.got[l] +
      (if q != [] && q[0] < |s.procs| && l in s.procs[q[0]].inside then q[1..] else q)
  }

  ghost predicate LockOk(s: State, l: nat)
    requires Sized(s) && l < |s.queues|
  {
    && Distinct(s.queues[l])
    && (forall i :: 0 <= i < |s.queues[l]| ==> s.queues[l][i] < |s.procs|)
    && (forall p :: 0 <= p < |s.procs| ==> InLine(s, l, p))
    && (forall p :: 0 <= p < |s.procs| && l in s.procs[p].inside ==> AtHead(s, l, p))
    && NoLostWakeUp(s, l) && FirstCome(s, l)
  }

  ghost predicate ProcOk(s: State, p: nat)
    requires p < |s.procs|
  {
    s.procs[p].waiting.Some? ==> s.procs[p].waiting.value < |s.queues| && s.procs[p].waiting.value !in s.procs[p].inside
  }

  ghost predicate Inv(s: State) {
    && Sized(s)
    && (forall l :: 0 <= l < |s.queues| ==> LockOk(s, l))
    && (forall p :: 0 <= p < |s.procs| ==> ProcOk(s, p))
  }

  /** n processes and k locks, nobody inside or waiting. */
  function Start(n: nat, k: nat): State {
    State(seq(n, _ => Proc(None, {}, false)), seq(k, _ => []), seq(k, _ => []), seq(k, _ => []))
  }

  lemma StartOk(n: nat, k: nat)
    ensures Inv(Start(n, k))
  {
  }

  /** A lock that the step does not name, and whose queue it leaves alone, stays in
      order if each process's standing towards it stays, and nobody who waits at its
      head becomes blocked. */
  lemma OtherLock(s: State, t: State, l: nat)
    requires Sized(s) && Sized(t) && l < |s.queues| == |t.queues| && |t.procs| == |s.procs|
    requires LockOk(s, l)
    requires t.queues[l] == s.queues[l] && t.asked[l] == s.asked[l] && t.got[l] == s.got[l]
    requires forall p :: 0 <= p < |s.procs| ==>
      && (l in t.procs[p].inside <==> l in s.procs[p].inside)
      && (t.procs[p].waiting == Some(l) <==> s.procs[p].waiting == Some(l))
      && (t.procs[p].waiting == Some(l) && t.procs[p].blocked ==> s.procs[p].blocked || !AtHead(s, l, p))
    ensures LockOk(t, l)
  {
    forall p | 0 <= p < |t.procs|
      ensures InLine(t, l, p) && (l in t.procs[p].inside ==> AtHead(t, l, p))
    {
      assert InLine(s, l, p) && (l in s.procs[p].inside ==> AtHead(s, l, p));
    }
  }

  // ----- what every step keeps -------------------------------------------------------

  lemma LockKeeps(s: State, p: nat, l: nat)
    requires Inv(s) && Known(s, Lock(p, l)) && Allowed(s, Lock(p, l))
    ensures Inv(Apply(s, Lock(p, l)))
  {
    var t := Apply(s, Lock(p, l));
    var q := s.queues[l];
    assert LockOk(s, l) && InLine(s, l, p);
    assert p !in q;
    QueueStaysDistinct(q, p);
    forall k | 0 <= k < |t.queues|
      ensures LockOk(t, k)
    {
      assert LockOk(s, k);
      if k == l {
        forall r | 0 <= r < |t.procs|
          ensures InLine(t, l, r) && (l in t.procs[r].inside ==> AtHead(t, l, r))
        {
          assert InLine(s, l, r) && (l in s.procs[r].inside ==> AtHead(s, l, r));
        }
        assert FirstCome(t, l);
      } else {
        OtherLock(s, t, k);
      }
    }
    forall r | 0 <= r < |t.procs|
      ensures ProcOk(t, r)
    {
      assert ProcOk(s, r);
    }
  }

  lemma CheckKeeps(s: State, p: nat)
    requires Inv(s) && Known(s, Check(p)) && Allowed(s, Check(p))
    ensures Inv(Apply(s, Check(p)))
  {
    var t := Apply(s, Check(p));
    assert ProcOk(s, p);
    var l := s.procs[p].waiting.value;
    forall k | 0 <= k < |t.queues|
      ensures LockOk(t, k)
    {
      assert LockOk(s, k);
      if k == l {
        forall r | 0 <= r < |t.procs|
          ensures InLine(t, l, r) && (l in t.procs[r].inside ==> AtHead(t, l, r))
        {
          assert InLine(s, l, r) && (l in s.procs[r].inside ==> AtHead(s, l, r));
        }
        assert FirstCome(t, l);
      } else {
        OtherLock(s, t, k);
      }
    }
    forall r | 0 <= r < |t.procs|
      ensures ProcOk(t, r)
    {
      assert ProcOk(s, r);
    }
  }

  lemma UnlockKeeps(s: State, p: nat, l: nat)
    requires Inv(s) && Known(s, Unlock(p, l)) && Allowed(s, Unlock(p, l))
    ensures Inv(Apply(s, Unlock(p, l)))
  {
    var t := Apply(s, Unlock(p, l));
    var q := s.queues[l];
    assert LockOk(s, l) && AtHead(s, l, p);
    QueueStaysDistinct(q, p);
    assert t.queues[l] == q[1..];
    forall k | 0 <= k < |t.queues|
      ensures LockOk(t, k)
    {
      assert LockOk(s, k);
      if k == l {
        forall r | 0 <= r < |t.procs|
          ensures InLine(t, l, r) && (l in t.procs[r].inside ==> AtHead(t, l, r))
        {
          assert InLine(s, l, r) && (l in s.procs[r].inside ==> AtHead(s, l, r));
          assert r in q <==> r == p || r in q[1..];
        }
        if |q| > 1 { assert InLine(t, l, q[1]) && q[1] in t.queues[l]; }
        assert FirstCome(t, l);
      } else {
        OtherLock(s, t, k);
      }
    }
    forall r | 0 <= r < |t.procs|
      ensures ProcOk(t, r)
    {
      assert ProcOk(s, r);
    }
  }

  lemma StatusKeeps(s: State, p: nat, blocked: bool)
    requires Inv(s) && p < |s.procs| && (blocked ==> s.procs[p].waiting.None?)
    ensures Inv(s.(procs := SetBlocked(s.procs, p, blocked)))
  {
    var t := s.(procs := SetBlocked(s.procs, p, blocked));
    forall k | 0 <= k < |t.queues|
      ensures LockOk(t, k)
    {
      assert LockOk(s, k);
      OtherLock(s, t, k);
    }
    forall r | 0 <= r < |t.procs|
      ensures ProcOk(t, r)
    {
      assert ProcOk(s, r);
    }
  }

  lemma StepKeeps(s: State, step: Step)
    requires Inv(s) && Known(s, step) && Allowed(s, step)
    ensures Inv(Apply(s, step))
  {
    match step
    case Lock(p, l) => LockKeeps(s, p, l);
    case Check(p) => CheckKeeps(s, p);
    case Unlock(p, l) => UnlockKeeps(s, p, l);
    case Sleep(p) => StatusKeeps(s, p, true);
    case Wake(p) => StatusKeeps(s, p, false);
  }

  // ----- runs ----------------------------------------------------------------------------

  /** The steps can be taken one after the other, each allowed where it is taken. */
  ghost predicate Run(s: State, steps: seq<Step>)
    decreases |steps|
  {
    steps == [] || (Sized(s) && Known(s, steps[0]) && Allowed(s, steps[0]) && Run(Apply(s, steps[0]), steps[1..]))
  }

  ghost function After(s: State, steps: seq<Step>): State
    requires Run(s, steps)
    decreases |steps|
  {
    if steps == [] then s else After(Apply(s, steps[0]), steps[1..])
  }

  lemma {:induction false} RunKeeps(s: State, steps: seq<Step>)
    requires Inv(s) && Run(s, steps)
    ensures Inv(After(s, steps)) && |After(s, steps).queues| == |s.queues| && |After(s, steps).procs| == |s.procs|
    decreases |steps|
  {
    if steps != [] {
      StepKeeps(s, steps[0]);
      RunKeeps(Apply(s, steps[0]), steps[1..]);
    }
  }

  /** In every state that n processes can reach by any interleaving: at most one
      process is inside a lock and it is the head of the queue; the queue holds each
      process once, exactly those inside or waiting; the lock has been got in the
      order in which it was asked for; and the process at the head is not blocked
      on it. */
  lemma LocksSafe(n: nat, k: nat, steps: seq<Step>, l: nat)
    requires Run(Start(n, k), steps) && l < k
    ensures var s := After(Start(n, k), steps);
      && |s.procs| == n && |s.queues| == k && Sized(s)
      && (forall p, q :: 0 <= p < n && 0 <= q < n && l in s.procs[p].inside && l in s.procs[q].inside ==> p == q)
      && (forall p :: 0 <= p < n && l in s.procs[p].inside ==> AtHead(s, l, p))
      && Distinct(s.queues[l]) && (forall p :: 0 <= p < n ==> InLine(s, l, p))
      && s.got[l] <= s.asked[l]
      && NoLostWakeUp(s, l)
  {
    StartOk(n, k);
    RunKeeps(Start(n, k), steps);
    var s := After(Start(n, k), steps);
    assert LockOk(s, l);
    forall p, q | 0 <= p < n && 0 <= q < n && l in s.procs[p].inside && l in s.procs[q].inside
      ensures p == q
    {
      assert AtHead(s, l, p) && AtHead(s, l, q);
    }
    assert FirstCome(s, l);
  }

  // ----- progress --------------------------------------------------------------------------

  /** The step is taken by p itself. */
  predicate Own(step: Step, p: nat) {
    step.p == p && !step.Wake?
  }

  ghost predicate WaitsAtHead(s: State, l: nat, p: nat) {
    l < |s.queues| && p < |s.procs| && AtHead(s, l, p) && s.procs[p].waiting == Some(l)
  }

  lemma OthersLeaveHead(s: State, step: Step, l: nat, p: nat)
    requires Inv(s) && Known(s, step) && Allowed(s, step)
    requires WaitsAtHead(s, l, p) && !Own(step, p)
    ensures WaitsAtHead(Apply(s, step), l, p)
  {
    assert LockOk(s, l) && ProcOk(s, p);
  }

  /** Whatever the others do, the process at the head keeps its place and stays ready
      until it moves itself; then it can only check, and has the lock. */
  lemma {:induction false} HeadStaysReady(s: State, steps: seq<Step>, l: nat, p: nat)
    requires Inv(s) && Run(s, steps) && WaitsAtHead(s, l, p)
    requires forall i :: 0 <= i < |steps| ==> !Own(steps[i], p)
    ensures Inv(After(s, steps)) && WaitsAtHead(After(s, steps), l, p) && !After(s, steps).procs[p].blocked
    decreases |steps|
  {
    assert LockOk(s, l);
    if steps != [] {
      OthersLeaveHead(s, steps[0], l, p);
      StepKeeps(s, steps[0]);
      HeadStaysReady(Apply(s, steps[0]), steps[1..], l, p);
    }
  }

  lemma HeadMoveGetsLock(s: State, step: Step, l: nat, p: nat)
    requires Inv(s) && Known(s, step) && Allowed(s, step)
    requires WaitsAtHead(s, l, p) && Own(step, p)
    ensures step == Check(p) && l in Apply(s, step).procs[p].inside && Apply(s, step).procs[p].waiting == None
  {
  }

  // ----- where the discipline matters --------------------------------------------------

  /** If a process could be interrupted between finding itself not at the head and
      blocking, it would lose its wake-up exactly if it reached the head meanwhile. */
  lemma GapLosesWakeUpIff(s: State, l: nat, p: nat)
    requires Inv(s) && l < |s.queues| && p < |s.procs| && s.procs[p].waiting == Some(l)
    ensures NoLostWakeUp(s.(procs := SetBlocked(s.procs, p, true)), l) <==> !AtHead(s, l, p)
  {
    assert LockOk(s, l);
  }

  /** It can: processes 0 and 1 ask for a lock, 1 finds itself second, 0 unlocks. */
  lemma GapCanHappen()
    ensures var steps := [Lock(0, 0), Lock(1, 0), Unlock(0, 0)];
      Run(Start(2, 1), steps) && WaitsAtHead(After(Start(2, 1), steps), 0, 1)
  {
    var s0 := Start(2, 1);
    var s1 := Apply(s0, Lock(0, 0));
    var s2 := Apply(s1, Lock(1, 0));
    var s3 := Apply(s2, Unlock(0, 0));
    assert s0.queues == [[]] && s1.queues == [[0]];
    assert Entered([0], 1) == [0, 1] && s2.queues == [[0, 1]];
    assert Left([0, 1], 0) == [1] && s3.queues == [[1]];
    assert Run(s3, []) && After(s3, []) == s3;
    assert [Unlock(0, 0)][1..] == [];
    assert Run(s2, [Unlock(0, 0)]) && After(s2, [Unlock(0, 0)]) == s3;
    assert [Lock(1, 0), Unlock(0, 0)][1..] == [Unlock(0, 0)];
    assert Run(s1, [Lock(1, 0), Unlock(0, 0)]) && After(s1, [Lock(1, 0), Unlock(0, 0)]) == s3;
    assert [Lock(0, 0), Lock(1, 0), Unlock(0, 0)][1..] == [Lock(1, 0), Unlock(0, 0)];
  }

  /** Nested use lets a second process in: after an inner lock and unlock the lock is
      free while its first process is still inside. */
  lemma NestingLetsIn(s: State, p: nat, r: nat, l: nat)
    requires Inv(s) && p < |s.procs| && r < |s.procs| && p != r && l < |s.queues|
    requires s.queues[l] == [p] && l in s.procs[p].inside && s.procs[r].waiting.None?
    ensures var inner := Apply(s, Lock(p, l));
      && inner == s
      && Apply(inner, Unlock(p, l)).queues[l] == []
      && l in Apply(Apply(inner, Unlock(p, l)), Lock(r, l)).procs[r].inside
  {
  }
}
