/**
  A lock's queue of processes: what locking and unlocking do to it, and the linked
  list that holds it.
 */
module LockQueue {
  import opened Basics

  /** The queue after process p has asked for the lock. */
  function Entered(q: seq<nat>, p: nat): seq<nat> {
    if q == [] then [p] else if q[0] == p then q else q + [p]
  }

  /** The queue after process p has given up the lock. */
  function Left(q: seq<nat>, p: nat): seq<nat> {
    if |q| <= 1 then [] else if q[0] == p then q[1..] else q
  }

  /** The process that is set ready when p gives up the lock. */
  function Woken(q: seq<nat>, p: nat): Option<nat> {
    if |q| <= 1 then None else Some(Left(q, p)[0])
  }

  /** Processes that are not in the queue join it at the end, and the others keep
      their places; leaving removes the head only. So the queue stays free of
      repetitions, exactly as long as nobody who waits in it asks again. */
  lemma QueueStaysDistinct(q: seq<nat>, p: nat)
    requires Distinct(q)
    ensures Distinct(Entered(q, p)) <==> p !in q || q[0] == p
    ensures Distinct(Left(q, p))
    ensures q <= Entered(q, p) && (p !in q ==> Entered(q, p)[|q|] == p)
  {
    if p in q && q[0] != p {
      var i :| 0 <= i < |q| && q[i] == p;
      assert Entered(q, p)[i] == Entered(q, p)[|q|];
    }
  }

  /** Whoever unlocks a queue of two or more, its head or not, the process that is set
      ready is the one at the head afterwards; with fewer, nobody is. */
  lemma HeadWoken(q: seq<nat>, p: nat)
    ensures Woken(q, p).Some? <==> |q| > 1
    ensures |q| > 1 ==> Left(q, p) != [] && Woken(q, p).value == Left(q, p)[0] == if q[0] == p then q[1] else q[0]
  {
  }

  /** There is no nesting count: for the process at the head, a lock and unlock within
      the locked region have the effect of the final unlock, whatever the queue. */
  lemma NestingReleases(q: seq<nat>, p: nat)
    requires q != [] && q[0] == p
    ensures Left(Entered(q, p), p) == Left(q, p)
    ensures Distinct(q) ==> p !in Left(Entered(q, p), p)
  {
  }

  /** The owner is checked only when somebody waits: another process's unlock keeps
      the queue exactly if it does not have one entry. */
  lemma StrangerKeepsIff(q: seq<nat>, p: nat)
    requires q == [] || q[0] != p
    ensures Left(q, p) == q <==> |q| != 1
  {
  }

  class Node {
    var pid: nat
    var next: Node?

    constructor (pid: nat)
      ensures this.pid == pid && next == null
    {
      this.pid := pid;
      next := null;
    }
  }

  class Queue {
    var head: Node?
    var tail: Node?
    ghost var nodes: seq<Node>

    /** The list from head runs through the nodes, each once, and ends at tail. */
    ghost predicate Valid()
      reads this, nodes
    {
      && (forall i, j :: 0 <= i < j < |nodes| ==> nodes[i] != nodes[j])
      && (forall i :: 0 <= i < |nodes| - 1 ==> nodes[i].next == nodes[i + 1])
      && (if nodes == [] then head == null && tail == null
          else head == nodes[0] && tail == nodes[|nodes| - 1] && nodes[|nodes| - 1].next == null)
    }

    ghost function Pids(): (q: seq<nat>)
      reads this, nodes
      ensures |q| == |nodes|
    {
      seq(|nodes|, i requires 0 <= i < |nodes| reads this, nodes => nodes[i].pid)
    }

    /** register_lock */
    constructor ()
      ensures Valid() && Pids() == [] && fresh(this)
    {
      head, tail, nodes := null, null, [];
    }

    /** The first section of lock, up to the wait: true if the caller has the lock. */
    method Enter(pid: nat) returns (has: bool)
      requires Valid()
      modifies this, nodes
      ensures Valid() && fresh(set x | x in nodes && x !in old(nodes))
      ensures Pids() == Entered(old(Pids()), pid)
      ensures has <==> Pids()[0] == pid
    {
      if head == null {
        var first := new Node(pid);
        head, tail, nodes := first, first, [first];
        return true;
      }
      if head.pid == pid {
        return true;
      }
      var last := new Node(pid);
      ghost var was := nodes;
      tail.next := last;
      tail := last;
      nodes := nodes + [last];
      assert forall i :: 0 <= i < |was| ==> nodes[i] == was[i] && nodes[i].pid == old(was[i].pid);
      has := false;
    }

    /** The test in the wait loop. */
    method AtHead(pid: nat) returns (has: bool)
      requires Valid() && Pids() != []
      ensures has <==> Pids()[0] == pid
    {
      has := head.pid == pid;
    }

    /** get_lock_owner */
    method Owner() returns (pid: nat)
      requires Valid() && Pids() != []
      ensures pid == Pids()[0]
    {
      pid := head.pid;
    }

    /** unlock: which process to wake, if any. */
    method Leave(pid: nat) returns (woken: Option<nat>)
      requires Valid()
      modifies this
      ensures Valid()
      ensures Pids() == Left(old(Pids()), pid)
      ensures woken == Woken(old(Pids()), pid)
    {
      var tmp := head;
      if tmp == null {
        return None;
      }
      if head == tail {
        SingleNode();
        head, tail, nodes := null, null, [];
        return None;
      }
      assert |nodes| > 1 && nodes[0].next == nodes[1];
      if tmp.pid == pid {
        head := tmp.next;
        nodes := nodes[1..];
      }
      woken := Some(head.pid);
    }

    lemma SingleNode()
      requires Valid() && head == tail && head != null
      ensures |nodes| == 1
    {
    }
  }
}
