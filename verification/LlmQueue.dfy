/** The inference queue (src/llm.c:784-812, 872-940) as the atomic critical sections its threads
    run, in any order.  The ghost log is the order in which the sections took the lock. */
module LlmQueue {
  import opened TaskQueue

  datatype Event = Submit(ino: nat) | Dequeue(ino: nat)

  // ---- what the log means ----

  /** The queue a log leaves: submits of a queued inode are ignored, dequeues take the head. */
  function Pending(log: seq<Event>): seq<nat> {
    if log == [] then []
    else
      var q, e := Pending(log[..|log| - 1]), log[|log| - 1];
      match e
      case Submit(i) => if i in q then q else q + [i]
      case Dequeue(_) => if q == [] then [] else q[1..]
  }

  /** Dequeues take the inode at the head. */
  ghost predicate Legal(log: seq<Event>) {
    forall t :: 0 <= t < |log| && log[t].Dequeue? ==> Pending(log[..t]) != [] && Pending(log[..t])[0] == log[t].ino
  }

  /** The submit at position t has not been answered by a dequeue. */
  ghost predicate Waiting(log: seq<Event>, t: nat) {
    t < |log| && log[t].Submit? && forall u :: t < u < |log| ==> log[u] != Dequeue(log[t].ino)
  }

  /** t is the earliest unanswered submit of its inode. */
  ghost predicate FirstWaiting(log: seq<Event>, t: nat) {
    Waiting(log, t) && forall u: nat :: u < t && log[u] == log[t] ==> !Waiting(log, u)
  }

  lemma LegalPrefix(log: seq<Event>)
    requires log != [] && Legal(log)
    ensures Legal(log[..|log| - 1])
    ensures log[|log| - 1].Dequeue? ==>
      Pending(log[..|log| - 1]) != [] && Pending(log[..|log| - 1])[0] == log[|log| - 1].ino
  {
    hide Pending;
    var front := log[..|log| - 1];
    assert forall t :: 0 <= t < |front| ==> front[..t] == log[..t] && front[t] == log[t];
  }

  /** Waiting in a log and in its prefix. */
  lemma WaitingPrefix(log: seq<Event>, t: nat)
    requires log != [] && t < |log| - 1
    ensures Waiting(log, t) <==> Waiting(log[..|log| - 1], t) && log[|log| - 1] != Dequeue(log[t].ino)
  {
    var front := log[..|log| - 1];
    assert forall u :: 0 <= u < |front| ==> front[u] == log[u];
    if Waiting(log, t) {
      assert log[|log| - 1] != Dequeue(log[t].ino);
    }
  }

  /** The queue holds no inode twice. */
  lemma {:induction false} NoDuplicates(log: seq<Event>)
    ensures forall a, b :: 0 <= a < b < |Pending(log)| ==> Pending(log)[a] != Pending(log)[b]
  {
    if log != [] { NoDuplicates(log[..|log| - 1]); }
  }

  /** The queue holds exactly the inodes with an unanswered submit. */
  lemma {:induction false} PendingExact(log: seq<Event>, i: nat)
    requires Legal(log)
    ensures i in Pending(log) <==> Asked(log, i)
  {
    if log != [] {
      var front, e := log[..|log| - 1], log[|log| - 1];
      LegalPrefix(log);
      PendingExact(front, i);
      NoDuplicates(front);
      var q := Pending(front);
      if e == Submit(i) {
        assert Waiting(log, |log| - 1);
      } else if e == Dequeue(i) {
        forall t: nat | t < |log| && log[t].ino == i
          ensures !Waiting(log, t)
        {
          if t < |log| - 1 { WaitingPrefix(log, t); }
        }
      } else {
        OtherEvent(log, i);
        if e.Dequeue? {
          assert forall a :: 0 <= a < |q| - 1 ==> q[1..][a] == q[a + 1];
          assert i in q ==> i in q[1..];
        }
      }
    }
  }

  /** Some submit of i is unanswered. */
  ghost predicate Asked(log: seq<Event>, i: nat) {
    exists t: nat :: Waiting(log, t) && log[t].ino == i
  }

  lemma OtherEvent(log: seq<Event>, i: nat)
    requires log != [] && log[|log| - 1].ino != i
    ensures Asked(log, i) <==> Asked(log[..|log| - 1], i)
  {
    var front := log[..|log| - 1];
    if Asked(log, i) {
      var t: nat :| Waiting(log, t) && log[t].ino == i;
      WaitingPrefix(log, t);
      assert Waiting(front, t) && front[t].ino == i;
    }
    if Asked(front, i) {
      var t: nat :| Waiting(front, t) && front[t].ino == i;
      WaitingPrefix(log, t);
      assert Waiting(log, t) && log[t].ino == i;
    }
  }

  /** The position of the earliest unanswered submit of i. */
  function Since(log: seq<Event>, i: nat): (t: nat)
    ensures t <= |log|
  {
    if log == [] then 0
    else
      var t, e := Since(log[..|log| - 1], i), log[|log| - 1];
      if e == Dequeue(i) then |log|
      else if t < |log| - 1 then t
      else if e == Submit(i) then |log| - 1
      else |log|
  }

  lemma {:induction false} SinceFirst(log: seq<Event>, i: nat)
    ensures Since(log, i) < |log| ==> log[Since(log, i)] == Submit(i) && FirstWaiting(log, Since(log, i))
    ensures Since(log, i) == |log| ==> forall t: nat :: t < |log| && log[t].ino == i ==> !Waiting(log, t)
  {
    if log != [] {
      var front, e := log[..|log| - 1], log[|log| - 1];
      SinceFirst(front, i);
      assert forall u :: 0 <= u < |front| ==> front[u] == log[u];
      forall t: nat | t < |log| - 1
        ensures Waiting(log, t) <==> Waiting(front, t) && e != Dequeue(log[t].ino)
      {
        WaitingPrefix(log, t);
      }
    }
  }

  /** The queue is in the order of the earliest unanswered submits. */
  lemma {:induction false} FifoOrder(log: seq<Event>)
    requires Legal(log)
    ensures forall a :: 0 <= a < |Pending(log)| ==> Since(log, Pending(log)[a]) < |log|
    ensures forall a, b :: 0 <= a < b < |Pending(log)| ==> Since(log, Pending(log)[a]) < Since(log, Pending(log)[b])
  {
    if log != [] {
      var front, e := log[..|log| - 1], log[|log| - 1];
      LegalPrefix(log);
      FifoOrder(front);
      NoDuplicates(front);
      var q, q' := Pending(front), Pending(log);
      forall a | 0 <= a < |q'|
        ensures Since(log, q'[a]) == if e.Submit? && a == |q| then |log| - 1 else Since(front, q'[a])
        ensures Since(log, q'[a]) < |log|
        ensures e.Dequeue? ==> q'[a] == q[a + 1]
        ensures e.Submit? && a < |q| ==> q'[a] == q[a]
      {
        if e.Submit? && a == |q| {
          PendingExact(front, e.ino);
          SinceFirst(front, e.ino);
        }
      }
    }
  }

  /** The worker leaves only when every submit before that has been followed by a dequeue. */
  lemma DrainedAnswers(log: seq<Event>, t: nat)
    requires Legal(log) && Pending(log) == [] && t < |log| && log[t].Submit?
    ensures exists u :: t < u < |log| && log[u] == Dequeue(log[t].ino)
  {
    PendingExact(log, log[t].ino);
    assert !Asked(log, log[t].ino);
    assert !Waiting(log, t);
  }

  // ---- the queue ----

  datatype Turn = Took(ino: nat) | Sleeps | Leaves

  class Worker {
    const queue: Queue<nat>
    var shutdown: bool
    ghost var log: seq<Event>

    ghost predicate Valid()
      reads this, queue, queue.nodes
    {
      queue.Valid() && queue.Items() == Pending(log) && Legal(log)
    }

    constructor ()
      ensures Valid() && log == [] && !shutdown && fresh(queue) && queue.nodes == []
    {
      queue := new Queue<nat>();
      shutdown := false;
      log := [];
    }

    lemma LogGrows(e: Event)
      requires Legal(log)
      requires e.Dequeue? ==> Pending(log) != [] && Pending(log)[0] == e.ino
      ensures Legal(log + [e]) && (log + [e])[..|log|] == log
    {
      hide Pending;
      var log' := log + [e];
      assert log'[..|log|] == log;
      assert forall t :: 0 <= t < |log| ==> log'[..t] == log[..t] && log'[t] == log[t];
    }

    /** llm_submit: the section under the lock. */
    method Request(ino: nat)
      requires Valid()
      modifies this, queue, queue.nodes
      ensures Valid() && log == old(log) + [Submit(ino)] && shutdown == old(shutdown)
      ensures queue.Items() == if ino in old(queue.Items()) then old(queue.Items()) else old(queue.Items()) + [ino]
      ensures forall n :: n in queue.nodes ==> n in old(queue.nodes) || fresh(n)
    {
      hide Legal;
      LogGrows(Submit(ino));
      var known := Queued(ino);
      if !known { queue.Append(ino); }
      log := log + [Submit(ino)];
    }

    /** The walk along the list that looks for the inode. */
    method Queued(ino: nat) returns (known: bool)
      requires Valid()
      ensures known <==> ino in queue.Items()
    {
      hide Legal, Pending;
      var p := queue.head;
      ghost var k: nat := 0;
      known := false;
      while p != null
        invariant k <= |queue.nodes| && p == NodeAt(queue.nodes, k)
        invariant forall i :: 0 <= i < k ==> queue.nodes[i].item != ino
        decreases |queue.nodes| - k
      {
        if p.item == ino {
          assert queue.Items()[k] == ino;
          return true;
        }
        p := p.next;
        k := k + 1;
      }
    }

    /** One turn of the worker at the top of its loop. */
    method Next() returns (turn: Turn)
      requires Valid()
      modifies this, queue
      ensures Valid() && shutdown == old(shutdown)
      ensures turn.Leaves? <==> old(shutdown) && old(queue.Items()) == []
      ensures turn.Sleeps? <==> !old(shutdown) && old(queue.Items()) == []
      ensures turn.Took? ==> old(queue.Items()) == [turn.ino] + queue.Items() && log == old(log) + [Dequeue(turn.ino)]
      ensures !turn.Took? ==> queue.Items() == old(queue.Items()) && log == old(log)
      ensures turn.Leaves? ==> Pending(log) == []
      ensures queue.nodes == old(queue.nodes) || queue.nodes == old(queue.nodes)[1..]
    {
      hide Legal;
      if queue.head == null { return if shutdown then Leaves else Sleeps; }
      turn := TakeNext();
    }

    method TakeNext() returns (turn: Turn)
      requires Valid() && queue.nodes != []
      modifies this, queue
      ensures Valid() && shutdown == old(shutdown) && turn.Took?
      ensures old(queue.Items()) == [turn.ino] + queue.Items() && log == old(log) + [Dequeue(turn.ino)]
      ensures queue.nodes == old(queue.nodes)[1..]
    {
      hide Legal, Queue.Valid, ItemsOf;
      ghost var q := queue.Items();
      var ino := queue.Take();
      assert q == [ino] + queue.Items() && q[1..] == queue.Items();
      LogGrows(Dequeue(ino));
      log := log + [Dequeue(ino)];
      turn := Took(ino);
    }

    /** The section of llm_destroy that asks the worker to stop. */
    method Stop()
      requires Valid()
      modifies `shutdown
      ensures Valid() && shutdown && log == old(log)
    {
      shutdown := true;
    }
  }
}
