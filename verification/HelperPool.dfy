/** The helper threads that listings share work with, as steps taken under one mutex. */
module HelperPool {

  function Count<T>(s: seq<T>, f: T -> bool): (n: nat)
    ensures n <= |s|
  {
    if s == [] then 0 else Count(s[..|s| - 1], f) + if f(s[|s| - 1]) then 1 else 0
  }

  lemma {:induction false} CountUpdate<T>(s: seq<T>, f: T -> bool, i: nat, x: T)
    requires i < |s|
    ensures Count(s[i := x], f) == Count(s, f) - (if f(s[i]) then 1 else 0) + if f(x) then 1 else 0
    decreases |s|
  {
    var last := |s| - 1;
    if i == last {
      assert s[i := x][..last] == s[..last];
    } else {
      assert s[i := x][..last] == s[..last][i := x];
      CountUpdate(s[..last], f, i, x);
    }
  }

  lemma CountAppend<T>(s: seq<T>, f: T -> bool, x: T)
    ensures Count(s + [x], f) == Count(s, f) + if f(x) then 1 else 0
  {
    assert (s + [x])[..|s|] == s;
  }

  lemma {:induction false} CountFinds<T>(s: seq<T>, f: T -> bool)
    requires Count(s, f) > 0
    ensures exists i :: 0 <= i < |s| && f(s[i])
  {
    if !f(s[|s| - 1]) {
      CountFinds(s[..|s| - 1], f);
      var i :| 0 <= i < |s| - 1 && f(s[..|s| - 1][i]);
      assert f(s[i]);
    }
  }

  // Where a thread is: on its way to the mutex for the first time, in the wait, in the wait
  // but signalled, or at work without the mutex.
  datatype Phase = Starting | Asleep | Signalled | Working(work: nat)

  const Idle: Phase -> bool := (p: Phase) => p.Asleep? || p.Signalled?

  // A thread that will look at the queue next without anything having to happen first.
  const Coming: Phase -> bool := (p: Phase) => p.Starting? || p.Signalled?

  lemma {:induction false} NobodyAsleep(phases: seq<Phase>)
    requires forall t :: 0 <= t < |phases| ==> !phases[t].Asleep?
    ensures Count(phases, Idle) <= Count(phases, Coming)
    decreases |phases|
  {
    if phases != [] {
      NobodyAsleep(phases[..|phases| - 1]);
    }
  }

  class Helpers {
    const limit: nat
    var queue: seq<nat>
    var threads: nat
    var idle: int
    var phases: seq<Phase>
    // All work accepted so far, and all that a thread took up, in order.
    ghost var accepted: seq<nat>
    ghost var taken: seq<nat>

    constructor (limit: nat)
      ensures Valid() && this.limit == limit && phases == [] && accepted == []
    {
      this.limit := limit;
      queue, threads, idle := [], 0, 0;
      phases, accepted, taken := [], [], [];
    }

    // Every queued item has a thread of its own coming for it.
    ghost predicate Valid()
      reads this
    {
      && threads == |phases| <= limit
      && idle == Count(phases, Idle)
      && |queue| <= Count(phases, Coming)
      && accepted == taken + queue
    }

    ghost predicate OnlyTurned(before: seq<Phase>, t: nat)
      reads this
    {
      |phases| == |before| && forall u :: 0 <= u < |before| && u != t ==> phases[u] == before[u]
    }

    method Turn(t: nat, phase: Phase)
      requires t < |phases|
      modifies this`phases
      ensures phases == old(phases)[t := phase]
      ensures Count(phases, Idle) == old(Count(phases, Idle)) - (if Idle(old(phases[t])) then 1 else 0)
              + if Idle(phase) then 1 else 0
      ensures Count(phases, Coming) == old(Count(phases, Coming)) - (if Coming(old(phases[t])) then 1 else 0)
              + if Coming(phase) then 1 else 0
    {
      CountUpdate(phases, Idle, t, phase);
      CountUpdate(phases, Coming, t, phase);
      phases := phases[t := phase];
    }

    // The condition variable signals a thread that waits unsignalled, if there is one.
    method NotifyOne()
      modifies this`phases
      ensures |phases| == |old(phases)| && Count(phases, Idle) == old(Count(phases, Idle))
      ensures Count(phases, Coming) ==
              if exists t :: 0 <= t < |old(phases)| && old(phases)[t].Asleep? then old(Count(phases, Coming)) + 1
              else old(Count(phases, Coming))
    {
      if exists t :: 0 <= t < |phases| && phases[t].Asleep? {
        var t :| 0 <= t < |phases| && phases[t].Asleep?;
        Turn(t, Signalled);
      }
    }

    /** Takes the work exactly when a thread is idle beyond the queue's needs or may be
        started; then a thread of its own is coming for it. */
    method TryStart(work: nat) returns (ok: bool)
      requires Valid()
      modifies this
      ensures Valid() && taken == old(taken)
      ensures ok <==> old(idle) > |old(queue)| || old(threads) < limit
      ensures accepted == if ok then old(accepted) + [work] else old(accepted)
      ensures ok ==> queue == old(queue) + [work]
      ensures threads == old(threads) + if ok && old(idle) <= |old(queue)| then 1 else 0
    {
      if idle > |queue| {
        if !(exists t :: 0 <= t < |phases| && phases[t].Asleep?) {
          NobodyAsleep(phases);
        }
        queue := queue + [work];
        NotifyOne();
        accepted := accepted + [work];
        return true;
      }
      if threads >= limit {
        return false;
      }
      threads := threads + 1;
      queue := queue + [work];
      CountAppend(phases, Idle, Starting);
      CountAppend(phases, Coming, Starting);
      phases := phases + [Starting];
      accepted := accepted + [work];
      return true;
    }

    // A thread reaches the wait with the mutex: new, or done with its work.
    method Arrive(t: nat) returns (work: seq<nat>)
      requires Valid() && t < |phases| && !Idle(phases[t])
      modifies this
      ensures Valid() && OnlyTurned(old(phases), t) && accepted == old(accepted) && threads == old(threads)
      ensures Took(old(queue), old(taken), t, work)
    {
      idle := idle + 1;
      Turn(t, Signalled);
      work := Resume(t);
    }

    // A waiting thread wakes, signalled or not, and looks at the queue.
    method Wake(t: nat) returns (work: seq<nat>)
      requires Valid() && t < |phases| && Idle(phases[t])
      modifies this
      ensures Valid() && OnlyTurned(old(phases), t) && accepted == old(accepted) && threads == old(threads)
      ensures Took(old(queue), old(taken), t, work)
    {
      work := Resume(t);
    }

    // The thread now works on the oldest item of the queue, or sleeps when there is none.
    ghost predicate Took(queue: seq<nat>, taken: seq<nat>, t: nat, work: seq<nat>)
      reads this
    {
      && t < |phases|
      && if queue == [] then work == [] && this.queue == [] && this.taken == taken && phases[t].Asleep?
         else
           && work == [queue[0]] && this.queue == queue[1..] && this.taken == taken + work
           && phases[t] == Working(queue[0])
    }

    method Resume(t: nat) returns (work: seq<nat>)
      requires threads == |phases| <= limit && accepted == taken + queue
      requires idle == Count(phases, Idle) && t < |phases| && Idle(phases[t])
      requires |queue| <= Count(phases, Coming)
      modifies this
      ensures Valid() && OnlyTurned(old(phases), t) && accepted == old(accepted) && threads == old(threads)
      ensures Took(old(queue), old(taken), t, work)
    {
      if queue == [] {
        Turn(t, Asleep);
        return [];
      }
      idle := idle - 1;
      work := [queue[0]];
      assert taken + queue == (taken + work) + queue[1..];
      taken := taken + work;
      Turn(t, Working(queue[0]));
      queue := queue[1..];
    }

    /** Queued work never waits behind other work: the threads that are coming anyway take all
        of it up, in order, while every thread at work goes on working. */
    method Drain()
      requires Valid()
      modifies this
      ensures Valid() && queue == [] && taken == accepted == old(accepted)
      ensures |phases| == |old(phases)| && forall t :: 0 <= t < |phases| && old(phases)[t].Working? ==>
              phases[t] == old(phases)[t]
    {
      while queue != []
        invariant Valid() && accepted == old(accepted) && |phases| == |old(phases)|
        invariant forall t :: 0 <= t < |phases| && old(phases)[t].Working? ==> phases[t] == old(phases)[t]
        decreases |queue|
      {
        CountFinds(phases, Coming);
        var t :| 0 <= t < |phases| && Coming(phases[t]);
        var work;
        if phases[t].Starting? {
          work := Arrive(t);
        } else {
          work := Wake(t);
        }
      }
      assert taken + [] == taken;
    }
  }
}
