/** The handshake between a task's worker, which asks how to settle a conflict, and the user,
    who answers or cancels. Each step is what one side does under the mutex; the signal to the
    condition variable is a step of its own. */
module ConflictHandshake {
  import opened OperationContext
  import opened Options

  // The worker works, or waits for the answer to a conflict; it sleeps until it is signalled.
  datatype Worker = Working | Waiting(conflict: nat, signalled: bool)

  // How a conflict ended for the worker.
  datatype Reply = Answered(policy: Policy) | Canceled

  class Task {
    var canceled: bool
    var resolution: Policy
    var resolutionForAll: Option<Policy>
    var resolved: bool
    var lastConflict: nat
    var pendingConflict: nat
    var worker: Worker
    // Signals that were decided under the mutex and are still to be sent.
    var notifies: nat
    // Conflicts on their way to the listeners.
    var announced: seq<nat>
    // The answer that was accepted for each conflict.
    ghost var answers: map<nat, Policy>
    // The answers that were accepted for all conflicts.
    ghost var general: set<Policy>

    constructor ()
      ensures Valid() && worker == Working && !canceled && answers == map[] && general == {}
    {
      canceled, resolution, resolutionForAll, resolved := false, Fail, None, false;
      lastConflict, pendingConflict, worker, notifies, announced := 0, 0, Working, 0, [];
      answers, general := map[], {};
    }

    // What the worker waits for has come.
    predicate Ready()
      reads this
    {
      resolved || canceled
    }

    ghost predicate Valid()
      reads this
    {
      && (forall k :: 0 <= k < |announced| ==> 0 < announced[k] <= lastConflict)
      && (forall c :: c in answers ==> 0 < c <= lastConflict && answers[c] != Ask)
      && Ask !in general
      && (resolutionForAll.Some? ==> resolutionForAll.value in general)
      && (pendingConflict != 0 ==>
            pendingConflict == lastConflict && worker.Waiting? && lastConflict !in answers && !resolved)
      && (worker.Waiting? ==>
            && worker.conflict == lastConflict > 0
            && (resolved <==> lastConflict in answers)
            && (resolved ==> answers[lastConflict] == resolution)
            && (!resolved ==> pendingConflict == lastConflict)
            && (Ready() ==> worker.signalled || notifies > 0))
    }

    // ----- The worker -----

    /** The worker meets a conflict. Where one answer does for all it goes on with it; else it
        announces the conflict under a new number and waits. */
    method AskUser() returns (reply: Option<Reply>)
      requires Valid() && worker == Working
      modifies this
      ensures Valid() && answers == old(answers) && general == old(general) && canceled == old(canceled)
      ensures if old(resolutionForAll).Some?
              then reply == Some(Answered(old(resolutionForAll).value)) && worker == Working
                && pendingConflict == old(pendingConflict)
              else
                && reply == None && worker.Waiting?
                && worker.conflict == lastConflict == pendingConflict == old(lastConflict) + 1
                && lastConflict !in answers && announced == old(announced) + [lastConflict]
      ensures reply.Some? ==> reply.value.policy != Ask && reply.value.policy in general
    {
      if resolutionForAll.Some? {
        return Some(Answered(resolutionForAll.value));
      }
      resolved := false;
      lastConflict := lastConflict + 1;
      pendingConflict := lastConflict;
      announced := announced + [lastConflict];
      worker := Waiting(lastConflict, canceled);
      return None;
    }

    /** The worker, signalled or not, looks again. It goes on with the answer to its own
        conflict, unless the task was canceled; a later answer finds nothing pending. */
    method Wake() returns (reply: Option<Reply>)
      requires Valid() && worker.Waiting?
      modifies this`worker, this`pendingConflict
      ensures Valid()
      ensures reply == None <==> !old(Ready())
      ensures reply == None ==> worker == Waiting(lastConflict, false) && pendingConflict == old(pendingConflict)
      ensures reply.Some? ==> worker == Working && pendingConflict == 0
      ensures reply.Some? ==>
                if canceled then reply.value == Canceled
                else
                  && lastConflict in answers && reply.value == Answered(answers[lastConflict])
                  && answers[lastConflict] != Ask
    {
      if !resolved && !canceled {
        worker := Waiting(worker.conflict, false);
        return None;
      }
      worker := Working;
      pendingConflict := 0;
      return Some(if canceled then Canceled else Answered(resolution));
    }

    // ----- The user -----

    /** An answer counts just when its conflict is the one that waits: an answer to another, or
        a second one, changes nothing. */
    method ResolveConflict(conflict: nat, policy: Policy, applyToAll: bool) returns (accepted: bool)
      requires Valid()
      modifies this
      ensures Valid() && worker == old(worker) && lastConflict == old(lastConflict) && canceled == old(canceled)
      ensures accepted <==> policy != Ask && conflict != 0 && conflict == old(pendingConflict)
      ensures accepted ==>
                && conflict !in old(answers) && answers == old(answers)[conflict := policy]
                && general == (if applyToAll then old(general) + {policy} else old(general))
                && resolved && pendingConflict == 0 && notifies == old(notifies) + 1
      ensures !accepted ==>
                && answers == old(answers) && general == old(general) && resolution == old(resolution)
                   && resolved == old(resolved)
                && resolutionForAll == old(resolutionForAll) && pendingConflict == old(pendingConflict)
                   && notifies == old(notifies)
                && announced == old(announced)
    {
      if policy == Ask {
        return false;
      }
      if conflict == 0 || conflict != pendingConflict {
        return false;
      }
      pendingConflict := 0;
      resolution := policy;
      resolved := true;
      answers := answers[conflict := policy];
      if applyToAll {
        resolutionForAll := Some(policy);
        general := general + {policy};
      }
      notifies := notifies + 1;
      return true;
    }

    method Cancel()
      requires Valid()
      modifies this`canceled, this`notifies
      ensures Valid() && canceled && notifies > 0
    {
      canceled := true;
      notifies := notifies + 1;
    }

    // A signal decided earlier reaches the worker, if it waits by now.
    method NotifyAll()
      requires Valid() && notifies > 0
      modifies this`notifies, this`worker
      ensures Valid() && notifies == old(notifies) - 1
      ensures worker == match old(worker) case Working => Working case Waiting(c, _) => Waiting(c, true)
    {
      notifies := notifies - 1;
      if worker.Waiting? {
        worker := Waiting(worker.conflict, true);
      }
    }

    // An announcement arrives; with nobody to ask, the conflict fails.
    method Announce(listening: bool) returns (conflict: nat)
      requires Valid() && announced != []
      modifies this
      ensures Valid() && conflict == old(announced)[0] && worker == old(worker)
      ensures listening ==> answers == old(answers) && pendingConflict == old(pendingConflict)
      ensures !listening ==> answers == if conflict == old(pendingConflict) then old(answers)[conflict := Fail]
              else old(answers)
    {
      conflict := announced[0];
      announced := announced[1..];
      if !listening {
        var accepted := ResolveConflict(conflict, Fail, false);
      }
    }

    /** After a cancellation the worker is not left waiting: the signals still to be sent wake it,
        and it stops. */
    method WorkerStops() returns (stopped: Reply)
      requires Valid() && canceled && worker.Waiting?
      modifies this
      ensures Valid() && worker == Working && stopped == Canceled
    {
      while !worker.signalled
        invariant Valid() && canceled && worker.Waiting?
        decreases notifies
      {
        NotifyAll();
      }
      var reply := Wake();
      return reply.value;
    }
  }
}
