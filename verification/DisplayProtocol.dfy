/** The client's side of the compositor's display protocol: replies, signals, timeouts and
    restarts of the compositor, in any order. Each handler is one step. */
module DisplayProtocol {
  import opened Options

  datatype OperationResult = OperationResult(succeeded: bool, degraded: bool, errorCode: int, generation: nat,
      revision: nat)

  // What is cached of the compositor's state; no instance while it is unknown.
  datatype State = State(instanceId: string, generation: nat, revision: nat)

  const UNKNOWN := State("", 0, 0)
  const UNAVAILABLE: int := 1
  const FAILURE := OperationResult(false, false, 1, 0, 0)

  // A call without its reply.
  datatype Call =
    | ApplyCall(epoch: nat, operation: nat)
    | RequestCall(epoch: nat, wanted: bool)

  // An operation reported to the listeners, with the state they could see.
  datatype Report = Report(operation: nat, token: string, result: OperationResult, seen: State)

  // The end of a request, told to who sent it.
  datatype Answer = Answer(request: nat, succeeded: bool, errorCode: int)

  function AnswerOf(request: nat, result: OperationResult): Answer {
    Answer(request, result.succeeded, result.errorCode)
  }

  // A result heard from the compositor while an operation was the latest.
  datatype Heard = Heard(operation: nat, token: string, result: OperationResult)

  predicate AtOrPast(state: State, result: OperationResult) {
    || result.generation == 0
    || state.generation > result.generation
    || (state.generation == result.generation && state.revision >= result.revision)
  }

  // The result that a state has.
  function ResultOf(state: State): OperationResult {
    OperationResult(true, false, 0, state.generation, state.revision)
  }

  /** States are at or past one another in the order of their generations, and of their revisions
      within one; whatever names no generation is past at once. */
  lemma PastIsLexicographic(a: State, b: State)
    ensures b.generation == 0 ==> AtOrPast(a, ResultOf(b))
    ensures a.generation > b.generation ==> AtOrPast(a, ResultOf(b)) && !AtOrPast(b, ResultOf(a))
    ensures a.generation == b.generation > 0 ==>
              && (a.revision < b.revision ==> !AtOrPast(a, ResultOf(b)) && AtOrPast(b, ResultOf(a)))
              && (a.revision == b.revision ==> AtOrPast(a, ResultOf(b)))
  {
  }

  // ----- Requests -----

  // The requests that the owner of an epoch has yet to reply to.
  ghost function InFlight(calls: map<nat, Call>, epoch: nat): set<nat> {
    set id | id in calls && calls[id].RequestCall? && calls[id].epoch == epoch
  }

  ghost predicate NotAhead(calls: map<nat, Call>, epoch: nat) {
    forall id :: id in calls ==> calls[id].epoch <= epoch
  }

  lemma InFlightSent(calls: map<nat, Call>, id: nat, call: Call, epoch: nat)
    requires id !in calls
    ensures |InFlight(calls[id := call], epoch)| ==
            |InFlight(calls, epoch)| + if call.RequestCall? && call.epoch == epoch then 1 else 0
  {
    var sent := if call.RequestCall? && call.epoch == epoch then {id} else {};
    assert InFlight(calls[id := call], epoch) == InFlight(calls, epoch) + sent;
  }

  lemma InFlightReplied(calls: map<nat, Call>, id: nat, epoch: nat)
    requires id in calls
    ensures |InFlight(calls - {id}, epoch)| ==
            |InFlight(calls, epoch)| - if calls[id].RequestCall? && calls[id].epoch == epoch then 1 else 0
  {
    var replied := if calls[id].RequestCall? && calls[id].epoch == epoch then {id} else {};
    assert InFlight(calls, epoch) == InFlight(calls - {id}, epoch) + replied;
  }

  ghost predicate WasAnswered(answers: seq<Answer>, id: nat) {
    exists k :: 0 <= k < |answers| && answers[k].request == id
  }

  ghost predicate Waits(requests: map<string, nat>, id: nat) {
    exists token :: token in requests && requests[token] == id
  }

  predicate Wanted(call: Call) {
    call.RequestCall? && call.wanted
  }

  // A request is in flight, waits for its result or was answered, only once; and none whose
  // sender wants an answer is forgotten while each token is that of one request.
  ghost predicate Ledger(calls: map<nat, Call>, last: nat, requests: map<string, nat>, answers: seq<Answer>,
                         wanted: set<nat>, unique: bool) {
    && (forall id: nat :: id in calls || id in wanted || Waits(requests, id) || WasAnswered(answers, id) ==> id <= last)
    && (forall id :: id in calls ==> !Waits(requests, id) && !WasAnswered(answers, id))
    && (forall id: nat :: Waits(requests, id) ==> !WasAnswered(answers, id))
    && (forall t, u :: t in requests && u in requests && requests[t] == requests[u] ==> t == u)
    && (forall j, k :: 0 <= j < k < |answers| ==> answers[j].request != answers[k].request)
    && (forall id :: id in calls ==> (id in wanted <==> Wanted(calls[id])))
    && (unique ==> forall id :: id in wanted ==> id in calls || Waits(requests, id) || WasAnswered(answers, id))
  }

  lemma AnsweredMore(answers: seq<Answer>, answer: Answer)
    ensures forall id: nat :: WasAnswered(answers + [answer], id) <==> WasAnswered(answers, id) || id == answer.request
  {
    var more := answers + [answer];
    forall id: nat
      ensures WasAnswered(more, id) <==> WasAnswered(answers, id) || id == answer.request
    {
      if k :| 0 <= k < |answers| && answers[k].request == id {
        assert more[k].request == id;
      }
      if id == answer.request {
        assert more[|answers|].request == id;
      }
    }
  }

  lemma CallSent(calls: map<nat, Call>, last: nat, call: Call, requests: map<string, nat>, answers: seq<Answer>,
                 wanted: set<nat>, unique: bool)
    requires Ledger(calls, last, requests, answers, wanted, unique)
    ensures last + 1 !in calls
    ensures Ledger(calls[last + 1 := call], last + 1, requests, answers,
              if Wanted(call) then wanted + {last + 1} else wanted, unique)
  {
  }

  // The reply ends the call; an answer, if one is wanted, follows at once.
  lemma CallAnswered(calls: map<nat, Call>, last: nat, id: nat, answer: Answer, requests: map<string, nat>,
                     answers: seq<Answer>, wanted: set<nat>, unique: bool)
    requires Ledger(calls, last, requests, answers, wanted, unique) && id in calls && answer.request == id
    ensures Ledger(calls - {id}, last, requests, answers + [answer], wanted, unique)
    ensures !Wanted(calls[id]) ==> Ledger(calls - {id}, last, requests, answers, wanted, unique)
  {
    AnsweredMore(answers, answer);
  }

  // The reply names the token that the result will come with.
  lemma CallNamed(calls: map<nat, Call>, last: nat, id: nat, token: string, requests: map<string, nat>,
                  answers: seq<Answer>, wanted: set<nat>, unique: bool)
    requires Ledger(calls, last, requests, answers, wanted, unique) && id in calls
    ensures Ledger(calls - {id}, last, requests[token := id], answers, wanted, unique && token !in requests)
  {
    var more := requests[token := id];
    assert more[token] == id;
    forall other: nat
      ensures Waits(more, other) ==> other == id || Waits(requests, other)
      ensures Waits(requests, other) && token !in requests ==> Waits(more, other)
    {
      if t :| t in requests && requests[t] == other && t != token {
        assert more[t] == other;
      }
    }
  }

  // The result arrives for a request that waits for it.
  lemma ResultArrived(calls: map<nat, Call>, last: nat, token: string, answer: Answer, requests: map<string, nat>,
                      answers: seq<Answer>, wanted: set<nat>, unique: bool)
    requires Ledger(calls, last, requests, answers, wanted, unique)
    requires token in requests && answer.request == requests[token]
    ensures Ledger(calls, last, requests - {token}, answers + [answer], wanted, unique)
  {
    AnsweredMore(answers, answer);
    assert Waits(requests, requests[token]);
    forall other: nat
      ensures Waits(requests - {token}, other) <==> Waits(requests, other) && other != requests[token]
    {
      if t :| t in requests && requests[t] == other && t != token {
        assert (requests - {token})[t] == other;
      }
    }
  }

  class DisplayClient {
    var owner: string
    var state: State
    var refreshSerial: nat
    var applyPending: bool
    var operationToken: string
    var earlyResults: map<string, OperationResult>
    var completion: Option<OperationResult>
    var serviceEpoch: nat
    var operationSerial: nat
    var timeoutArmed: bool
    var nextCall: nat
    var calls: map<nat, Call>
    var requestsInFlight: int
    // The requests whose reply named a token, by that token.
    var requests: map<string, nat>
    var earlyRequestResults: map<string, OperationResult>
    // What listeners and senders were told so far.
    ghost var reports: seq<Report>
    ghost var answers: seq<Answer>
    ghost var heard: set<Heard>
    // The compositor has named every operation so far.
    ghost var named: bool
    // The requests whose senders want an answer, and whether each token was that of one only.
    ghost var wanted: set<nat>
    ghost var unique: bool

    constructor (owner: string)
      ensures Valid() && !Pending() && reports == [] && answers == [] && named && unique
      ensures this.owner == owner && operationSerial == 0 && operationToken == ""
    {
      this.owner := owner;
      state, refreshSerial := UNKNOWN, 1;
      applyPending, operationToken, earlyResults, completion := false, "", map[], None;
      serviceEpoch, operationSerial, timeoutArmed, nextCall, calls := 1, 0, false, 0, map[];
      requestsInFlight, requests, earlyRequestResults := 0, map[], map[];
      reports, answers, heard, named := [], [], {}, true;
      wanted, unique := {}, true;
    }

    predicate Pending()
      reads this`applyPending, this`operationToken, this`completion
    {
      applyPending || operationToken != "" || completion.Some?
    }

    predicate Available()
      reads this`owner, this`state
    {
      owner != "" && state.instanceId != ""
    }

    // ----- What every step keeps -----

    // Each accepted operation is reported once, in order, and the last one only when it is
    // no longer pending.
    ghost predicate Reported()
      reads this`applyPending, this`operationToken, this`completion, this`timeoutArmed, this`operationSerial,
            this`reports
    {
      && |reports| == operationSerial - (if Pending() then 1 else 0)
      && (forall k :: 0 <= k < |reports| ==> reports[k].operation == k + 1)
      && timeoutArmed == Pending()
    }

    // Success is reported only as the compositor told it, with a state that has it.
    ghost predicate Truthful()
      reads this`reports, this`earlyResults, this`completion, this`operationToken, this`operationSerial, this`heard
    {
      && (forall k :: 0 <= k < |reports| && reports[k].result.succeeded ==>
            && AtOrPast(reports[k].seen, reports[k].result)
            && Heard(reports[k].operation, reports[k].token, reports[k].result) in heard)
      && (forall t :: t in earlyResults ==> Heard(operationSerial, t, earlyResults[t]) in heard)
      && (completion.Some? && completion.value.succeeded ==>
         Heard(operationSerial, operationToken, completion.value) in heard)
    }

    // The operation's side.
    ghost predicate Operating()
      reads this`applyPending, this`operationToken, this`completion, this`timeoutArmed, this`operationSerial,
            this`reports, this`earlyResults, this`heard, this`named
    {
      && Truthful()
      && (named ==> Reported())
      && (applyPending ==> operationToken == "" && completion.None?)
    }

    ghost predicate Answered()
      reads this`calls, this`nextCall, this`requests, this`answers, this`wanted, this`unique
    {
      Ledger(calls, nextCall, requests, answers, wanted, unique)
    }

    // The count of calls that the present owner has yet to reply to.
    ghost predicate Counted()
      reads this`calls, this`serviceEpoch, this`requestsInFlight
    {
      requestsInFlight == |InFlight(calls, serviceEpoch)| && NotAhead(calls, serviceEpoch)
    }

    ghost predicate Valid()
      reads this
    {
      Operating() && Answered() && Counted()
    }

    // ----- Operations -----

    method Refresh()
      modifies this`refreshSerial, this`state
      ensures refreshSerial == old(refreshSerial) + 1
      ensures state == if owner == "" then UNKNOWN else old(state)
    {
      refreshSerial := refreshSerial + 1;
      if owner == "" {
        state := UNKNOWN;
      }
    }

    method Apply() returns (accepted: bool)
      requires Valid()
      modifies this`applyPending, this`operationToken, this`earlyResults, this`timeoutArmed, this`operationSerial,
               this`nextCall, this`calls, this`wanted, this`requestsInFlight
      ensures Valid()
      ensures accepted <==> owner != "" && state.instanceId != "" &&
                            !old(applyPending || operationToken != "" || completion.Some?)
      ensures accepted ==> applyPending && operationSerial == old(operationSerial) + 1 && earlyResults == map[]
      ensures accepted ==>
                nextCall !in old(calls) && calls == old(calls)[nextCall := ApplyCall(serviceEpoch, operationSerial)]
      ensures !accepted ==> operationSerial == old(operationSerial) && calls == old(calls)
    {
      hide Ledger, InFlight;
      if !Available() || Pending() {
        return false;
      }
      applyPending := true;
      operationToken := "";
      earlyResults := map[];
      timeoutArmed := true;
      operationSerial := operationSerial + 1;
      NewCall(ApplyCall(serviceEpoch, operationSerial));
      return true;
    }

    method NewCall(call: Call)
      requires Answered() && Counted() && call.epoch == serviceEpoch
      modifies this`nextCall, this`calls, this`wanted, this`requestsInFlight
      ensures Answered() && Counted()
      ensures nextCall == old(nextCall) + 1 && nextCall !in old(calls) && calls == old(calls)[nextCall := call]
      ensures requestsInFlight == old(requestsInFlight) + if call.RequestCall? then 1 else 0
      ensures wanted == if Wanted(call) then old(wanted) + {nextCall} else old(wanted)
    {
      hide Ledger, InFlight;
      CallSent(calls, nextCall, call, requests, answers, wanted, unique);
      nextCall := nextCall + 1;
      InFlightSent(calls, nextCall, call, serviceEpoch);
      calls := calls[nextCall := call];
      if Wanted(call) {
        wanted := wanted + {nextCall};
      }
      if call.RequestCall? {
        requestsInFlight := requestsInFlight + 1;
      }
    }

    // Reports the end of the latest operation.
    method FinishOperation(token: string, result: OperationResult)
      requires Truthful() && (named ==> Reported() && Pending())
      requires result.succeeded ==> AtOrPast(state, result) && Heard(operationSerial, token, result) in heard
      modifies this`applyPending, this`operationToken, this`earlyResults, this`completion, this`timeoutArmed,
               this`reports
      ensures Operating() && !Pending()
      ensures reports == old(reports) + [Report(operationSerial, token, result, state)]
    {
      applyPending := false;
      operationToken := "";
      earlyResults := map[];
      completion := None;
      timeoutArmed := false;
      reports := reports + [Report(operationSerial, token, result, state)];
    }

    // The result is known; it is reported once the cached state has it.
    method QueueCompletion(token: string, result: OperationResult)
      modifies this`operationToken, this`completion, this`refreshSerial, this`state
      ensures operationToken == token && completion == Some(result) && refreshSerial == old(refreshSerial) + 1
      ensures state == if owner == "" then UNKNOWN else old(state)
    {
      operationToken := token;
      completion := Some(result);
      Refresh();
    }

    method CompleteIfCurrent()
      requires Operating()
      modifies this`applyPending, this`operationToken, this`earlyResults, this`completion, this`timeoutArmed,
               this`reports
      ensures Operating()
      ensures if old(completion).Some? && AtOrPast(state, old(completion).value)
              then !Pending() && reports == old(reports)
                + [Report(operationSerial, old(operationToken), old(completion).value, state)]
              else reports == old(reports) && Pending() == old(Pending())
    {
      if completion.None? {
        return;
      }
      var result := completion.value;
      if result.generation != 0
         && (state.generation < result.generation
             || (state.generation == result.generation && state.revision < result.revision)) {
        return;
      }
      FinishOperation(operationToken, result);
    }

    // ----- Handlers -----

    /** The reply to a call that started an operation. The operation stays pending exactly
        when the compositor named it, or its result is queued. */
    method ApplyReply(id: nat, reply: Option<string>)
      requires Valid() && id in calls && calls[id].ApplyCall?
      modifies this
      ensures Valid() && operationSerial == old(operationSerial) && reports == old(reports) && answers == old(answers)
      ensures calls == old(calls) - {id} && serviceEpoch == old(serviceEpoch)
      ensures var current := old(calls[id]) == ApplyCall(serviceEpoch, operationSerial) && old(applyPending);
              if !current then named == old(named) && operationToken == old(operationToken)
                && completion == old(completion)
              else if reply.None? then named == old(named) && operationToken == "" && completion == Some(FAILURE)
              else
                && operationToken == reply.value && !applyPending
                && completion == (if reply.value in old(earlyResults) then Some(old(earlyResults)[reply.value])
                   else None)
                && (Pending() <==> reply.value != "" || reply.value in old(earlyResults))
                && named == (old(named) && Pending())
      ensures owner == old(owner) && (state == old(state) || owner == "") && (old(named) ==> (named <==> Reported()))
    {
      hide Ledger, InFlight;
      var call := EndCall(id);
      if call.epoch != serviceEpoch || call.operation != operationSerial || !applyPending {
        return;
      }
      OperationNamed(reply);
    }

    method OperationNamed(reply: Option<string>)
      requires Operating() && applyPending
      modifies this`applyPending, this`operationToken, this`completion, this`earlyResults, this`refreshSerial,
               this`state, this`named
      ensures Operating()
      ensures if reply.None? then named == old(named) && operationToken == "" && completion == Some(FAILURE)
              else
                && operationToken == reply.value && !applyPending
                && completion == (if reply.value in old(earlyResults) then Some(old(earlyResults)[reply.value])
                   else None)
                && (Pending() <==> reply.value != "" || reply.value in old(earlyResults))
                && named == (old(named) && Pending())
      ensures old(named) ==> (named <==> Reported())
      ensures state == old(state) || owner == ""
    {
      applyPending := false;
      if reply.None? {
        QueueCompletion("", FAILURE);
        return;
      }
      var token := reply.value;
      operationToken := token;
      if token in earlyResults {
        QueueCompletion(token, earlyResults[token]);
      } else {
        named := named && token != "";
      }
      earlyResults := map[];
    }

    // Takes a call out of the table. Its sender wants nothing, or is told nothing here.
    method EndCall(id: nat) returns (call: Call)
      requires Answered() && Counted() && id in calls && !Wanted(calls[id])
      modifies this`calls, this`requestsInFlight
      ensures Answered() && Counted()
      ensures call == old(calls)[id] && calls == old(calls) - {id}
    {
      hide Ledger, InFlight;
      call := calls[id];
      CallAnswered(calls, nextCall, id, Answer(id, false, 0), requests, answers, wanted, unique);
      DropCall(id);
    }

    /** The compositor tells the end of an operation or a request. A request that waits for it
        is answered; one whose reply is still to come will find it. */
    method OperationFinishedSignal(token: string, result: OperationResult)
      requires Valid()
      modifies this
      ensures Valid() && calls == old(calls) && operationSerial == old(operationSerial) && reports == old(reports)
      ensures answers == if token in old(requests) then old(answers) + [AnswerOf(old(requests)[token], result)]
              else old(answers)
      ensures requests == old(requests) - {token} && requestsInFlight == old(requestsInFlight)
              && serviceEpoch == old(serviceEpoch)
      ensures earlyRequestResults ==
              if token !in old(requests) && requestsInFlight != 0 then old(earlyRequestResults)[token := result]
                else old(earlyRequestResults)
      ensures earlyResults == if old(applyPending) then old(earlyResults)[token := result] else old(earlyResults)
      ensures completion == if !old(applyPending) && token == old(operationToken) then Some(result) else old(completion)
      ensures named == (old(named) && (token != "" || old(Pending())))
      ensures owner == old(owner) && (state == old(state) || owner == "") && refreshSerial > old(refreshSerial)
      ensures applyPending == old(applyPending) && operationToken == old(operationToken)
      ensures old(named) ==> (named <==> Reported())
    {
      hide Ledger, InFlight, Operating, Truthful, Reported, Answered, Counted, NotAhead, Pending, AnswerOf;
      RequestFinished(token, result);
      ResultHeard(token, result);
    }

    // What it means to the latest operation; in any case the state is asked for.
    method ResultHeard(token: string, result: OperationResult)
      requires Operating()
      modifies this`operationToken, this`completion, this`earlyResults, this`refreshSerial, this`state, this`named,
               this`heard
      ensures Operating()
      ensures earlyResults == if applyPending then old(earlyResults)[token := result] else old(earlyResults)
      ensures completion == if !applyPending && token == old(operationToken) then Some(result) else old(completion)
      ensures named == (old(named) && (token != "" || old(Pending()))) && (old(named) ==> (named <==> Reported()))
      ensures refreshSerial > old(refreshSerial) && operationToken == old(operationToken)
      ensures state == old(state) || owner == ""
    {
      hide Operating, Reported, Pending;
      TakeResult(token, result);
      Refresh();
    }

    method TakeResult(token: string, result: OperationResult)
      requires Operating()
      modifies this`operationToken, this`completion, this`earlyResults, this`refreshSerial, this`state, this`named,
               this`heard
      ensures Operating()
      ensures earlyResults == if applyPending then old(earlyResults)[token := result] else old(earlyResults)
      ensures completion == if !applyPending && token == old(operationToken) then Some(result) else old(completion)
      ensures named == (old(named) && (token != "" || old(Pending()))) && (old(named) ==> (named <==> Reported()))
      ensures refreshSerial >= old(refreshSerial) && operationToken == old(operationToken)
      ensures state == old(state) || owner == ""
    {
      heard := heard + {Heard(operationSerial, token, result)};
      named := named && (token != "" || Pending());
      if applyPending {
        earlyResults := earlyResults[token := result];
      } else if token == operationToken {
        QueueCompletion(token, result);
      }
      assert Pending() == old(Pending()) || !named;
    }

    method RequestFinished(token: string, result: OperationResult)
      requires Answered()
      modifies this`requests, this`answers, this`earlyRequestResults
      ensures Answered()
      ensures answers == if token in old(requests) then old(answers) + [AnswerOf(old(requests)[token], result)]
              else old(answers)
      ensures requests == old(requests) - {token}
      ensures earlyRequestResults ==
              if token !in old(requests) && requestsInFlight != 0 then old(earlyRequestResults)[token := result]
                else old(earlyRequestResults)
    {
      hide Ledger;
      assert requests - {token} == requests || token in requests;
      if token in requests {
        var answer := AnswerOf(requests[token], result);
        ResultArrived(calls, nextCall, token, answer, requests, answers, wanted, unique);
        requests := requests - {token};
        answers := answers + [answer];
      } else if requestsInFlight != 0 {
        earlyRequestResults := earlyRequestResults[token := result];
      }
    }

    /** The compositor's state, or nothing when it could not be read. Only the newest question
        counts; a queued result is reported as soon as the state has it, and a failure at once. */
    method StateReply(serial: nat, reply: Option<State>)
      requires Valid()
      modifies this
      ensures Valid() && answers == old(answers) && operationSerial == old(operationSerial)
      ensures serial != old(refreshSerial) ==>
                state == old(state) && reports == old(reports) && Pending() == old(Pending())
      ensures serial == old(refreshSerial) ==> state == if reply.Some? then reply.value else UNKNOWN
      ensures serial == old(refreshSerial) && reply.None? ==>
                && !Pending()
                && (old(Pending()) ==>
                      reports == old(reports) + [Report(operationSerial, old(operationToken), FAILURE, UNKNOWN)])
      ensures serial == old(refreshSerial) && reply.Some? ==>
                if old(completion).Some? && AtOrPast(state, old(completion).value)
                then !Pending() && reports == old(reports)
                  + [Report(operationSerial, old(operationToken), old(completion).value, state)]
                else reports == old(reports) && Pending() == old(Pending())
      ensures owner == old(owner) && named == old(named)
      ensures serial != old(refreshSerial) ==>
                && refreshSerial == old(refreshSerial) && completion == old(completion)
                   && applyPending == old(applyPending)
                && operationToken == old(operationToken) && operationSerial == old(operationSerial)
      ensures !Pending() && old(!Pending()) ==> operationToken == ""
    {
      hide Ledger, InFlight;
      if serial != refreshSerial {
        return;
      }
      if reply.None? {
        state := UNKNOWN;
        AbandonOperation();
        return;
      }
      state := reply.value;
      CompleteIfCurrent();
    }

    // The timer of the latest operation runs out.
    method Timeout()
      requires Valid() && timeoutArmed
      modifies this
      ensures Valid() && !Pending() && answers == old(answers)
      ensures reports == old(reports) + [Report(operationSerial, old(operationToken), FAILURE, old(state))]
    {
      hide Ledger, InFlight;
      FinishOperation(operationToken, FAILURE);
      Refresh();
    }

    // The name of the service changed hands, or a watch says so once more.
    method OwnerChanged(newOwner: string)
      requires Valid()
      modifies this
      ensures Valid() && owner == newOwner
      ensures newOwner == old(owner) ==>
                reports == old(reports) && answers == old(answers) && Pending() == old(Pending())
      ensures newOwner != old(owner) ==> !Pending() && state == UNKNOWN && requests == map[]
    {
      hide Operating, Answered, Counted;
      if newOwner != owner {
        ServiceChanged(newOwner);
        Refresh();
      }
    }

    /** Another compositor, or none: what the last one left open fails. */
    method ServiceChanged(newOwner: string)
      requires Valid()
      modifies this
      ensures Valid() && owner == newOwner && state == UNKNOWN && !Pending()
      ensures requests == map[] && requestsInFlight == 0 && serviceEpoch == old(serviceEpoch) + 1
      ensures forall token :: token in old(requests) ==> WasAnswered(answers, old(requests)[token])
      ensures reports == if old(Pending()) then old(reports)
              + [Report(operationSerial, old(operationToken), FAILURE, UNKNOWN)] else old(reports)
    {
      assert NotAhead(calls, serviceEpoch);
      hide *;
      StartEpoch(newOwner);
      FailRequests();
    }

    // The operation under way fails with the old owner.
    method StartEpoch(newOwner: string)
      requires Operating()
      modifies this`owner, this`refreshSerial, this`serviceEpoch, this`state
      modifies this`applyPending, this`operationToken, this`earlyResults, this`completion, this`timeoutArmed,
               this`reports
      ensures owner == newOwner && serviceEpoch == old(serviceEpoch) + 1 && state == UNKNOWN
      ensures Operating() && !Pending()
      ensures reports == if old(Pending()) then old(reports)
              + [Report(operationSerial, old(operationToken), FAILURE, UNKNOWN)] else old(reports)
    {
      hide Operating;
      owner := newOwner;
      refreshSerial := refreshSerial + 1;
      serviceEpoch := serviceEpoch + 1;
      state := UNKNOWN;
      AbandonOperation();
    }

    method AbandonOperation()
      requires Operating()
      modifies this`applyPending, this`operationToken, this`earlyResults, this`completion, this`timeoutArmed,
               this`reports
      ensures Operating() && !Pending()
      ensures reports == if old(Pending()) then old(reports)
              + [Report(operationSerial, old(operationToken), FAILURE, state)] else old(reports)
    {
      if Pending() {
        FinishOperation(operationToken, FAILURE);
      }
    }

    method FailRequests()
      requires Answered() && serviceEpoch > 0 && NotAhead(calls, serviceEpoch - 1)
      modifies this`requests, this`requestsInFlight, this`earlyRequestResults, this`answers
      ensures Answered() && Counted() && requests == map[] && requestsInFlight == 0
      ensures forall token :: token in old(requests) ==> WasAnswered(answers, old(requests)[token])
    {
      hide Ledger;
      requestsInFlight := 0;
      assert InFlight(calls, serviceEpoch) == {};
      earlyRequestResults := map[];
      while requests != map[]
        invariant Answered() && Counted()
        invariant forall token :: token in old(requests) ==>
                    if token in requests then requests[token] == old(requests)[token]
                      else WasAnswered(answers, old(requests)[token])
        invariant forall token :: token in requests ==> token in old(requests)
        decreases requests.Keys
      {
        var token :| token in requests;
        var answer := Answer(requests[token], false, UNAVAILABLE);
        ResultArrived(calls, nextCall, token, answer, requests, answers, wanted, unique);
        AnsweredMore(answers, answer);
        requests := requests - {token};
        answers := answers + [answer];
      }
    }

    // Sends a request, where there is a compositor; the sender may not want the answer.
    method SendRequest(wants: bool) returns (sent: bool, id: nat)
      requires Valid()
      modifies this
      ensures Valid() && answers == old(answers) && reports == old(reports) && requests == old(requests)
      ensures sent <==> owner != ""
      ensures sent ==> id !in old(calls) && calls == old(calls)[id := RequestCall(serviceEpoch, wants)]
      ensures sent ==> requestsInFlight == old(requestsInFlight) + 1
    {
      hide Ledger, InFlight;
      id := 0;
      if owner == "" {
        return false, id;
      }
      NewCall(RequestCall(serviceEpoch, wants));
      return true, nextCall;
    }

    /** The reply to a request, which names its token. A result that came first is used now;
        a reply from an earlier owner ends the request. */
    method RequestReply(id: nat, reply: Option<string>)
      requires Valid() && id in calls && calls[id].RequestCall?
      modifies this`calls, this`requestsInFlight, this`requests, this`earlyRequestResults, this`answers, this`unique
      ensures Valid() && calls == old(calls) - {id}
      ensures var call := old(calls)[id];
              if !call.wanted then answers == old(answers) && requests == old(requests)
              else if call.epoch != serviceEpoch || reply.None?
              then answers == old(answers) + [Answer(id, false, UNAVAILABLE)] && requests == old(requests)
              else if reply.value in old(earlyRequestResults)
              then answers == old(answers) + [AnswerOf(id, old(earlyRequestResults)[reply.value])]
                && requests == old(requests)
              else
                && answers == old(answers) && requests == old(requests)[reply.value := id]
                && unique == (old(unique) && reply.value !in old(requests))
    {
      hide Ledger, InFlight;
      var call := calls[id];
      var early: Option<OperationResult> := None;
      if call.epoch == serviceEpoch {
        if reply.Some? && reply.value in earlyRequestResults {
          early := Some(earlyRequestResults[reply.value]);
          earlyRequestResults := earlyRequestResults - {reply.value};
        }
        if requestsInFlight == 1 {
          earlyRequestResults := map[];
        }
      }
      if !call.wanted {
        call := EndCall(id);
      } else if call.epoch != serviceEpoch || reply.None? {
        EndWith(id, Answer(id, false, UNAVAILABLE));
      } else if early.Some? {
        EndWith(id, AnswerOf(id, early.value));
      } else {
        EndNamed(id, reply.value);
      }
    }

    method EndWith(id: nat, answer: Answer)
      requires Answered() && Counted() && id in calls && calls[id].RequestCall? && answer.request == id
      modifies this`calls, this`requestsInFlight, this`answers
      ensures Answered() && Counted() && calls == old(calls) - {id} && answers == old(answers) + [answer]
    {
      hide Ledger, InFlight;
      CallAnswered(calls, nextCall, id, answer, requests, answers, wanted, unique);
      answers := answers + [answer];
      DropCall(id);
    }

    method EndNamed(id: nat, token: string)
      requires Answered() && Counted() && id in calls && calls[id].RequestCall?
      modifies this`calls, this`requestsInFlight, this`requests, this`unique
      ensures Answered() && Counted() && calls == old(calls) - {id} && requests == old(requests)[token := id]
      ensures unique == (old(unique) && token !in old(requests))
    {
      hide Ledger, InFlight;
      CallNamed(calls, nextCall, id, token, requests, answers, wanted, unique);
      unique := unique && token !in requests;
      requests := requests[token := id];
      DropCall(id);
    }

    method DropCall(id: nat)
      requires Counted() && id in calls
      modifies this`calls, this`requestsInFlight
      ensures Counted() && calls == old(calls) - {id}
    {
      hide InFlight;
      InFlightReplied(calls, id, serviceEpoch);
      if calls[id].RequestCall? && calls[id].epoch == serviceEpoch {
        requestsInFlight := requestsInFlight - 1;
      }
      calls := calls - {id};
    }

    // ----- Either order -----

    /** A request's result and its reply may come in either order: the sender gets the result,
        right away with the later of the two. */
    method ReplyAndResult(id: nat, token: string, result: OperationResult, replyFirst: bool)
      requires Valid() && id in calls && calls[id] == RequestCall(serviceEpoch, true)
      requires token !in requests && token !in earlyRequestResults
      modifies this
      ensures Valid() && answers == old(answers) + [AnswerOf(id, result)] && requests == old(requests)
    {
      hide Ledger;
      assert id in InFlight(calls, serviceEpoch);
      if replyFirst {
        RequestReply(id, Some(token));
        OperationFinishedSignal(token, result);
      } else {
        OperationFinishedSignal(token, result);
        RequestReply(id, Some(token));
      }
    }

    /** The result of the latest operation, and then a reply to a question from before it and one
        to the question that the result gave rise to: only the latter counts, and it brings the
        report exactly when the state in it has the result. */
    method ResultThenState(token: string, result: OperationResult, earlier: nat, stale: Option<State>, reply: State)
      requires Valid() && !applyPending && token == operationToken != "" && earlier <= refreshSerial
      modifies this
      ensures Valid()
      ensures if AtOrPast(reply, result)
              then !Pending() && reports == old(reports) + [Report(operationSerial, token, result, reply)]
              else Pending() && reports == old(reports)
    {
      hide Ledger, InFlight, Operating, Answered, Counted;
      OperationFinishedSignal(token, result);
      StateReply(earlier, stale);
      StateReply(refreshSerial, Some(reply));
    }
  }

  // One operation from start to report.
  method ReportedOnce(known: State, result: OperationResult) returns (client: DisplayClient)
    requires known.instanceId != "" && AtOrPast(known, result)
    ensures fresh(client) && client.Valid() && !client.Pending() && client.operationToken == "" && !client.applyPending
    ensures |client.reports| == 1 && client.reports[0].operation == 1 == client.operationSerial
  {
    hide Ledger, InFlight;
    client := new DisplayClient(":1.5");
    client.StateReply(client.refreshSerial, Some(known));
    var accepted := client.Apply();
    client.ApplyReply(client.nextCall, Some("token"));
    client.OperationFinishedSignal("token", result);
    client.StateReply(client.refreshSerial, Some(known));
  }

  /** An empty token can bring the report of an operation twice: where nothing is pending, it is
      taken for that of the latest operation. */
  method ReportedTwice() returns (client: DisplayClient)
    ensures client.Valid() && !client.named
    ensures |client.reports| == 2 && client.reports[0].operation == client.reports[1].operation == 1
  {
    hide Ledger, InFlight;
    var known, result := State("compositor", 1, 1), OperationResult(true, false, 0, 0, 0);
    client := ReportedOnce(known, result);
    client.OperationFinishedSignal("", result);
    client.StateReply(client.refreshSerial, Some(known));
  }
}
