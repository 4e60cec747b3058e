/** Mounting, unlocking and ejecting volumes: chains of UDisks calls, each sent when the one
    before it succeeded. */
module VolumeChains {

  datatype Method = Mount | Unmount | Lock | Unlock | Eject | PowerOff

  // A call to come. Mounting what an unlock opens has no path yet.
  datatype Step = Step(path: string, call: Method)

  datatype Volume = Volume(id: string, drive: string, filesystem: bool, mounted: bool, encrypted: bool,
                           cleartext: string, ejectable: bool, canPowerOff: bool)
  {
    predicate Locked() {
      encrypted && cleartext == ""
    }

    // An encrypted volume's filesystem is on the block that unlocking makes.
    function FilesystemPath(): string {
      if encrypted then cleartext else id
    }
  }

  const NO_VOLUME := Volume("", "", false, false, false, "", false, false)

  datatype Operation = Mounting | Unmounting | Unlocking | Ejecting

  datatype Ending = Finished | Failed | PassphraseRejected

  // ----- What an eject has to do -----

  function Releases(v: Volume): seq<Step> {
    (if v.mounted then [Step(v.FilesystemPath(), Unmount)] else [])
    + (if v.encrypted && !v.Locked() then [Step(v.id, Lock)] else [])
  }

  // Everything that keeps the drive's volumes in use, in the order of the volumes.
  function ReleasesOf(volumes: seq<Volume>, drive: string): seq<Step> {
    if volumes == [] then []
    else
      var last := volumes[|volumes| - 1];
      ReleasesOf(volumes[..|volumes| - 1], drive) + if last.drive == drive then Releases(last) else []
  }

  predicate IsRelease(step: Step) {
    step.call == Unmount || step.call == Lock
  }

  // What is to be released of a volume: its filesystem, which of an encrypted one is on the block
  // that unlocking made, and then what unlocking opened.
  ghost predicate IsReleased(v: Volume, steps: seq<Step>) {
    && (v.mounted && !v.encrypted ==> Step(v.id, Unmount) in steps)
    && (v.mounted && v.encrypted ==> Step(v.cleartext, Unmount) in steps)
    && (v.encrypted && v.cleartext != "" ==> Step(v.id, Lock) in steps)
    && (v.mounted && v.encrypted && v.cleartext != "" ==>
          exists i, j :: 0 <= i < j < |steps| && steps[i] == Step(v.cleartext, Unmount) && steps[j] == Step(v.id, Lock))
  }

  lemma IsReleasedStill(v: Volume, steps: seq<Step>, more: seq<Step>)
    requires IsReleased(v, steps)
    ensures IsReleased(v, steps + more)
  {
    if v.mounted && v.encrypted && v.cleartext != "" {
      var i, j :| 0 <= i < j < |steps| && steps[i] == Step(v.cleartext, Unmount) && steps[j] == Step(v.id, Lock);
      assert (steps + more)[i] == steps[i] && (steps + more)[j] == steps[j];
    }
  }

  lemma IsReleasedNow(v: Volume, before: seq<Step>)
    ensures IsReleased(v, before + Releases(v))
  {
    var steps := before + Releases(v);
    if v.mounted {
      assert steps[|before|] == Step(if v.encrypted then v.cleartext else v.id, Unmount);
    }
    if v.encrypted && v.cleartext != "" {
      assert steps[|steps| - 1] == Step(v.id, Lock);
    }
  }

  /** The drive's volumes are all released, and each is unmounted before it is locked. */
  lemma {:induction false} DriveIsReleased(volumes: seq<Volume>, drive: string, k: nat)
    requires k < |volumes| && volumes[k].drive == drive
    ensures IsReleased(volumes[k], ReleasesOf(volumes, drive))
    decreases |volumes|
  {
    hide IsReleased, Releases;
    var rest, last := volumes[..|volumes| - 1], volumes[|volumes| - 1];
    var before := ReleasesOf(rest, drive);
    if k < |volumes| - 1 {
      DriveIsReleased(rest, drive, k);
      IsReleasedStill(volumes[k], before, if last.drive == drive then Releases(last) else []);
    } else {
      IsReleasedNow(last, before);
    }
  }

  // Releasing a volume asks for this step.
  predicate NeededFor(v: Volume, step: Step) {
    || (v.mounted && step == Step(if v.encrypted then v.cleartext else v.id, Unmount))
    || (v.encrypted && v.cleartext != "" && step == Step(v.id, Lock))
  }

  /** Nothing else is done: each step is needed for a volume of the drive. */
  lemma {:induction false} NothingElseReleased(volumes: seq<Volume>, drive: string, i: nat)
    requires i < |ReleasesOf(volumes, drive)|
    ensures exists k :: 0 <= k < |volumes| && volumes[k].drive == drive
                        && NeededFor(volumes[k], ReleasesOf(volumes, drive)[i])
    decreases |volumes|
  {
    hide NeededFor;
    var rest, last := volumes[..|volumes| - 1], volumes[|volumes| - 1];
    var before := ReleasesOf(rest, drive);
    if i < |before| {
      NothingElseReleased(rest, drive, i);
      var k :| 0 <= k < |rest| && rest[k].drive == drive && NeededFor(rest[k], before[i]);
      assert volumes[k] == rest[k];
    } else {
      ReleaseIsNeeded(last, i - |before|);
      assert volumes[|volumes| - 1] == last;
    }
  }

  lemma ReleaseIsNeeded(v: Volume, i: nat)
    requires i < |Releases(v)|
    ensures NeededFor(v, Releases(v)[i])
  {
  }

  lemma {:induction false} OnlyReleases(volumes: seq<Volume>, drive: string)
    ensures forall step :: step in ReleasesOf(volumes, drive) ==> IsRelease(step)
    decreases |volumes|
  {
    if volumes != [] {
      OnlyReleases(volumes[..|volumes| - 1], drive);
    }
  }

  function EjectSteps(volumes: seq<Volume>, v: Volume): seq<Step> {
    ReleasesOf(volumes, v.drive)
    + if v.ejectable || v.canPowerOff then [Step(v.drive, if v.ejectable then Eject else PowerOff)] else []
  }

  // ----- Chains -----

  // A chain whose call for `step` is in flight.
  datatype Chain = Chain(serial: nat, id: string, operation: Operation, step: Step, remaining: seq<Step>,
      generation: nat)

  // A call that was sent, with what the chain had done by then.
  datatype Sent = Sent(serial: nat, step: Step, after: seq<Step>)

  datatype Outcome = Outcome(serial: nat, ending: Ending)

  // The pending ids are those of the chains, one chain each.
  ghost predicate Tracked(chains: map<nat, Chain>, pending: set<string>) {
    && (forall k :: k in chains ==> chains[k].id in pending)
    && (forall id :: id in pending ==> HasChain(chains, id))
    && (forall j, k :: j in chains && k in chains && j != k ==>
       chains[j].id != chains[k].id && chains[j].serial != chains[k].serial)
  }

  ghost predicate HasChain(chains: map<nat, Chain>, id: string) {
    exists k :: k in chains && chains[k].id == id
  }

  ghost predicate HasSerial(chains: map<nat, Chain>, serial: nat) {
    exists k :: k in chains && chains[k].serial == serial
  }

  ghost predicate Ended(outcomes: seq<Outcome>, serial: nat) {
    exists k :: 0 <= k < |outcomes| && outcomes[k].serial == serial
  }

  // Every operation accepted so far is live or ended, and ended once.
  ghost predicate Accounted(chains: map<nat, Chain>, serials: nat, outcomes: seq<Outcome>) {
    && (forall s: nat :: HasSerial(chains, s) || Ended(outcomes, s) <==> s < serials)
    && (forall s: nat :: HasSerial(chains, s) ==> !Ended(outcomes, s))
    && (forall j, k :: 0 <= j < k < |outcomes| ==> outcomes[j].serial != outcomes[k].serial)
  }

  // What was sent follows the plans, each call after the success of all before it; what
  // finished has done it all.
  ghost predicate Followed(chains: map<nat, Chain>, plans: seq<seq<Step>>, succeeded: seq<seq<Step>>,
                           sent: seq<Sent>, outcomes: seq<Outcome>) {
    && |plans| == |succeeded|
    && (forall k :: k in chains ==>
          var s := chains[k].serial;
          s < |plans| && plans[s] == succeeded[s] + [chains[k].step] + chains[k].remaining)
    && (forall k :: 0 <= k < |sent| ==>
          && sent[k].serial < |plans|
          && sent[k].after + [sent[k].step] <= plans[sent[k].serial]
          && sent[k].after <= succeeded[sent[k].serial])
    && (forall k :: 0 <= k < |outcomes| && outcomes[k].ending.Finished? ==>
          outcomes[k].serial < |plans| && succeeded[outcomes[k].serial] == plans[outcomes[k].serial])
  }

  // ----- Steps -----

  lemma NothingYet()
    ensures Tracked(map[], {}) && Accounted(map[], 0, []) && Followed(map[], [], [], [], [])
  {
  }

  lemma ChainStarted(chains: map<nat, Chain>, k: nat, chain: Chain, pending: set<string>, serials: nat,
      outcomes: seq<Outcome>)
    requires Tracked(chains, pending) && Accounted(chains, serials, outcomes)
    requires k !in chains && chain.id !in pending && chain.serial == serials
    ensures Tracked(chains[k := chain], pending + {chain.id}) && Accounted(chains[k := chain], serials + 1, outcomes)
  {
    var more := chains[k := chain];
    assert more[k] == chain;
    forall id | id in pending
      ensures HasChain(more, id)
    {
      var j :| j in chains && chains[j].id == id;
      assert more[j] == chains[j];
    }
    forall s: nat
      ensures HasSerial(more, s) <==> HasSerial(chains, s) || s == serials
    {
      if j :| j in chains && chains[j].serial == s {
        assert more[j] == chains[j];
      }
    }
    forall j | j in chains
      ensures chains[j].serial < serials
    {
      assert HasSerial(chains, chains[j].serial);
    }
  }

  // The next call of a chain takes the place of the one that was answered.
  lemma ChainContinued(chains: map<nat, Chain>, j: nat, k: nat, chain: Chain, pending: set<string>, serials: nat,
      outcomes: seq<Outcome>)
    requires Tracked(chains, pending) && Accounted(chains, serials, outcomes)
    requires j in chains && k !in chains && chain.id == chains[j].id && chain.serial == chains[j].serial
    ensures var now := (chains - {j})[k := chain]; Tracked(now, pending) && Accounted(now, serials, outcomes)
  {
    var now := (chains - {j})[k := chain];
    assert now[k] == chain;
    forall id | id in pending
      ensures HasChain(now, id)
    {
      var i :| i in chains && chains[i].id == id;
      if i != j {
        assert now[i] == chains[i];
      }
    }
    forall s: nat
      ensures HasSerial(now, s) <==> HasSerial(chains, s)
    {
      if i :| i in chains && chains[i].serial == s && i != j {
        assert now[i] == chains[i];
      }
    }
  }

  lemma ChainEnded(chains: map<nat, Chain>, j: nat, ending: Ending, pending: set<string>, serials: nat,
      outcomes: seq<Outcome>)
    requires Tracked(chains, pending) && Accounted(chains, serials, outcomes) && j in chains
    ensures Tracked(chains - {j}, pending - {chains[j].id})
    ensures Accounted(chains - {j}, serials, outcomes + [Outcome(chains[j].serial, ending)])
  {
    var less, more, serial := chains - {j}, outcomes + [Outcome(chains[j].serial, ending)], chains[j].serial;
    forall id | id in pending && id != chains[j].id
      ensures HasChain(less, id)
    {
      var i :| i in chains && chains[i].id == id;
      assert less[i] == chains[i];
    }
    assert HasSerial(chains, serial);
    forall s: nat
      ensures HasSerial(less, s) <==> HasSerial(chains, s) && s != serial
      ensures Ended(more, s) <==> Ended(outcomes, s) || s == serial
    {
      if i :| i in chains && chains[i].serial == s && i != j {
        assert less[i] == chains[i];
      }
      if i :| 0 <= i < |outcomes| && outcomes[i].serial == s {
        assert more[i] == outcomes[i];
      }
      assert more[|outcomes|].serial == serial;
    }
    forall i | 0 <= i < |outcomes|
      ensures outcomes[i].serial != serial
    {
      assert Ended(outcomes, outcomes[i].serial);
    }
  }

  // The step of a chain succeeded; the next one is sent, at the path that an unlock told.
  lemma StepSucceeded(chains: map<nat, Chain>, j: nat, k: nat, next: Step, plans: seq<seq<Step>>,
      succeeded: seq<seq<Step>>,
                      sent: seq<Sent>, pending: set<string>, serials: nat, outcomes: seq<Outcome>)
    requires Followed(chains, plans, succeeded, sent, outcomes)
    requires Tracked(chains, pending) && Accounted(chains, serials, outcomes)
    requires j in chains && k !in chains && chains[j].remaining != []
    ensures var c := chains[j];
            var done := succeeded[c.serial] + [c.step];
            Followed((chains - {j})[k := c.(step := next, remaining := c.remaining[1..])],
                     plans[c.serial := done + [next] + c.remaining[1..]], succeeded[c.serial := done],
                     sent + [Sent(c.serial, next, done)], outcomes)
  {
    var c := chains[j];
    var s, done := c.serial, succeeded[c.serial] + [c.step];
    var plan := done + [next] + c.remaining[1..];
    assert plans[s] == done + c.remaining;
    NotEnded(chains, j, serials, outcomes);
    forall i | 0 <= i < |sent| && sent[i].serial == s
      ensures sent[i].after + [sent[i].step] <= plan && sent[i].after <= done
    {
      SentBefore(sent[i], succeeded[s], c.step, c.remaining);
    }
    assert done + [next] <= plan;
  }

  // What was sent before is what was done by then and the step in flight.
  lemma SentBefore(one: Sent, done: seq<Step>, step: Step, remaining: seq<Step>)
    requires one.after <= done && one.after + [one.step] <= done + [step] + remaining
    ensures one.after + [one.step] <= done + [step] && one.after <= done + [step]
  {
    var n := |one.after|;
    assert (one.after + [one.step])[n] == (done + [step] + remaining)[n] == (done + [step])[n];
    assert (done + [step])[..n] == done[..n];
  }

  lemma NotEnded(chains: map<nat, Chain>, j: nat, serials: nat, outcomes: seq<Outcome>)
    requires Accounted(chains, serials, outcomes) && j in chains
    ensures forall i :: 0 <= i < |outcomes| ==> outcomes[i].serial != chains[j].serial
  {
    assert HasSerial(chains, chains[j].serial);
    forall i | 0 <= i < |outcomes|
      ensures outcomes[i].serial != chains[j].serial
    {
      assert Ended(outcomes, outcomes[i].serial);
    }
  }

  lemma PlanStarted(chains: map<nat, Chain>, k: nat, chain: Chain, plans: seq<seq<Step>>, succeeded: seq<seq<Step>>,
                    sent: seq<Sent>, outcomes: seq<Outcome>)
    requires Followed(chains, plans, succeeded, sent, outcomes)
    requires k !in chains && chain.serial == |plans|
    ensures Followed(chains[k := chain], plans + [[chain.step] + chain.remaining], succeeded + [[]],
                     sent + [Sent(chain.serial, chain.step, [])], outcomes)
  {
    assert [] + [chain.step] + chain.remaining == [chain.step] + chain.remaining;
    assert [] + [chain.step] == [chain.step];
  }

  // A chain ends: well, when its last step succeeded, or early.
  lemma PlanEnded(chains: map<nat, Chain>, j: nat, ending: Ending, plans: seq<seq<Step>>, succeeded: seq<seq<Step>>,
                  sent: seq<Sent>, pending: set<string>, serials: nat, outcomes: seq<Outcome>)
    requires Followed(chains, plans, succeeded, sent, outcomes)
    requires Tracked(chains, pending) && Accounted(chains, serials, outcomes)
    requires j in chains && (ending.Finished? ==> chains[j].remaining == [])
    ensures var c := chains[j];
            Followed(chains - {j}, plans,
              if ending.Finished? then succeeded[c.serial := succeeded[c.serial] + [c.step]] else succeeded,
                     sent, outcomes + [Outcome(c.serial, ending)])
  {
    var c := chains[j];
    NotEnded(chains, j, serials, outcomes);
    assert ending.Finished? ==> succeeded[c.serial] + [c.step] + [] == succeeded[c.serial] + [c.step];
  }

  function Lookup(volumes: seq<Volume>, id: string): (v: Volume)
    ensures v == NO_VOLUME || (v in volumes && v.id == id)
    ensures (exists other :: other in volumes && other.id == id) ==> v in volumes && v.id == id
  {
    if volumes == [] then NO_VOLUME
    else if volumes[0].id == id then volumes[0]
    else Lookup(volumes[1..], id)
  }

  // No operation is under way on the drive; "/" stands for none.
  predicate NoneOnDrive(pending: set<string>, volumes: seq<Volume>, drive: string) {
    drive == "" || drive == "/" || forall id :: id in pending ==> Lookup(volumes, id).drive != drive
  }

  // No pending volume is on the drive, where there is one.
  ghost predicate DriveIsFree(pending: set<string>, volumes: seq<Volume>, drive: string) {
    drive in {"", "/"} || !exists v :: v in volumes && v.id in pending && Lookup(volumes, v.id) == v && v.drive == drive
  }

  lemma NoneIsFree(pending: set<string>, volumes: seq<Volume>, drive: string)
    ensures NoneOnDrive(pending, volumes, drive) <==> DriveIsFree(pending, volumes, drive)
  {
    if id :| id in pending && Lookup(volumes, id).drive == drive && drive != "" {
      assert Lookup(volumes, id) in volumes;
    }
  }

  // The volume is there and can do it.
  predicate Supported(v: Volume, operation: Operation, steps: seq<Step>) {
    && v.id != "" && steps != []
    && match operation
       case Ejecting => v.ejectable || v.canPowerOff
       case Mounting => v.filesystem
       case Unmounting => v.filesystem || v.encrypted
       case Unlocking => v.encrypted
  }

  // Neither the volume nor another one of its drive is busy.
  predicate MayStart(volumes: seq<Volume>, pending: set<string>, id: string, operation: Operation, steps: seq<Step>) {
    var v := Lookup(volumes, id);
    Supported(v, operation, steps) && id !in pending && NoneOnDrive(pending, volumes, v.drive)
  }

  function UnmountSteps(v: Volume): seq<Step> {
    if v.encrypted then Releases(v) else [Step(v.id, Unmount)]
  }

  function EndingOf(c: Chain, ok: bool, rejected: bool): Ending {
    if ok then Finished else if c.step.call.Unlock? && rejected then PassphraseRejected else Failed
  }

  // The step that follows, at the path that an unlock told.
  function NextStep(c: Chain, path: string): Step
    requires c.remaining != []
  {
    var next := c.remaining[0];
    if c.step.call.Unlock? && next.path == "" then next.(path := path) else next
  }

  // What an operation was started for, with the volumes known at the time.
  datatype Goal = Goal(operation: Operation, id: string, known: seq<Volume>) {
    function Volume(): Volume {
      Lookup(known, id)
    }
  }

  // The plan is that of the operation; an unlock tells only later where to mount.
  predicate Serves(plan: seq<Step>, goal: Goal) {
    var v := goal.Volume();
    match goal.operation
    case Mounting => plan == [Step(v.FilesystemPath(), Mount)]
    case Unmounting => plan == UnmountSteps(v)
    case Unlocking => |plan| == 2 && plan[0] == Step(goal.id, Unlock) && plan[1].call == Mount
    case Ejecting => plan == EjectSteps(goal.known, v)
  }

  ghost predicate Purposed(plans: seq<seq<Step>>, goals: seq<Goal>) {
    |plans| == |goals| && forall s :: 0 <= s < |plans| ==> Serves(plans[s], goals[s])
  }

  // Only the last step of an eject is no release.
  lemma EjectEnds(volumes: seq<Volume>, v: Volume, i: nat)
    requires i < |EjectSteps(volumes, v)|
    ensures var plan := EjectSteps(volumes, v);
            if i < |ReleasesOf(volumes, v.drive)| then IsRelease(plan[i])
            else plan[i] == Step(v.drive, if v.ejectable then Eject else PowerOff)
  {
    OnlyReleases(volumes, v.drive);
    var releases := ReleasesOf(volumes, v.drive);
    if i < |releases| {
      assert EjectSteps(volumes, v)[i] == releases[i] && releases[i] in releases;
    }
  }

  lemma PurposeAdded(plans: seq<seq<Step>>, goals: seq<Goal>, plan: seq<Step>, goal: Goal)
    requires Purposed(plans, goals) && Serves(plan, goal)
    ensures Purposed(plans + [plan], goals + [goal])
  {
  }

  lemma OnlyUnlocksUnlock(plan: seq<Step>, goal: Goal, i: nat)
    requires Serves(plan, goal) && i < |plan|
    ensures plan[i].call == Unlock ==> goal.operation == Unlocking && i == 0
    ensures plan[i].call == Eject || plan[i].call == PowerOff ==> goal.operation == Ejecting
  {
    if goal.operation == Ejecting {
      EjectEnds(goal.known, goal.Volume(), i);
    }
  }

  // Only an unlock changes what is still to do: it tells the path of the mount.
  lemma PlanKept(plan: seq<Step>, goal: Goal, done: seq<Step>, c: Chain, path: string)
    requires Serves(plan, goal) && plan == done + [c.step] + c.remaining && c.remaining != []
    ensures var next := done + [c.step] + [NextStep(c, path)] + c.remaining[1..];
            Serves(next, goal) && (c.step.call != Unlock ==> next == plan)
  {
    var next := done + [c.step] + [NextStep(c, path)] + c.remaining[1..];
    assert plan[|done|] == c.step;
    OnlyUnlocksUnlock(plan, goal, |done|);
    if c.step.call != Unlock {
      assert next == plan;
    } else {
      assert next[0] == plan[0] && next[1] == NextStep(c, path) && plan[1] == c.remaining[0];
    }
  }

  /** A drive is ejected or powered off only for an eject of one of its volumes, and only after
      everything that was on it then had been released. */
  lemma EjectComesLast(chains: map<nat, Chain>, plans: seq<seq<Step>>, succeeded: seq<seq<Step>>, sent: seq<Sent>,
                       outcomes: seq<Outcome>, goals: seq<Goal>, k: nat)
    requires Followed(chains, plans, succeeded, sent, outcomes) && Purposed(plans, goals)
    requires k < |sent| && sent[k].step.call in {Eject, PowerOff}
    ensures sent[k].serial < |goals| == |succeeded|
    ensures var goal := goals[sent[k].serial];
            var v := goal.Volume();
            && goal.operation == Ejecting
            && sent[k].step == Step(v.drive, if v.ejectable then Eject else PowerOff)
            && sent[k].after == ReleasesOf(goal.known, v.drive) <= succeeded[sent[k].serial]
  {
    var one, goal := sent[k], goals[sent[k].serial];
    var v, plan := goal.Volume(), plans[one.serial];
    var i := |one.after|;
    assert (one.after + [one.step])[i] == one.step == plan[i];
    OnlyUnlocksUnlock(plan, goal, i);
    EjectEnds(goal.known, v, i);
    assert one.after == plan[..i] == ReleasesOf(goal.known, v.drive);
  }

  class VolumeManager {
    // In the order of their ids.
    var volumes: seq<Volume>
    var pending: set<string>
    var chains: map<nat, Chain>
    var nextCall: nat
    // How many operations were accepted; each has its number.
    var operations: nat
    var generation: nat
    var refreshing: bool
    var refreshAgain: bool
    var listingGeneration: nat
    // Of every operation accepted so far, by its serial.
    ghost var plans: seq<seq<Step>>
    ghost var succeeded: seq<seq<Step>>
    ghost var sent: seq<Sent>
    ghost var outcomes: seq<Outcome>
    ghost var goals: seq<Goal>
    // How often a listing was asked for, now and when the newest one was requested.
    ghost var asked: nat
    ghost var covered: nat

    constructor ()
      ensures Valid() && pending == {} && plans == [] && outcomes == []
    {
      NothingYet();
      hide Tracked, Accounted, Followed;
      volumes, pending, chains, nextCall, operations, generation := [], {}, map[], 0, 0, 0;
      refreshing, refreshAgain, listingGeneration, asked, covered := true, false, 0, 1, 1;
      plans, succeeded, sent, outcomes, goals := [], [], [], [], [];
    }

    ghost predicate Valid()
      reads this
    {
      && Tracked(chains, pending)
      && operations == |plans| && Accounted(chains, operations, outcomes)
      && Followed(chains, plans, succeeded, sent, outcomes) && Purposed(plans, goals)
      && (forall k :: k in chains ==> k < nextCall && chains[k].generation <= generation)
      && Coalesced()
    }

    // The newest listing was requested after all changes known by now, or another will be.
    ghost predicate Coalesced()
      reads this`refreshing, this`refreshAgain, this`asked, this`covered
    {
      (refreshing && refreshAgain) || covered == asked
    }

    // ----- Operations -----

    method Start(id: string, operation: Operation, steps: seq<Step>) returns (accepted: bool)
      requires Valid() && Serves(steps, Goal(operation, id, volumes))
      modifies this`pending, this`chains, this`nextCall, this`operations, this`plans, this`succeeded, this`sent,
               this`goals
      ensures Valid()
      ensures accepted <==> MayStart(volumes, old(pending), id, operation, steps)
      ensures accepted ==> pending == old(pending) + {id} && plans == old(plans) + [steps]
      ensures goals == if accepted then old(goals) + [Goal(operation, id, volumes)] else old(goals)
      ensures accepted ==> sent == old(sent) + [Sent(old(operations), steps[0], [])]
      ensures !accepted ==> pending == old(pending) && plans == old(plans) && sent == old(sent)
    {
      hide Tracked, Accounted, Followed;
      var v := Lookup(volumes, id);
      if !Supported(v, operation, steps) || id in pending || !NoneOnDrive(pending, volumes, v.drive) {
        return false;
      }
      Launch(id, operation, steps);
      return true;
    }

    // The first call of an operation is sent.
    method Launch(id: string, operation: Operation, steps: seq<Step>)
      requires Valid() && id !in pending && steps != [] && Serves(steps, Goal(operation, id, volumes))
      modifies this`pending, this`chains, this`nextCall, this`operations, this`plans, this`succeeded, this`sent,
               this`goals
      ensures goals == old(goals) + [Goal(operation, id, volumes)]
      ensures Valid() && pending == old(pending) + {id} && plans == old(plans) + [steps]
      ensures sent == old(sent) + [Sent(old(operations), steps[0], [])]
    {
      hide Tracked, Accounted, Followed, Purposed, Serves, Coalesced;
      PurposeAdded(plans, goals, steps, Goal(operation, id, volumes));
      var chain := Chain(operations, id, operation, steps[0], steps[1..], generation);
      assert [steps[0]] + steps[1..] == steps;
      ChainStarted(chains, nextCall, chain, pending, operations, outcomes);
      PlanStarted(chains, nextCall, chain, plans, succeeded, sent, outcomes);
      pending := pending + {id};
      chains := chains[nextCall := chain];
      nextCall, operations := nextCall + 1, operations + 1;
      plans, succeeded, sent := plans + [steps], succeeded + [[]], sent + [Sent(chain.serial, chain.step, [])];
      goals := goals + [Goal(operation, id, volumes)];
    }

    method MountVolume(id: string) returns (accepted: bool)
      requires Valid()
      modifies this`pending, this`chains, this`nextCall, this`operations, this`plans, this`succeeded, this`sent,
               this`goals
      ensures Valid()
      ensures var v := Lookup(volumes, id);
              && (accepted <==> (v.encrypted ==> v.cleartext != "") && v.id != "" && v.filesystem && id !in old(pending)
                                && DriveIsFree(old(pending), volumes, v.drive))
              && plans == if accepted then old(plans) + [[Step(if v.encrypted then v.cleartext else v.id, Mount)]]
                          else old(plans)
    {
      hide Tracked, Accounted, Followed;
      var v := Lookup(volumes, id);
      if v.Locked() {
        return false;
      }
      accepted := Start(id, Mounting, [Step(v.FilesystemPath(), Mount)]);
    }

    // Unmounts a volume, and locks it again if it was unlocked.
    method UnmountVolume(id: string) returns (accepted: bool)
      requires Valid()
      modifies this`pending, this`chains, this`nextCall, this`operations, this`plans, this`succeeded, this`sent,
               this`goals
      ensures Valid()
      ensures var v := Lookup(volumes, id);
              var steps := (if !v.encrypted then [Step(v.id, Unmount)]
                            else if v.mounted then [Step(v.cleartext, Unmount)] else [])
                           + if v.encrypted && v.cleartext != "" then [Step(id, Lock)] else [];
              && (accepted <==> steps != [] && v.id != "" && (v.filesystem || v.encrypted) && id !in old(pending)
                                && DriveIsFree(old(pending), volumes, v.drive))
              && plans == if accepted then old(plans) + [steps] else old(plans)
    {
      hide Tracked, Accounted, Followed;
      var v := Lookup(volumes, id);
      var steps := [];
      if !v.encrypted || v.mounted {
        steps := steps + [Step(v.FilesystemPath(), Unmount)];
      }
      if v.encrypted && !v.Locked() {
        steps := steps + [Step(id, Lock)];
      }
      assert steps == UnmountSteps(v);
      assert steps == (if !v.encrypted then [Step(v.id, Unmount)]
                       else if v.mounted then [Step(v.cleartext, Unmount)] else [])
                      + if v.encrypted && v.cleartext != "" then [Step(id, Lock)] else [];
      NoneIsFree(pending, volumes, v.drive);
      hide Releases, UnmountSteps, NoneOnDrive, DriveIsFree;
      accepted := Start(id, Unmounting, steps);
    }

    method Unlock(id: string) returns (accepted: bool)
      requires Valid()
      modifies this`pending, this`chains, this`nextCall, this`operations, this`plans, this`succeeded, this`sent,
               this`goals
      ensures Valid()
      ensures var v := Lookup(volumes, id);
              var locked := v.encrypted && v.cleartext == "";
              var steps := if locked then [Step(id, Method.Unlock), Step("", Mount)]
                           else [Step(if v.encrypted then v.cleartext else v.id, Mount)];
              && (accepted <==> v.id != "" && (locked || v.filesystem) && id !in old(pending)
                                && DriveIsFree(old(pending), volumes, v.drive))
              && plans == if accepted then old(plans) + [steps] else old(plans)
    {
      hide Tracked, Accounted, Followed;
      if !Lookup(volumes, id).Locked() {
        accepted := MountVolume(id);
      } else {
        accepted := Start(id, Unlocking, [Step(id, Method.Unlock), Step("", Mount)]);
      }
    }

    method ReleaseSteps(drive: string) returns (steps: seq<Step>)
      ensures steps == ReleasesOf(volumes, drive)
    {
      steps := [];
      var k := 0;
      while k < |volumes|
        invariant k <= |volumes| && steps == ReleasesOf(volumes[..k], drive)
      {
        assert volumes[..k + 1][..k] == volumes[..k];
        var other := volumes[k];
        if other.drive == drive {
          if other.mounted {
            steps := steps + [Step(other.FilesystemPath(), Unmount)];
          }
          if other.encrypted && !other.Locked() {
            steps := steps + [Step(other.id, Lock)];
          }
        }
        k := k + 1;
      }
      assert volumes[..k] == volumes;
    }

    method EjectVolume(id: string) returns (accepted: bool)
      requires Valid()
      modifies this`pending, this`chains, this`nextCall, this`operations, this`plans, this`succeeded, this`sent,
               this`goals
      ensures Valid()
      ensures var v := Lookup(volumes, id);
              var steps := ReleasesOf(volumes, v.drive) + [Step(v.drive, if v.ejectable then Eject else PowerOff)];
              && (accepted <==> v.id != "" && (v.ejectable || v.canPowerOff) && id !in old(pending)
                                && DriveIsFree(old(pending), volumes, v.drive))
              && plans == if accepted then old(plans) + [steps] else old(plans)
    {
      hide Tracked, Accounted, Followed;
      var v := Lookup(volumes, id);
      var steps := ReleaseSteps(v.drive);
      if v.ejectable || v.canPowerOff {
        steps := steps + [Step(v.drive, if v.ejectable then Eject else PowerOff)];
      }
      assert steps == EjectSteps(volumes, v);
      accepted := Start(id, Ejecting, steps);
    }

    // ----- Replies -----

    // The chain was started for an earlier owner, or its volume went.
    predicate Gone(c: Chain)
      reads this`generation, this`volumes
    {
      c.generation != generation || (!c.operation.Ejecting? && Lookup(volumes, c.id).id == "")
    }

    /** The reply to a chain's call: the next call, or the end of the operation. A chain from an
        earlier owner, or whose volume went, fails whatever the reply. */
    method Reply(call: nat, ok: bool, rejected: bool, path: string)
      requires Valid() && call in chains
      modifies this
      ensures Valid() && |plans| == |old(plans)| && volumes == old(volumes) && goals == old(goals)
      ensures !old(chains[call]).step.call.Unlock? ==> plans == old(plans)
      ensures var c := old(chains[call]);
              var gone := c.generation != generation
                          || (c.operation != Ejecting && forall v :: v in volumes ==> v.id != c.id || c.id == "");
              if ok && c.remaining != [] && !gone then
                var next := c.remaining[0];
                && outcomes == old(outcomes) && pending == old(pending) && asked == old(asked)
                && |sent| == |old(sent)| + 1 && sent[..|old(sent)|] == old(sent)
                && sent[|old(sent)|].serial == c.serial && sent[|old(sent)|].step.call == next.call
                && sent[|old(sent)|].step.path == if c.step.call.Unlock? && next.path == "" then path else next.path
              else
                && outcomes == old(outcomes) +
                   [Outcome(c.serial, if gone then Failed else if ok then Finished
                                      else if c.step.call.Unlock? && rejected then PassphraseRejected else Failed)]
                && pending == old(pending) - {c.id} && sent == old(sent)
                && asked == old(asked) + if gone then 0 else 1
    {
      hide Tracked, Accounted, Followed;
      var c := chains[call];
      if Gone(c) {
        End(call, Failed);
      } else if !ok {
        End(call, EndingOf(c, ok, rejected));
        Refresh();
      } else if c.remaining == [] {
        End(call, Finished);
        Refresh();
      } else {
        Continue(call, path);
      }
    }

    method End(call: nat, ending: Ending)
      requires Valid() && call in chains && (ending.Finished? ==> chains[call].remaining == [])
      modifies this`chains, this`pending, this`succeeded, this`outcomes
      ensures Valid() && outcomes == old(outcomes) + [Outcome(old(chains[call]).serial, ending)]
      ensures pending == old(pending) - {old(chains[call]).id} && chains == old(chains) - {call}
    {
      hide Tracked, Accounted, Followed, Purposed, Coalesced;
      var c := chains[call];
      PlanEnded(chains, call, ending, plans, succeeded, sent, pending, operations, outcomes);
      ChainEnded(chains, call, ending, pending, operations, outcomes);
      KnownPlan(call);
      if ending.Finished? {
        succeeded := succeeded[c.serial := succeeded[c.serial] + [c.step]];
      }
      outcomes := outcomes + [Outcome(c.serial, ending)];
      chains := chains - {call};
      pending := pending - {c.id};
    }

    lemma KnownPlan(call: nat)
      requires Followed(chains, plans, succeeded, sent, outcomes) && call in chains
      ensures var c := chains[call];
              c.serial < |plans| == |succeeded| && plans[c.serial] == succeeded[c.serial] + [c.step] + c.remaining
    {
    }

    // The step succeeded; the one after it is sent.
    method Continue(call: nat, path: string)
      requires Valid() && call in chains && chains[call].remaining != []
      modifies this`chains, this`nextCall, this`plans, this`succeeded, this`sent
      ensures Valid() && |plans| == |old(plans)|
      ensures !old(chains[call]).step.call.Unlock? ==> plans == old(plans)
      ensures |sent| == |old(sent)| + 1 && sent[..|old(sent)|] == old(sent)
      ensures sent[|old(sent)|].serial == old(chains[call]).serial
              && sent[|old(sent)|].step == NextStep(old(chains[call]), path)
    {
      hide Tracked, Accounted, Followed, Serves, NextStep;
      var c := chains[call];
      var next := NextStep(c, path);
      var after := c.(step := next, remaining := c.remaining[1..]);
      KnownPlan(call);
      PlanKept(plans[c.serial], goals[c.serial], succeeded[c.serial], c, path);
      StepSucceeded(chains, call, nextCall, next, plans, succeeded, sent, pending, operations, outcomes);
      ChainContinued(chains, call, nextCall, after, pending, operations, outcomes);
      ghost var done := succeeded[c.serial] + [c.step];
      plans := plans[c.serial := done + [next] + c.remaining[1..]];
      succeeded := succeeded[c.serial := done];
      sent := sent + [Sent(c.serial, next, done)];
      chains := (chains - {call})[nextCall := after];
      nextCall := nextCall + 1;
    }

    /** In every reachable state: what was ejected or powered off had been released before. */
    lemma EjectedWhenReleased(k: nat, i: nat)
      requires Valid() && k < |sent| && sent[k].step.call in {Eject, PowerOff}
      ensures sent[k].serial < |goals| == |succeeded|
      ensures var goal := goals[sent[k].serial];
              var v := goal.Volume();
              && goal.operation == Ejecting
              && sent[k].step == Step(v.drive, if v.ejectable then Eject else PowerOff)
              && sent[k].after == ReleasesOf(goal.known, v.drive) <= succeeded[sent[k].serial]
              && (i < |goal.known| && goal.known[i].drive == v.drive ==>
                    IsReleased(goal.known[i], sent[k].after))
    {
      EjectComesLast(chains, plans, succeeded, sent, outcomes, goals, k);
      var goal := goals[sent[k].serial];
      if i < |goal.known| && goal.known[i].drive == goal.Volume().drive {
        DriveIsReleased(goal.known, goal.Volume().drive, i);
      }
    }

    // ----- The listing -----

    method Refresh()
      requires Coalesced()
      modifies this`refreshing, this`refreshAgain, this`listingGeneration, this`asked, this`covered
      ensures Coalesced() && refreshing && asked == old(asked) + 1
    {
      asked := asked + 1;
      Request();
    }

    method Request()
      modifies this`refreshing, this`refreshAgain, this`listingGeneration, this`covered
      ensures Coalesced() && refreshing
    {
      if refreshing {
        refreshAgain := true;
        return;
      }
      refreshing := true;
      listingGeneration := generation;
      covered := asked;
    }

    /** The listing arrives. Once none is awaited, the one that came last was requested after
        everything that is known to have changed. */
    method ListingReply(ok: bool, listed: seq<Volume>)
      requires Valid() && refreshing
      modifies this
      ensures Valid() && asked == old(asked)
      ensures volumes == if old(listingGeneration) == generation && ok then listed else old(volumes)
      ensures refreshing == old(refreshAgain) && (!refreshing ==> covered == asked == old(covered))
    {
      hide Tracked, Accounted, Followed;
      refreshing := false;
      if listingGeneration == generation && ok {
        volumes := listed;
      }
      if refreshAgain {
        refreshAgain := false;
        Request();
      }
    }

    // UDisks went, or another came: its objects are gone, and the chains will fail.
    method OwnerChanged(present: bool)
      requires Valid()
      modifies this
      ensures Valid() && volumes == [] && generation == old(generation) + 1 && pending == old(pending)
      ensures forall k :: k in chains ==> chains[k].generation != generation
      ensures asked == old(asked) + if present then 1 else 0
    {
      hide Tracked, Accounted, Followed;
      generation := generation + 1;
      volumes := [];
      if present {
        Refresh();
      }
    }
  }
}
