/** Bluetooth discovery: what the client wants of each adapter against what it owns, kept
    together over replies, signals, timers and removed adapters, in any order. */
module Discovery {

  import opened Options

  // An object on the bus; another object may take its path later.
  datatype Object = Object(serial: nat, adapter: bool, powered: bool)

  // An object without the serial of its own.
  datatype Shape = Shape(adapter: bool, powered: bool)

  function Shapes(objects: map<string, Object>): (shapes: map<string, Shape>)
    ensures shapes.Keys == objects.Keys
  {
    map path | path in objects :: Shape(objects[path].adapter, objects[path].powered)
  }

  lemma ShapesPlaced(objects: map<string, Object>, path: string, item: Object)
    ensures Shapes(objects[path := item]) == Shapes(objects)[path := Shape(item.adapter, item.powered)]
    ensures path in objects ==> Shapes(objects)[path] == Shape(objects[path].adapter, objects[path].powered)
  {
  }

  lemma ShapesLess(objects: map<string, Object>, path: string)
    ensures Shapes(objects - {path}) == Shapes(objects) - {path}
    ensures path in objects ==> Shapes(objects)[path] == Shape(objects[path].adapter, objects[path].powered)
  {
  }

  // What the bus tells about one object.
  datatype Event =
    | Added(path: string, adapter: bool, powered: bool, noticed: bool)
    | Changed(path: string, onAdapter: bool, powered: bool)
    | Gone(path: string, whole: bool, empty: bool)

  // An adapter has an interface that is known.
  predicate Sane(e: Event) {
    e.Added? && e.adapter ==> e.noticed
  }

  // The objects after the event. An adapter stays one until it goes as a whole.
  function Heard(shapes: map<string, Shape>, e: Event): map<string, Shape> {
    match e
    case Added(path, adapter, powered, noticed) =>
      if path !in shapes then shapes[path := Shape(adapter, powered)]
      else if noticed then shapes[path := Shape(adapter || shapes[path].adapter, powered)]
      else shapes
    case Changed(path, onAdapter, powered) =>
      if path in shapes then shapes[path := Shape(onAdapter || shapes[path].adapter, powered)] else shapes
    case Gone(path, whole, empty) =>
      if whole || (empty && path in shapes && !shapes[path].adapter) then shapes - {path} else shapes
  }

  function HeardAll(shapes: map<string, Shape>, events: seq<Event>): map<string, Shape> {
    if events == [] then shapes
    else Heard(HeardAll(shapes, events[..|events| - 1]), events[|events| - 1])
  }

  // A StartDiscovery or StopDiscovery without its reply.
  datatype Call = Call(path: string, serial: nat, start: bool)

  const STOP_RETRIES := 3

  // What concerns one adapter.
  datatype Local = Local(wanted: bool, owned: bool, pending: bool, failed: bool, retries: nat, starting: bool,
      stopping: bool)

  // What is owned and what is wanted differ only while something will settle it, or where
  // the client gave up.
  predicate Justified(l: Local, armed: bool) {
    && (l.owned && !l.wanted ==> l.stopping || armed || l.retries >= STOP_RETRIES)
    && (l.wanted && !l.owned ==> l.failed || l.starting || l.stopping || armed)
  }

  // A mark of a pending call stands for one that is in flight for this very object.
  predicate Marked(l: Local) {
    && (l.pending ==> l.starting || l.stopping)
    && (l.pending && l.owned ==> l.stopping)
  }

  // Only more may be in flight, and doing what is wanted needs no further step.
  predicate DiscoveryTried(before: Local, now: Local, start: bool) {
    && now == before.(pending := now.pending, starting := now.starting, stopping := now.stopping)
    && (before.starting ==> now.starting) && (before.stopping ==> now.stopping)
    && (start == now.wanted && Marked(before) ==> Justified(now, false))
  }

  ghost predicate InFlight(calls: map<nat, Call>, call: Call) {
    exists id :: id in calls && calls[id] == call
  }

  lemma CallAdded(calls: map<nat, Call>, id: nat, call: Call)
    requires id !in calls
    ensures forall c :: InFlight(calls[id := call], c) <==> InFlight(calls, c) || c == call
  {
    var more := calls[id := call];
    forall c
      ensures InFlight(more, c) <==> InFlight(calls, c) || c == call
    {
      if other :| other in calls && calls[other] == c {
        assert more[other] == c;
      }
      assert more[id] == call;
    }
  }

  lemma CallEnded(calls: map<nat, Call>, id: nat)
    requires id in calls
    ensures forall c :: c != calls[id] ==> (InFlight(calls - {id}, c) <==> InFlight(calls, c))
  {
    var less := calls - {id};
    forall c | c != calls[id]
      ensures InFlight(less, c) <==> InFlight(calls, c)
    {
      if other :| other in calls && calls[other] == c {
        assert less[other] == c;
      }
    }
  }

  // All that the client keeps about discovery.
  datatype Book = Book(objects: map<string, Object>, nextSerial: nat, requested: bool,
                       owned: set<string>, pending: set<string>, failed: set<string>, stopRetries: map<string, nat>,
                       calls: map<nat, Call>, nextCall: nat, armed: bool) {

    predicate IsAdapter(path: string) {
      path in objects && objects[path].adapter
    }

    predicate Wants(path: string) {
      requested && IsAdapter(path) && objects[path].powered
    }

    // The object that the call was made on is still there.
    predicate Current(call: Call) {
      call.path in objects && objects[call.path].serial == call.serial
    }

    function Retries(path: string): nat {
      if path in stopRetries then stopRetries[path] else 0
    }

    ghost function At(path: string): Local {
      Local(Wants(path), path in owned, path in pending, path in failed, Retries(path),
            path in objects && InFlight(calls, Call(path, objects[path].serial, true)),
            path in objects && InFlight(calls, Call(path, objects[path].serial, false)))
    }

    ghost predicate Sound() {
      && (forall path :: path in objects ==> objects[path].serial < nextSerial)
      && (forall path :: path in owned + pending ==> IsAdapter(path))
      && (forall path :: path in pending ==> Marked(At(path)))
      && (forall id :: id in calls ==> id < nextCall && calls[id].serial < nextSerial)
      && (forall id :: id in calls && Current(calls[id]) ==> IsAdapter(calls[id].path))
    }

    // Every adapter is as wanted, or something is under way.
    ghost predicate Settled() {
      forall path :: IsAdapter(path) ==> Justified(At(path), armed)
    }

    ghost predicate SettledBut(path: string) {
      forall other :: IsAdapter(other) && other != path ==> Justified(At(other), armed)
    }
  }

  /** Once nothing is in flight and no timer runs, the client owns the discovery of just the
      adapters where it is wanted, but for one whose start failed or whose stop failed too often. */
  lemma QuiescentMatches(b: Book, path: string)
    requires b.Settled() && b.IsAdapter(path) && b.calls == map[] && !b.armed
    ensures var wanted := b.requested && b.objects[path].powered;
            || (path in b.owned <==> wanted)
            || (wanted && path in b.failed)
            || (!wanted && path in b.stopRetries && b.stopRetries[path] >= 3)
  {
    assert Justified(b.At(path), b.armed);
  }

  // ----- Steps of the book -----

  function Sent(b: Book, path: string, start: bool): Book
    requires path in b.objects
  {
    b.(pending := b.pending + {path}, calls := b.calls[b.nextCall := Call(path, b.objects[path].serial, start)],
       nextCall := b.nextCall + 1)
  }

  lemma SentAt(b: Book, path: string, start: bool, other: string)
    requires b.Sound() && path in b.objects
    ensures var now, was := Sent(b, path, start).At(other), b.At(other);
            if other != path then now == was
            else now == was.(pending := true, starting := start || was.starting, stopping := !start || was.stopping)
  {
    CallAdded(b.calls, b.nextCall, Call(path, b.objects[path].serial, start));
    hide InFlight;
  }

  lemma SentIsSound(b: Book, path: string, start: bool)
    requires b.Sound() && b.IsAdapter(path) && path !in b.pending && (path in b.owned) != start
    requires !(start && path in b.failed) && !(!start && b.Retries(path) >= STOP_RETRIES)
    ensures Sent(b, path, start).Sound()
    ensures forall other :: other != path ==> Sent(b, path, start).At(other) == b.At(other)
    ensures DiscoveryTried(b.At(path), Sent(b, path, start).At(path), start)
  {
    var now := Sent(b, path, start);
    SentAt(b, path, start, path);
    forall other | other != path
      ensures now.At(other) == b.At(other)
    {
      SentAt(b, path, start, other);
    }
    forall other | other in now.pending
      ensures Marked(now.At(other))
    {
      SentAt(b, path, start, other);
    }
  }

  // Why no call is needed, where none is made.
  lemma NotSent(b: Book, path: string, start: bool)
    requires b.Sound()
    requires path in b.pending || (path in b.owned) == start || (start && path in b.failed)
             || (!start && b.Retries(path) >= STOP_RETRIES)
    ensures DiscoveryTried(b.At(path), b.At(path), start)
  {
  }

  // The reply takes the call out, and the mark of whatever call is pending on its path.
  function Ended(b: Book, id: nat): Book
    requires id in b.calls
  {
    b.(pending := b.pending - {b.calls[id].path}, calls := b.calls - {id})
  }

  lemma EndedIsSound(b: Book, id: nat)
    requires b.Sound() && id in b.calls
    ensures Ended(b, id).Sound()
    ensures forall path :: path != b.calls[id].path || !b.Current(b.calls[id]) ==>
                             Ended(b, id).At(path) == b.At(path).(pending := path in Ended(b, id).pending)
    ensures var path := b.calls[id].path;
            path in b.objects ==>
              var now, was := Ended(b, id).At(path), b.At(path);
              && now == was.(pending := false, starting := now.starting, stopping := now.stopping)
              && (b.calls[id].start ==> now.stopping == was.stopping)
  {
    hide InFlight;
    CallEnded(b.calls, id);
  }

  lemma EndedIsSettled(b: Book, id: nat)
    requires b.Sound() && b.Settled() && id in b.calls
    ensures Ended(b, id).SettledBut(b.calls[id].path)
    ensures !b.Current(b.calls[id]) ==> Ended(b, id).Settled()
    ensures var call, now := b.calls[id], Ended(b, id).At(b.calls[id].path);
            b.IsAdapter(call.path) && call.start && now.owned && !now.wanted ==> Justified(now, b.armed)
  {
    hide InFlight;
    EndedIsSound(b, id);
    forall path | b.IsAdapter(path) && (path != b.calls[id].path || !b.Current(b.calls[id]))
      ensures Justified(Ended(b, id).At(path), b.armed)
    {
      assert Justified(b.At(path), b.armed);
    }
    if b.IsAdapter(b.calls[id].path) {
      assert Justified(b.At(b.calls[id].path), b.armed);
    }
  }

  // What is sound does not depend on what is wanted, nor on past failures.
  lemma SoundRegardless(b: Book, requested: bool, failed: set<string>, stopRetries: map<string, nat>, armed: bool)
    requires b.Sound()
    ensures b.(requested := requested, failed := failed, stopRetries := stopRetries, armed := armed).Sound()
  {
    hide InFlight;
    var now := b.(requested := requested, failed := failed, stopRetries := stopRetries, armed := armed);
    forall path | path in now.pending
      ensures Marked(now.At(path))
    {
      assert Marked(b.At(path));
    }
  }

  // Owning an adapter or not concerns nothing else, while no call is marked on it.
  lemma OwnedIsSound(b: Book, path: string, owned: bool)
    requires b.Sound() && path !in b.pending && (owned ==> b.IsAdapter(path))
    ensures Owned(b, path, owned).Sound()
  {
    hide InFlight;
    forall other | other in b.pending
      ensures Marked(Owned(b, path, owned).At(other))
    {
      assert Marked(b.At(other));
    }
  }

  function Owned(b: Book, path: string, owned: bool): Book {
    b.(owned := if owned then b.owned + {path} else b.owned - {path}, stopRetries := b.stopRetries - {path})
  }

  lemma OwnedIsSettled(b: Book, path: string, owned: bool)
    requires b.Sound() && b.SettledBut(path) && owned == b.Wants(path)
    ensures Owned(b, path, owned).Settled()
  {
    hide InFlight;
    var now := Owned(b, path, owned);
    forall other | now.IsAdapter(other)
      ensures Justified(now.At(other), now.armed)
    {
      if other != path {
        assert Justified(b.At(other), b.armed);
      }
    }
  }

  // A failed start; with nothing owned or pending, nothing is wanted any more.
  function StartRefused(b: Book, path: string): Book {
    b.(failed := b.failed + {path}, requested := b.requested && (b.owned != {} || b.pending != {}))
  }

  lemma StartRefusedIsSettled(b: Book, path: string)
    requires b.SettledBut(path) && (b.IsAdapter(path) && path in b.owned && !b.Wants(path) ==>
             Justified(b.At(path), b.armed))
    ensures StartRefused(b, path).Settled()
  {
    hide InFlight;
    var now := StartRefused(b, path);
    forall other | now.IsAdapter(other)
      ensures Justified(now.At(other), now.armed)
    {
      if other != path {
        assert Justified(b.At(other), b.armed);
      }
    }
  }

  // An adapter without power: nothing is owned, and the past is forgotten.
  function Lost(b: Book, path: string): Book {
    b.(owned := b.owned - {path}, failed := b.failed - {path}, stopRetries := b.stopRetries - {path})
  }

  lemma LostIsSound(b: Book, path: string)
    requires b.Sound() && b.armed
    ensures Lost(b, path).Sound() && Lost(b, path).Settled()
  {
    hide InFlight;
    forall other | other in b.pending
      ensures Marked(Lost(b, path).At(other))
    {
      assert Marked(b.At(other));
    }
  }

  // An object of this serial takes the path.
  function Placed(b: Book, path: string, item: Object): Book {
    b.(objects := b.objects[path := item],
      nextSerial := if item.serial == b.nextSerial then b.nextSerial + 1 else b.nextSerial)
  }

  lemma PlacedIsSound(b: Book, path: string, item: Object)
    requires b.Sound()
    requires if path in b.objects then item.serial == b.objects[path].serial
             && (b.objects[path].adapter ==> item.adapter)
             else item.serial == b.nextSerial
    ensures Placed(b, path, item).Sound()
  {
    hide InFlight;
    var now := Placed(b, path, item);
    forall other | other in now.pending
      ensures Marked(now.At(other))
    {
      assert Marked(b.At(other));
    }
  }

  // The object goes, with all that was noted about it.
  function Removed(b: Book, path: string): Book {
    b.(objects := b.objects - {path}, owned := b.owned - {path}, pending := b.pending - {path},
       failed := b.failed - {path}, stopRetries := b.stopRetries - {path})
  }

  lemma RemovedIsSound(b: Book, path: string)
    requires b.Sound()
    ensures Removed(b, path).Sound()
    ensures b.Settled() ==> Removed(b, path).Settled()
  {
    hide InFlight;
    var now := Removed(b, path);
    forall other | other in now.pending
      ensures Marked(now.At(other))
    {
      assert Marked(b.At(other));
    }
    forall other | b.Settled() && now.IsAdapter(other)
      ensures Justified(now.At(other), now.armed)
    {
      assert Justified(b.At(other), b.armed);
    }
  }

  // What the reply to a call does to the adapter, and to nothing else.
  ghost predicate Replied(was: Book, call: Call, ok: bool, now: Book) {
    if !was.Current(call) then
      now.owned == was.owned && now.failed == was.failed && now.stopRetries == was.stopRetries
        && now.requested == was.requested
    else if ok then
      && now.owned == (if call.start then was.owned + {call.path} else was.owned - {call.path})
      && now.stopRetries == was.stopRetries - {call.path} && now.failed == was.failed && now.requested == was.requested
    else if call.start then
      && now.failed == was.failed + {call.path} && now.owned == was.owned && now.stopRetries == was.stopRetries
      && now.requested == (was.requested && (was.owned != {} || was.pending - {call.path} != {}))
    else
      && now.stopRetries == was.stopRetries[call.path := was.Retries(call.path) + 1]
      && now.owned == was.owned && now.failed == was.failed && now.requested == was.requested
  }

  lemma NotReplied(was: Book, id: nat, ok: bool)
    requires id in was.calls && !was.Current(was.calls[id])
    ensures Replied(was, was.calls[id], ok, Ended(was, id))
  {
  }

  lemma RepliedAfter(was: Book, id: nat, ok: bool, ended: Book, now: Book)
    requires id in was.calls && ended == Ended(was, id) && was.Current(was.calls[id])
    requires Replied(ended, was.calls[id], ok, now)
    ensures Replied(was, was.calls[id], ok, now)
  {
  }

  class Manager {
    var operational: bool
    var objects: map<string, Object>
    var nextSerial: nat
    var requested: bool
    var owned: set<string>
    var pending: set<string>
    var failed: set<string>
    var stopRetries: map<string, nat>
    var calls: map<nat, Call>
    var nextCall: nat
    var syncArmed: bool
    var retryArmed: bool

    constructor ()
      ensures Valid() && !operational && !requested
    {
      operational, objects, nextSerial, requested := false, map[], 0, false;
      owned, pending, failed, stopRetries := {}, {}, {}, map[];
      calls, nextCall, syncArmed, retryArmed := map[], 0, false, false;
    }

    function Now(): Book
      reads this
    {
      Book(objects, nextSerial, requested, owned, pending, failed, stopRetries, calls, nextCall,
        syncArmed || retryArmed)
    }

    // What every step keeps, also while BlueZ is being read.
    ghost predicate Consistent()
      reads this
    {
      Now().Sound() && Now().Settled()
    }

    ghost predicate Valid()
      reads this
    {
      Consistent() && (!operational ==> objects == map[] && calls == map[])
    }

    // ----- Calls -----

    // Starts or stops discovery on an adapter, unless that is under way, done or given up.
    method Discovery(path: string, start: bool)
      requires Now().Sound() && operational
      modifies this`pending, this`calls, this`nextCall
      ensures Now().Sound()
      ensures forall other :: other != path ==> Now().At(other) == old(Now()).At(other)
      ensures if Now().IsAdapter(path) then DiscoveryTried(old(Now()).At(path), Now().At(path), start)
              else Now() == old(Now())
    {
      hide InFlight, DiscoveryTried, Justified, Marked;
      ghost var was := Now();
      if !Now().IsAdapter(path) {
        return;
      }
      if path in pending || (path in owned) == start || (start && path in failed)
         || (!start && Now().Retries(path) >= STOP_RETRIES) {
        NotSent(was, path, start);
        return;
      }
      SentIsSound(was, path, start);
      pending := pending + {path};
      calls := calls[nextCall := Call(path, objects[path].serial, start)];
      nextCall := nextCall + 1;
      assert Now() == Sent(was, path, start);
    }

    /** Afterwards no adapter needs a timer to be as wanted: it is, or a call will see to it, or
        the client gave up. */
    method SyncDiscovery()
      requires Now().Sound()
      modifies this`pending, this`calls, this`nextCall
      ensures Now().Sound()
      ensures operational ==> Now().(armed := false).Settled()
      ensures !operational ==> Now() == old(Now())
    {
      hide InFlight;
      if !operational {
        return;
      }
      var left := objects.Keys;
      while left != {}
        invariant Now().Sound()
        invariant forall path :: Now().IsAdapter(path) && path !in left ==> Justified(Now().At(path), false)
        decreases left
      {
        var path :| path in left;
        Discovery(path, Now().Wants(path));
        left := left - {path};
      }
      SettledNow(Now());
    }

    lemma SettledNow(b: Book)
      requires forall path :: b.IsAdapter(path) ==> Justified(b.At(path), false)
      ensures b.(armed := false).Settled()
    {
      hide Justified;
      var now := b.(armed := false);
      forall path | now.IsAdapter(path)
        ensures Justified(now.At(path), false)
      {
        assert b.IsAdapter(path) && now.At(path) == b.At(path);
      }
    }

    // ----- What the user does -----

    /** Asking anew forgets past failures; afterwards each adapter has what is wanted, or a call
        that will see to it. */
    method SetDiscoveryRequested(requested: bool)
      requires Valid()
      modifies this`requested, this`failed, this`stopRetries, this`pending, this`calls, this`nextCall
      ensures Valid() && this.requested == requested && failed == {} && stopRetries == map[]
      ensures operational ==> Now().(armed := false).Settled()
    {
      SoundRegardless(Now(), requested, {}, map[], syncArmed || retryArmed);
      failed, stopRetries := {}, map[];
      this.requested := requested;
      SyncAll();
    }

    // Brings all adapters in line.
    method SyncAll()
      requires Now().Sound() && (!operational ==> objects == map[] && calls == map[])
      modifies this`pending, this`calls, this`nextCall
      ensures Valid()
      ensures operational ==> Now().(armed := false).Settled()
    {
      SyncDiscovery();
      if operational {
        SettledAnyway(Now());
      }
    }

    lemma SettledAnyway(b: Book)
      requires b.(armed := false).Settled()
      ensures b.Settled()
    {
      forall path | b.IsAdapter(path)
        ensures Justified(b.At(path), b.armed)
      {
        assert Justified(b.(armed := false).At(path), false);
        assert b.(armed := false).At(path) == b.At(path);
      }
    }

    // One adapter is asked directly, whatever is wanted overall.
    method AskAdapter(path: string, start: bool)
      requires Valid()
      modifies this`pending, this`calls, this`nextCall
      ensures Valid()
      ensures forall other :: other != path ==> Now().At(other) == old(Now()).At(other)
      ensures if operational && Now().IsAdapter(path) then DiscoveryTried(old(Now()).At(path), Now().At(path), start)
              else Now() == old(Now())
    {
      if operational {
        ghost var was := Now();
        Discovery(path, start);
        forall other | Now().IsAdapter(other)
          ensures Justified(Now().At(other), Now().armed)
        {
          assert Justified(was.At(other), was.armed);
        }
      }
    }

    // ----- What the bus tells -----

    /** The reply to a start or a stop. An object that took the adapter's path meanwhile has
        nothing to do with it. */
    method Reply(id: nat, ok: bool)
      requires Valid() && id in calls
      modifies this
      ensures Valid() && operational == old(operational) && objects == old(objects)
      ensures Replied(old(Now()), old(calls[id]), ok, Now())
      ensures !ok && !old(calls[id]).start && Now().Current(old(calls[id])) ==> retryArmed
    {
      hide InFlight, Justified, Marked, Replied;
      var call := calls[id];
      ghost var was := Now();
      EndCall(id);
      if !Now().Current(call) {
        NotReplied(was, id, ok);
        return;
      }
      ghost var ended := Now();
      if ok {
        Succeeded(call.path, call.start);
      } else if call.start {
        StartFailed(call.path);
      } else {
        StopFailed(call.path);
      }
      RepliedAfter(was, id, ok, ended, Now());
    }

    method EndCall(id: nat)
      requires Valid() && id in calls
      modifies this`pending, this`calls
      ensures Now() == Ended(old(Now()), id) && Now().Sound() && Now().SettledBut(old(calls[id]).path)
      ensures !Now().Current(old(calls[id])) ==> Now().Settled()
      ensures var call := old(calls[id]);
              Now().Current(call) ==>
                && Now().IsAdapter(call.path) && call.path !in pending
                && (call.start && call.path in owned && !Now().Wants(call.path) ==>
                   Justified(Now().At(call.path), Now().armed))
    {
      hide InFlight, Justified, Marked;
      var call := calls[id];
      ghost var was := Now();
      EndedIsSound(was, id);
      EndedIsSettled(was, id);
      pending := pending - {call.path};
      calls := calls - {id};
      assert Now() == Ended(was, id);
    }

    method Succeeded(path: string, start: bool)
      requires Now().Sound() && Now().SettledBut(path) && operational && path !in pending && Now().IsAdapter(path)
      modifies this`owned, this`stopRetries, this`pending, this`calls, this`nextCall
      ensures Valid() && owned == if start then old(owned) + {path} else old(owned) - {path}
      ensures stopRetries == old(stopRetries) - {path}
    {
      hide InFlight, Justified, Marked;
      ghost var was := Now();
      OwnedIsSound(was, path, start);
      owned := if start then owned + {path} else owned - {path};
      stopRetries := stopRetries - {path};
      assert Now() == Owned(was, path, start);
      if start != Now().Wants(path) {
        SyncAll();
      } else {
        OwnedIsSettled(was, path, start);
      }
    }

    method StartFailed(path: string)
      requires Now().Sound() && Now().SettledBut(path) && operational
      requires path in owned && !Now().Wants(path) ==> Justified(Now().At(path), Now().armed)
      modifies this`failed, this`requested
      ensures Valid() && failed == old(failed) + {path}
      ensures requested == (old(requested) && (owned != {} || pending != {}))
    {
      hide InFlight, Justified, Marked;
      ghost var was := Now();
      failed := failed + {path};
      if owned == {} && pending == {} {
        requested := false;
      }
      assert Now() == StartRefused(was, path);
      StartRefusedIsSettled(was, path);
      SoundRegardless(was, requested, failed, stopRetries, was.armed);
    }

    method StopFailed(path: string)
      requires Now().Sound() && operational
      modifies this`stopRetries, this`retryArmed
      ensures Valid() && retryArmed && stopRetries == old(stopRetries)[path := old(Now()).Retries(path) + 1]
    {
      hide InFlight, Marked;
      SoundRegardless(Now(), requested, failed, stopRetries[path := Now().Retries(path) + 1], true);
      stopRetries := stopRetries[path := Now().Retries(path) + 1];
      retryArmed := true;
    }

    // A timer that was armed brings all adapters in line.
    method TimerFired(retry: bool)
      requires Valid() && if retry then retryArmed else syncArmed
      modifies this
      ensures Valid() && operational == old(operational)
      ensures if retry then !retryArmed && syncArmed == old(syncArmed) else !syncArmed && retryArmed == old(retryArmed)
      ensures operational ==> Now().(armed := false).Settled()
      ensures owned == old(owned) && failed == old(failed) && stopRetries == old(stopRetries)
              && requested == old(requested)
    {
      hide InFlight, Marked;
      if retry {
        SoundRegardless(Now(), requested, failed, stopRetries, syncArmed);
        retryArmed := false;
      } else {
        SoundRegardless(Now(), requested, failed, stopRetries, retryArmed);
        syncArmed := false;
      }
      SyncAll();
    }

    // An object appears, or gains interfaces or properties. Only an object without any known
    // interface goes unnoticed.
    method InterfacesAdded(path: string, adapter: bool, powered: bool, noticed: bool)
      requires Consistent() && (adapter ==> noticed)
      modifies this`objects, this`nextSerial, this`syncArmed
      ensures Consistent() && path in objects && (noticed ==> syncArmed)
      ensures Shapes(objects) == Heard(Shapes(old(objects)), Added(path, adapter, powered, noticed))
      ensures objects - {path} == old(objects) - {path}
              && (path in old(objects) ==> objects[path].serial == old(objects)[path].serial)
    {
      hide InFlight, Marked, Justified, Shapes;
      if path !in objects {
        ShapesPlaced(objects, path, Object(nextSerial, adapter, powered));
        Place(path, adapter, powered, noticed);
      } else if noticed {
        ShapesPlaced(objects, path, Object(objects[path].serial, adapter || objects[path].adapter, powered));
        Update(path, adapter, powered);
      }
    }

    // An object that is new to the client takes its path.
    method Place(path: string, adapter: bool, powered: bool, noticed: bool)
      requires Consistent() && path !in objects && (adapter ==> noticed)
      modifies this`objects, this`nextSerial, this`syncArmed
      ensures Consistent() && (noticed ==> syncArmed)
      ensures objects == old(objects)[path := Object(old(nextSerial), adapter, powered)]
    {
      hide InFlight, Marked, Justified;
      ghost var was := Now();
      var item := Object(nextSerial, adapter, powered);
      PlacedIsSound(was, path, item);
      objects := objects[path := item];
      nextSerial := nextSerial + 1;
      assert Now() == Placed(was, path, item);
      if noticed {
        Notice();
      } else {
        forall other | Now().IsAdapter(other)
          ensures Justified(Now().At(other), Now().armed)
        {
          assert Justified(was.At(other), was.armed);
        }
      }
    }

    // With the timer running, whatever is not as wanted will be looked at.
    method Notice()
      requires Now().Sound()
      modifies this`syncArmed
      ensures Consistent() && syncArmed
    {
      hide InFlight, Marked;
      SoundRegardless(Now(), requested, failed, stopRetries, true);
      syncArmed := true;
    }

    // Whoever changes an object, all adapters are looked at soon.
    method Update(path: string, adapter: bool, powered: bool)
      requires Consistent() && path in objects
      modifies this`objects, this`syncArmed
      ensures Consistent() && syncArmed
      ensures objects == old(objects)[path :=
                Object(old(objects)[path].serial, adapter || old(objects)[path].adapter, powered)]
    {
      hide InFlight, Marked;
      ghost var was := Now();
      var item := Object(objects[path].serial, adapter || objects[path].adapter, powered);
      PlacedIsSound(was, path, item);
      objects := objects[path := item];
      assert Now() == Placed(was, path, item);
      Notice();
    }

    // The object's properties changed; an adapter that lost its power owns nothing and has no past.
    method PropertiesChanged(path: string, onAdapter: bool, powered: bool)
      requires Consistent()
      modifies this`objects, this`syncArmed, this`owned, this`failed, this`stopRetries
      ensures Consistent()
      ensures Shapes(objects) == Heard(Shapes(old(objects)), Changed(path, onAdapter, powered))
      ensures path in old(objects) ==> syncArmed
      ensures if path in old(objects) && onAdapter && !powered
              then owned == old(owned) - {path} && failed == old(failed) - {path}
                && stopRetries == old(stopRetries) - {path}
              else owned == old(owned) && failed == old(failed) && stopRetries == old(stopRetries)
    {
      hide InFlight, Marked, Justified, Shapes;
      if path !in objects {
        return;
      }
      ShapesPlaced(objects, path, Object(objects[path].serial, onAdapter || objects[path].adapter, powered));
      Update(path, onAdapter, powered);
      if onAdapter && !powered {
        Lose(path);
      }
    }

    method Lose(path: string)
      requires Now().Sound() && syncArmed
      modifies this`owned, this`failed, this`stopRetries
      ensures Consistent()
      ensures owned == old(owned) - {path} && failed == old(failed) - {path} && stopRetries == old(stopRetries) - {path}
    {
      hide InFlight, Marked, Justified;
      ghost var was := Now();
      LostIsSound(was, path);
      owned, failed, stopRetries := owned - {path}, failed - {path}, stopRetries - {path};
      assert Now() == Lost(was, path);
    }

    // A property that had been invalidated was fetched again.
    method Refetched(path: string, serial: nat, powered: bool)
      requires Valid() && operational
      modifies this`objects, this`syncArmed
      ensures Valid()
      ensures if path in old(objects) && old(objects)[path].serial == serial
              then syncArmed && objects == old(objects)[path := old(objects)[path].(powered := powered)]
              else syncArmed == old(syncArmed) && objects == old(objects)
    {
      if path in objects && objects[path].serial == serial {
        Update(path, false, powered);
      }
    }

    // An object, or some of its interfaces, went. Nothing of a removed adapter is kept; calls on
    // it stay in flight.
    method InterfacesRemoved(path: string, whole: bool, empty: bool)
      requires Consistent()
      modifies this`objects, this`owned, this`pending, this`failed, this`stopRetries, this`syncArmed
      ensures Consistent()
      ensures Shapes(objects) == Heard(Shapes(old(objects)), Gone(path, whole, empty))
      ensures if whole && path in old(objects)
              then
                && objects == old(objects) - {path} && owned == old(owned) - {path} && pending == old(pending) - {path}
                && failed == old(failed) - {path} && stopRetries == old(stopRetries) - {path}
              else
                && owned == old(owned) && pending == old(pending) && failed == old(failed)
                && stopRetries == old(stopRetries)
      ensures !whole ==>
                objects == if empty && path in old(objects) && !old(objects)[path].adapter
                           then old(objects) - {path} else old(objects)
    {
      hide InFlight, Marked, Justified, Shapes;
      if path !in objects {
        return;
      }
      ShapesLess(objects, path);
      if whole {
        Drop(path);
      } else {
        ShapesPlaced(objects, path, objects[path]);
        Update(path, false, objects[path].powered);
        ShapesLess(objects, path);
        if empty && !objects[path].adapter {
          Forget(path);
        }
      }
    }

    // The object goes, and with it all that was kept about its path.
    method Drop(path: string)
      requires Consistent()
      modifies this`objects, this`owned, this`pending, this`failed, this`stopRetries
      ensures Consistent() && objects == old(objects) - {path}
      ensures owned == old(owned) - {path} && pending == old(pending) - {path}
      ensures failed == old(failed) - {path} && stopRetries == old(stopRetries) - {path}
    {
      hide InFlight, Marked, Justified;
      ghost var was := Now();
      RemovedIsSound(was, path);
      objects := objects - {path};
      owned, pending, failed, stopRetries := owned - {path}, pending - {path}, failed - {path}, stopRetries - {path};
      assert Now() == Removed(was, path);
    }

    // An object that is no adapter goes.
    method Forget(path: string)
      requires Consistent() && path in objects && !objects[path].adapter
      modifies this`objects
      ensures Consistent() && objects == old(objects) - {path}
    {
      hide InFlight;
      ghost var was := Now();
      objects := objects - {path};
      forall other | other in pending
        ensures Marked(Now().At(other))
      {
        assert Marked(was.At(other));
      }
      forall other | Now().IsAdapter(other)
        ensures Justified(Now().At(other), Now().armed)
      {
        assert Justified(was.At(other), was.armed);
      }
    }

    // BlueZ went away: what it knew is gone, what the user wants stays.
    method Reset()
      requires Valid()
      modifies this
      ensures Valid() && !operational && requested == old(requested)
      ensures objects == map[] && calls == map[] && owned == pending == failed == {} && stopRetries == map[]
    {
      operational, objects := false, map[];
      owned, pending, failed, stopRetries, calls := {}, {}, {}, map[], map[];
    }

    // The objects that were there when BlueZ was asked for all of them.
    method PlaceAll(found: map<string, Shape>)
      requires Consistent() && objects == map[]
      modifies this`objects, this`nextSerial, this`syncArmed
      ensures Consistent() && Shapes(objects) == found
    {
      hide InFlight, Marked, Justified;
      var left := found.Keys;
      while left != {}
        invariant Consistent() && left <= found.Keys
        invariant Shapes(objects) == found - left
        decreases left
      {
        var path :| path in left;
        var noticed := *;
        InterfacesAdded(path, found[path].adapter, found[path].powered, noticed || found[path].adapter);
        left := left - {path};
      }
    }

    method Hear(e: Event)
      requires Consistent() && Sane(e)
      modifies this`objects, this`nextSerial, this`syncArmed, this`owned, this`pending, this`failed, this`stopRetries
      ensures Consistent() && Shapes(objects) == Heard(Shapes(old(objects)), e)
    {
      hide InFlight, Marked, Justified;
      match e
      case Added(path, adapter, powered, noticed) => InterfacesAdded(path, adapter, powered, noticed);
      case Changed(path, onAdapter, powered) => PropertiesChanged(path, onAdapter, powered);
      case Gone(path, whole, empty) => InterfacesRemoved(path, whole, empty);
    }

    /** The reply to the question for all objects. What the bus told in between was held back and
        is heard after it, in order; then discovery is brought in line with what the user wants. */
    method Load(found: Option<map<string, Shape>>, events: seq<Event>)
      requires Valid() && !operational && forall k :: 0 <= k < |events| ==> Sane(events[k])
      modifies this
      ensures Valid() && requested == old(requested) && (operational <==> found.Some?)
      ensures found.Some? ==> Shapes(objects) == HeardAll(found.value, events) && Now().(armed := false).Settled()
    {
      hide InFlight, Marked, Justified, Heard;
      if found.None? {
        Reset();
        return;
      }
      PlaceAll(found.value);
      for k := 0 to |events|
        invariant Consistent() && !operational && requested == old(requested)
        invariant Shapes(objects) == HeardAll(found.value, events[..k])
      {
        Hear(events[k]);
        assert events[..k + 1][..k] == events[..k];
      }
      assert events[..|events|] == events;
      operational := true;
      SyncAll();
    }
  }
}
