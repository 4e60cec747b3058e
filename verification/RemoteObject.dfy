/** A Bluetooth object's cached properties. Every change of a property gets a revision of its
    own, so a property fetched again late overwrites nothing that changed meanwhile. */
module RemoteObject {

  type Value = string
  type Properties = map<string, Value>

  datatype State = State(interfaces: map<string, Properties>, revisions: map<string, map<string, nat>>, revision: nat) {

    function ValueOf(interface: string, key: string): Properties {
      if interface in interfaces && key in interfaces[interface] then map[key := interfaces[interface][key]] else map[]
    }

    // The revision of a property's last change; 0 when there was none.
    function RevisionOf(interface: string, key: string): nat {
      if interface in revisions && key in revisions[interface] then revisions[interface][key] else 0
    }

    // Revisions count up, and no two properties share one.
    ghost predicate Valid() {
      && (forall interface, key :: RevisionOf(interface, key) <= revision)
      && forall i, k, j, l :: RevisionOf(i, k) == RevisionOf(j, l) > 0 ==> i == j && k == l
    }

    // One property changes: it gets a value, or loses it.
    function Change(interface: string, key: string, value: Properties): State {
      var values := if interface in interfaces then interfaces[interface] else map[];
      var stamps := if interface in revisions then revisions[interface] else map[];
      State(interfaces[interface := if key in value then values[key := value[key]] else values - {key}],
            revisions[interface := stamps[key := revision + 1]], revision + 1)
    }

    function RemoveInterface(interface: string): State {
      State(interfaces - {interface}, revisions - {interface}, revision)
    }
  }

  lemma ChangeIsValid(s: State, interface: string, key: string, value: Properties)
    requires s.Valid()
    ensures s.Change(interface, key, value).Valid()
  {
    var now := s.Change(interface, key, value);
    forall i, k
      ensures now.RevisionOf(i, k) == if i == interface && k == key then now.revision else s.RevisionOf(i, k)
    {
    }
  }

  lemma RemoveIsValid(s: State, interface: string)
    requires s.Valid()
    ensures s.RemoveInterface(interface).Valid()
  {
    var now := s.RemoveInterface(interface);
    forall i, k
      ensures now.RevisionOf(i, k) == if i == interface then 0 else s.RevisionOf(i, k)
    {
    }
  }

  // What the bus tells about an object, in order.
  datatype Event =
    | Changed(interface: string, key: string, value: Properties)
    | Removed(interface: string)

  function After(s: State, events: seq<Event>): State {
    if events == [] then s
    else
      var before := After(s, events[..|events| - 1]);
      match events[|events| - 1]
      case Changed(interface, key, value) => before.Change(interface, key, value)
      case Removed(interface) => before.RemoveInterface(interface)
  }

  predicate Touches(event: Event, interface: string, key: string) {
    event.interface == interface && (event.Removed? || event.key == key)
  }

  ghost predicate Touched(events: seq<Event>, interface: string, key: string) {
    exists k :: 0 <= k < |events| && Touches(events[k], interface, key)
  }

  lemma {:induction false} AfterIsValid(s: State, events: seq<Event>)
    requires s.Valid()
    ensures After(s, events).Valid() && After(s, events).revision >= s.revision
  {
    if events != [] {
      var before := After(s, events[..|events| - 1]);
      AfterIsValid(s, events[..|events| - 1]);
      match events[|events| - 1]
      case Changed(interface, key, value) => ChangeIsValid(before, interface, key, value);
      case Removed(interface) => RemoveIsValid(before, interface);
    }
  }

  /** A property keeps its revision just as long as nothing touches it, and then its value too. */
  lemma {:induction false} RevisionTells(s: State, events: seq<Event>, interface: string, key: string)
    requires s.Valid() && s.RevisionOf(interface, key) > 0
    ensures var now := After(s, events);
            && (now.RevisionOf(interface, key) == s.RevisionOf(interface, key) <==> !Touched(events, interface, key))
            && (!Touched(events, interface, key) ==> now.ValueOf(interface, key) == s.ValueOf(interface, key))
            && (Touched(events, interface, key) ==>
                  now.RevisionOf(interface, key) == 0 || now.RevisionOf(interface, key) > s.revision)
  {
    if events != [] {
      var n := |events| - 1;
      var rest, last := events[..n], events[n];
      RevisionTells(s, rest, interface, key);
      AfterIsValid(s, rest);
      TouchedMore(rest, last, interface, key);
      assert events == rest + [last];
    }
  }

  lemma TouchedMore(events: seq<Event>, last: Event, interface: string, key: string)
    ensures Touched(events + [last], interface, key) <==>
            Touched(events, interface, key) || Touches(last, interface, key)
  {
    var more := events + [last];
    if k :| 0 <= k < |events| && Touches(events[k], interface, key) {
      assert Touches(more[k], interface, key);
    }
    if Touches(last, interface, key) {
      assert Touches(more[|events|], interface, key);
    }
  }

  class BluetoothObject {
    var interfaces: map<string, Properties>
    var revisions: map<string, map<string, nat>>
    var revision: nat

    constructor ()
      ensures Now() == State(map[], map[], 0) && Now().Valid()
    {
      interfaces, revisions, revision := map[], map[], 0;
    }

    function Now(): State
      reads this
    {
      State(interfaces, revisions, revision)
    }

    method Change(interface: string, key: string, value: Properties)
      requires Now().Valid()
      modifies this
      ensures Now() == old(Now()).Change(interface, key, value) && Now().Valid()
    {
      ChangeIsValid(Now(), interface, key, value);
      var values := if interface in interfaces then interfaces[interface] else map[];
      var stamps := if interface in revisions then revisions[interface] else map[];
      interfaces := interfaces[interface := if key in value then values[key := value[key]] else values - {key}];
      revision := revision + 1;
      revisions := revisions[interface := stamps[key := revision]];
    }

    method RemoveInterface(interface: string)
      requires Now().Valid()
      modifies this
      ensures Now() == old(Now()).RemoveInterface(interface) && Now().Valid()
    {
      RemoveIsValid(Now(), interface);
      interfaces := interfaces - {interface};
      revisions := revisions - {interface};
    }

    /** An invalidated property arrives after being fetched again. It is taken just when nothing
        touched the property since it was asked for, whatever else happened to the object. */
    method Refetched(interface: string, key: string, asked: nat, value: Properties, ghost before: State,
        ghost since: seq<Event>)
      returns (taken: bool)
      requires before.Valid() && before.RevisionOf(interface, key) == asked > 0 && Now() == After(before, since)
      requires key in value
      modifies this
      ensures Now().Valid() && (taken <==> !Touched(since, interface, key))
      ensures if taken then Now() == old(Now()).Change(interface, key, value) else Now() == old(Now())
    {
      AfterIsValid(before, since);
      RevisionTells(before, since, interface, key);
      taken := Now().RevisionOf(interface, key) == asked;
      if taken {
        Change(interface, key, value);
      }
    }
  }
}
