/** Folders as trees, and the merge of a staged copy into a folder that exists already. */
module FileTree {
  import opened OperationContext

  // Files and links are leaves: a merge moves them whole.
  datatype Node =
    | Leaf(contents: string)
    | Dir(entries: map<string, Node>)

  type Entries = map<string, Node>

  // What both hold, the staged item winning; two folders are merged in turn.
  function Overlay(staged: Node, target: Node): Node
    decreases staged
  {
    if !staged.Dir? || !target.Dir? then staged
    else
      Dir(map name | name in staged.entries.Keys + target.entries.Keys ::
            if name !in staged.entries then target.entries[name]
            else if name !in target.entries then staged.entries[name]
            else Overlay(staged.entries[name], target.entries[name]))
  }

  // No folder meets anything but a folder.
  ghost predicate SameKinds(staged: Node, target: Node)
    decreases staged
  {
    && (staged.Dir? <==> target.Dir?)
    && (staged.Dir? ==> forall name :: name in staged.entries && name in target.entries ==>
                          SameKinds(staged.entries[name], target.entries[name]))
  }

  // Everything of `part` is in `whole`, in the same place.
  ghost predicate Holds(whole: Node, part: Node)
    decreases part
  {
    match part
    case Leaf(_) => whole == part
    case Dir(entries) => whole.Dir? && forall name :: name in entries ==>
      name in whole.entries && Holds(whole.entries[name], entries[name])
  }

  lemma {:induction false} HoldsItself(n: Node)
    ensures Holds(n, n)
    decreases n
  {
    if n.Dir? {
      forall name | name in n.entries
        ensures Holds(n.entries[name], n.entries[name])
      {
        HoldsItself(n.entries[name]);
      }
    }
  }

  /** The overlay holds all of the staged tree. */
  lemma {:induction false} OverlayHoldsStaged(staged: Node, target: Node)
    ensures Holds(Overlay(staged, target), staged)
    decreases staged
  {
    if staged.Dir? && target.Dir? {
      forall name | name in staged.entries
        ensures Holds(Overlay(staged, target).entries[name], staged.entries[name])
      {
        if name in target.entries {
          OverlayHoldsStaged(staged.entries[name], target.entries[name]);
        } else {
          HoldsItself(staged.entries[name]);
        }
      }
    } else {
      HoldsItself(staged);
    }
  }

  /** Every place of the target that the staged tree leaves alone is as it was. */
  lemma OverlayKeepsTarget(staged: Node, target: Node, name: string)
    requires staged.Dir? && target.Dir? && name in target.entries && name !in staged.entries
    ensures Overlay(staged, target).entries[name] == target.entries[name]
  {
  }

  lemma OverlayEmpty(target: Entries)
    ensures Overlay(Dir(map[]), Dir(target)) == Dir(target)
  {
    assert Overlay(Dir(map[]), Dir(target)).entries == target;
  }

  lemma SameElsewhere(m: Entries, m': Entries, name: string)
    requires m' - {name} == m - {name}
    ensures forall n :: n != name ==> (n in m' <==> n in m)
    ensures forall n :: n != name && n in m ==> m'[n] == m[n]
  {
    forall n | n != name
      ensures n in m' <==> n in m
      ensures n in m ==> m'[n] == m[n]
    {
      assert n in m' - {name} <==> n in m - {name};
      if n in m {
        assert (m' - {name})[n] == (m - {name})[n];
      }
    }
  }

  // Changing one name on both sides keeps the overlay when the overlay of that name is kept.
  lemma OverlayAt(s: Entries, t: Entries, s': Entries, t': Entries, name: string)
    requires s' - {name} == s - {name} && t' - {name} == t - {name}
    requires name in Overlay(Dir(s), Dir(t)).entries && name in Overlay(Dir(s'), Dir(t')).entries
    requires Overlay(Dir(s'), Dir(t')).entries[name] == Overlay(Dir(s), Dir(t)).entries[name]
    ensures Overlay(Dir(s'), Dir(t')) == Overlay(Dir(s), Dir(t))
  {
    var o, o' := Overlay(Dir(s), Dir(t)).entries, Overlay(Dir(s'), Dir(t')).entries;
    SameElsewhere(s, s', name);
    SameElsewhere(t, t', name);
    assert o'.Keys == o.Keys;
    assert forall n :: n in o ==> o'[n] == o[n];
  }

  const EISDIR: int := 21
  const ENOTDIR: int := 20
  const EIO: int := 5
  const ENOTEMPTY: int := 39

  // A call that may fail for reasons of its own.
  method MayFail() returns (o: Outcome)
  {
    o := *;
  }

  // Renaming over an item: the kernel replaces no folder by a file, no file by a folder and
  // no folder that has entries.
  method RenameOver(from: Node, target: Entries, name: string) returns (o: Outcome)
    ensures o.Done? && name in target ==> from.Dir? == target[name].Dir?
    ensures o.Done? && name in target && from.Dir? ==> target[name] == Dir(map[])
  {
    if name in target && from.Dir? != target[name].Dir? {
      return Failed(if from.Dir? then ENOTDIR else EISDIR);
    }
    if name in target && from.Dir? && target[name].entries != map[] {
      return Failed(ENOTEMPTY);
    }
    o := *;
  }

  /** Moves what is staged into the target, folder by folder. Whenever it stops, what is still
      staged laid over the target is what it was at the start, so nothing is lost and a merge
      begun can be finished; when it ends well the target is that overlay and nothing is left. */
  method MergeStaged(staged: Entries, target: Entries) returns (o: Outcome, left: Entries, merged: Entries)
    ensures Overlay(Dir(left), Dir(merged)) == Overlay(Dir(staged), Dir(target))
    ensures o.Done? ==> left == map[] && Dir(merged) == Overlay(Dir(staged), Dir(target))
    ensures o.Done? ==> SameKinds(Dir(staged), Dir(target))
    decreases Dir(staged), 1
  {
    left, merged := staged, target;
    var names := staged.Keys;
    while names != {}
      invariant names <= staged.Keys && left.Keys == names
      invariant forall n :: n in names ==> left[n] == staged[n]
      invariant forall n :: n in names ==> (n in merged <==> n in target) && (n in target ==> merged[n] == target[n])
      invariant forall n :: n in staged && n !in names && n in target ==> SameKinds(staged[n], target[n])
      invariant Overlay(Dir(left), Dir(merged)) == Overlay(Dir(staged), Dir(target))
      decreases names
    {
      var name :| name in names;
      var cancelled := MayFail();
      if cancelled.Failed? {
        return cancelled, left, merged;
      }
      ghost var was := merged;
      o, left, merged := MergeOne(staged, target, left, merged, name);
      SameElsewhere(was, merged, name);
      if o.Failed? {
        return;
      }
      names := names - {name};
    }
    assert left == map[];
    OverlayEmpty(merged);
    return Done, left, merged;
  }

  // One name of the staged folder.
  method MergeOne(ghost staged: Entries, ghost target: Entries, left: Entries, merged: Entries, name: string)
    returns (o: Outcome, left': Entries, merged': Entries)
    requires name in left && name in staged && left[name] == staged[name]
    requires name in merged <==> name in target
    requires name in merged ==> merged[name] == target[name]
    ensures left' - {name} == left - {name} && merged' - {name} == merged - {name}
    ensures Overlay(Dir(left'), Dir(merged')) == Overlay(Dir(left), Dir(merged))
    ensures o.Done? ==> left' == left - {name}
    ensures o.Done? && name in target ==> SameKinds(staged[name], target[name])
    decreases Dir(staged), 0
  {
    left', merged' := left, merged;
    var from := left[name];
    if from.Dir? && name in merged && merged[name].Dir? {
      var s, t;
      o, s, t := MergeStaged(from.entries, merged[name].entries);
      left', merged' := left[name := Dir(s)], merged[name := Dir(t)];
      OverlayAt(left, merged, left', merged', name);
      if o.Failed? {
        return;
      }
      o := MayFail();
      if o.Done? {
        left' := left' - {name};
        OverlayEmpty(t);
        OverlayAt(left, merged, left', merged', name);
      }
    } else {
      o := RenameOver(from, merged, name);
      if o.Done? {
        left', merged' := left - {name}, merged[name := from];
        OverlayAt(left, merged, left', merged', name);
      }
    }
  }
}
