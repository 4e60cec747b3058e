/** Copying and moving an item into a folder, under each way to settle a name conflict. */
module FileMove {
  import opened Decimals
  import opened FileTree
  import opened OperationContext
  import opened Options

  // The two folders are all of the file system that these operations see. Other processes
  // leave them alone, and neither folder lies inside an item that the operation touches.

  datatype Result =
    | Published(name: string)
    | Skipped
    | Error(errno: int)

  const EEXIST: int := 17
  const EXDEV: int := 18
  const EINVAL: int := 22

  type Folders = map<nat, Entries>

  // ----- Names of kept items -----

  // The place of the last dot, or the length when there is none.
  function LastDot(name: string): (k: nat)
    ensures k <= |name|
    ensures k < |name| ==> name[k] == '.' && forall j :: k < j < |name| ==> name[j] != '.'
    ensures k == |name| ==> '.' !in name
  {
    if name == "" then 0
    else if name[|name| - 1] == '.' then |name| - 1
    else
      var k := LastDot(name[..|name| - 1]);
      if k == |name| - 1 then |name| else k
  }

  // "name (n).ext"; a folder's name has no extension, nor one that ends with its dot.
  function KeptName(name: string, isFolder: bool, suffix: nat): string {
    var dot := LastDot(name);
    if !isFolder && dot + 1 < |name| then name[..dot] + " (" + Decimal(suffix) + ")" + name[dot..]
    else name + " (" + Decimal(suffix) + ")"
  }

  // The extension of a name starts at its last dot, if anything follows it.
  ghost predicate ExtensionAt(name: string, dot: int) {
    && 0 <= dot < |name| - 1 && name[dot] == '.'
    && forall j :: dot < j < |name| ==> name[j] != '.'
  }

  // A name as it is kept beside another one: its number comes before the extension of a file, and
  // at the end of a folder's name or of one without an extension.
  ghost predicate IsKept(kept: string, name: string, isFolder: bool, n: nat) {
    var number := " (" + Decimal(n) + ")";
    if !isFolder && exists dot :: ExtensionAt(name, dot)
    then exists dot :: ExtensionAt(name, dot) && kept == name[..dot] + number + name[dot..]
    else kept == name + number
  }

  lemma KeptNameIs(name: string, isFolder: bool, n: nat)
    ensures IsKept(KeptName(name, isFolder, n), name, isFolder, n)
  {
    var dot := LastDot(name);
    assert !isFolder && dot + 1 < |name| ==> ExtensionAt(name, dot);
    if d :| ExtensionAt(name, d) {
      assert name[d] == '.';
    }
    hide ExtensionAt, Decimal, LastDot;
    if !isFolder && dot + 1 < |name| {
      NumberBetween(name[..dot], Decimal(n), name[dot..]);
    } else {
      NumberBetween(name, Decimal(n), "");
    }
  }

  lemma NumberBetween(before: string, digits: string, after: string)
    ensures before + " (" + digits + ")" + after == before + (" (" + digits + ")") + after
    ensures before + " (" + digits + ")" == before + (" (" + digits + ")")
  {
    assert before + " (" + digits + ")" == before + (" (" + digits + ")");
  }

  /** Two suffixes never give the same name, so the search for a free one ends. */
  lemma KeptNamesDiffer(name: string, isFolder: bool, a: nat, b: nat)
    requires KeptName(name, isFolder, a) == KeptName(name, isFolder, b)
    ensures a == b
  {
    var dot := LastDot(name);
    var base := if !isFolder && dot + 1 < |name| then name[..dot] else name;
    var extension := if !isFolder && dot + 1 < |name| then name[dot..] else "";
    var da, db := Decimal(a), Decimal(b);
    var ka, kb := base + " (" + da + ")" + extension, base + " (" + db + ")" + extension;
    assert ka == KeptName(name, isFolder, a) && kb == KeptName(name, isFolder, b);
    var n := |base| + 2;
    assert |da| == |db|;
    assert da == ka[n..n + |da|] == kb[n..n + |db|] == db;
    DecimalIsInjective(a, b);
  }

  lemma KeptNameHasSpace(name: string, isFolder: bool, suffix: nat)
    ensures ' ' in KeptName(name, isFolder, suffix)
  {
    var dot := LastDot(name);
    if !isFolder && dot + 1 < |name| {
      assert KeptName(name, isFolder, suffix)[dot] == ' ';
    } else {
      assert KeptName(name, isFolder, suffix)[|name|] == ' ';
    }
  }

  /** A folder holds only so many of the kept names, so one of them is free. */
  lemma {:induction false} KeptNamesRunOut(folder: Entries, name: string, isFolder: bool, n: nat)
    requires forall k :: 1 <= k <= n ==> KeptName(name, isFolder, k) in folder
    ensures n <= |folder|
    decreases n
  {
    if n > 0 {
      var last := KeptName(name, isFolder, n);
      var rest := folder - {last};
      forall k | 1 <= k <= n - 1
        ensures KeptName(name, isFolder, k) in rest
      {
        if KeptName(name, isFolder, k) == last {
          KeptNamesDiffer(name, isFolder, k, n);
        }
      }
      KeptNamesRunOut(rest, name, isFolder, n - 1);
      assert rest.Keys == folder.Keys - {last};
      assert |rest| == |rest.Keys| && |folder| == |folder.Keys|;
    }
  }

  // ----- Places -----

  datatype Place = Place(folder: nat, name: string)

  function At(f: Folders, p: Place): Option<Node> {
    if p.folder in f && p.name in f[p.folder] then Some(f[p.folder][p.name]) else None
  }

  function Put(f: Folders, p: Place, item: Option<Node>): (g: Folders)
    requires p.folder in f
    ensures g.Keys == f.Keys
    ensures forall q :: At(g, q) == if q == p then item else At(f, q)
  {
    f[p.folder := if item.None? then f[p.folder] - {p.name} else f[p.folder][p.name := item.value]]
  }

  // Nothing but these places differs.
  ghost predicate Only(before: Folders, now: Folders, places: set<Place>) {
    && now.Keys == before.Keys
    && forall q :: q !in places ==> At(now, q) == At(before, q)
  }

  // Renaming to a free name.
  method RenameExclusive(f: Folders, to: Place) returns (errno: int)
    ensures errno == 0 ==> At(f, to).None?
    ensures errno == EEXIST ==> At(f, to).Some?
  {
    errno := *;
    if At(f, to).Some? && errno == 0 {
      errno := EEXIST;
    } else if At(f, to).None? && errno == EEXIST {
      errno := EIO;
    }
  }

  // What the user chooses when asked, or to fail where nobody can be asked. A task never
  // passes the question back as the answer.
  method AskUser() returns (policy: Policy)
    ensures policy != Ask
  {
    policy := *;
    if policy == Ask {
      policy := Fail;
    }
  }

  // The policy for a name that is taken, asked for if need be; asking can end in a cancellation.
  method Settle(policy: Policy) returns (settled: Policy, o: Outcome)
    ensures settled != Ask && (policy != Ask ==> settled == policy && o.Done?)
  {
    settled, o := policy, Done;
    if settled == Ask {
      settled := AskUser();
      o := MayFail();
    }
  }

  // ----- One transfer -----

  class Transfer {
    const source: Place
    const target: Place
    // The random name the copy is staged under, in the target folder.
    const temporary: Place
    // The target is a folder, which has no extension to keep; a folder may be an
    // application bundle, which is replaced whole.
    const targetIsFolder: bool
    const targetIsBundle: bool
    ghost const original: Node
    ghost const initial: Folders
    var folders: Folders
    // The folders after each change so far.
    ghost var history: seq<Folders>
    // How the conflict was settled once the source may go; Ask until then.
    ghost var agreed: Policy

    constructor (folders: Folders, source: Place, target: Place, temporary: string, targetIsFolder: bool,
        targetIsBundle: bool)
      requires target.folder in folders && At(folders, source).Some?
      requires source != Place(target.folder, temporary)
      requires forall n :: KeptName(target.name, targetIsFolder, n) != temporary
      requires temporary != target.name && At(folders, Place(target.folder, temporary)).None?
      ensures Valid() && SourceIntact() && At(folders, this.temporary).None?
      ensures this.folders == folders && this.source == source && this.target == target
      ensures this.temporary == Place(target.folder, temporary)
      ensures original == At(folders, source).value && initial == folders && agreed == Ask && history == []
    {
      this.folders := folders;
      this.source, this.target := source, target;
      this.temporary := Place(target.folder, temporary);
      this.targetIsFolder, this.targetIsBundle := targetIsFolder, targetIsBundle;
      this.original, this.initial := At(folders, source).value, folders;
      this.history, this.agreed := [], Ask;
    }

    // The item is there, perhaps merged into a folder.
    ghost predicate HoldsOriginal(f: Folders, p: Place) {
      At(f, p).Some? && Holds(At(f, p).value, original)
    }

    // The item was published at the place, which the agreed policy gives it.
    ghost predicate PublishedAt(f: Folders, p: Place, policy: Policy) {
      p != temporary && p != source && PublishedAs(initial, f, p) && AllowedName(initial, p, policy)
    }

    ghost predicate WholeUnder(f: Folders, policy: Policy) {
      At(f, source) == Some(original) || exists p: Place :: PublishedAt(f, p, policy)
    }

    // Beside the target's folder only the source's own place ever changes.
    ghost predicate NothingElse(f: Folders) {
      forall q: Place :: q.folder != target.folder && q != source ==> At(f, q) == At(initial, q)
    }

    // The item exists whole, at its source or where it was published.
    ghost predicate Whole(f: Folders)
      reads this`agreed
    {
      WholeUnder(f, agreed) && NothingElse(f)
    }

    // Nothing was done yet.
    ghost predicate Untouched()
      reads this`folders, this`agreed
    {
      folders == initial && agreed == Ask
    }

    // While nothing is agreed, a name in use does not count as published; so nothing whole is
    // lost by agreeing.
    lemma AgreeingKeeps(f: Folders, policy: Policy)
      requires WholeUnder(f, Ask)
      ensures WholeUnder(f, policy)
    {
      if At(f, source) != Some(original) {
        var p :| PublishedAt(f, p, Ask);
        assert PublishedAt(f, p, policy);
      }
    }

    ghost method Agree(policy: Policy)
      requires Valid() && agreed == Ask
      modifies this`agreed
      ensures Valid() && agreed == policy
    {
      AgreeingKeeps(folders, policy);
      forall k | 0 <= k < |history|
        ensures WholeUnder(history[k], policy)
      {
        AgreeingKeeps(history[k], policy);
      }
      agreed := policy;
    }

    ghost predicate Valid()
      reads this
    {
      && target.folder in folders && source.folder in folders
      && Whole(folders)
      && (forall k :: 0 <= k < |history| ==> Whole(history[k]))
      && temporary.folder == target.folder && temporary != target && temporary != source
      && forall n :: KeptName(target.name, targetIsFolder, n) != temporary.name
    }

    ghost predicate SourceIntact()
      reads this
    {
      At(folders, source) == Some(original)
    }

    // The item as published: alone, or over the folder that was there.
    ghost predicate PublishedAs(before: Folders, now: Folders, p: Place) {
      && At(now, p).Some?
      && (At(now, p).value == original
          || (At(before, p).Some? && At(before, p).value.Dir? && original.Dir?
              && At(now, p).value == Overlay(original, At(before, p).value)))
    }

    // What counts as published holds all of the item.
    lemma PublishedIsWhole(before: Folders, now: Folders, p: Place)
      requires PublishedAs(before, now, p)
      ensures HoldsOriginal(now, p)
    {
      HoldsItself(original);
      if At(before, p).Some? {
        OverlayHoldsStaged(original, At(before, p).value);
      }
    }

    ghost predicate InUse(before: Folders, n: nat) {
      At(before, Place(target.folder, KeptName(target.name, targetIsFolder, n))).Some?
    }

    // The first kept name that is free.
    ghost predicate FirstKept(before: Folders, name: string, n: nat) {
      && n >= 1 && name == KeptName(target.name, targetIsFolder, n) && !InUse(before, n)
      && forall k :: 1 <= k < n ==> InUse(before, k)
    }

    // The name the policy gives: the wanted one if it is free; one in use only to replace it,
    // else the first free one beside it.
    ghost predicate AllowedName(before: Folders, p: Place, settled: Policy) {
      && p.folder == target.folder
      && if At(before, target).None? then p == target
         else if p == target then settled == Replace
         else settled == KeepBoth && exists n :: FirstKept(before, p.name, n)
    }

    // The name with that number is taken.
    ghost predicate NumberTaken(before: Folders, n: nat) {
      exists taken ::
        IsKept(taken, target.name, targetIsFolder, n) && At(before, Place(target.folder, taken)).Some?
    }

    /** An item that is kept beside a name in use has that name with the first number that gives a
        free one, counted from 1. */
    lemma KeptBeside(before: Folders, p: Place, settled: Policy) returns (n: nat)
      requires AllowedName(before, p, settled) && At(before, target).Some? && p != target
      ensures n >= 1 && IsKept(p.name, target.name, targetIsFolder, n) && At(before, p).None?
      ensures forall k :: 1 <= k < n ==> NumberTaken(before, k)
    {
      hide KeptName, IsKept;
      n :| FirstKept(before, p.name, n);
      KeptNameIs(target.name, targetIsFolder, n);
      forall k | 1 <= k < n
        ensures NumberTaken(before, k)
      {
        KeptNameIs(target.name, targetIsFolder, k);
        assert InUse(before, k);
      }
    }

    lemma SuffixBound(n: nat)
      requires target.folder in folders && forall k :: 1 <= k <= n ==> InUse(folders, k)
      ensures n <= |folders[target.folder]|
    {
      forall k | 1 <= k <= n
        ensures KeptName(target.name, targetIsFolder, k) in folders[target.folder]
      {
        assert InUse(folders, k);
      }
      KeptNamesRunOut(folders[target.folder], target.name, targetIsFolder, n);
    }

    // What is staged has no say in the name.
    lemma AllowedWhileStaged(before: Folders, staged: Folders, p: Place, settled: Policy)
      requires Valid() && Only(before, staged, {temporary}) && AllowedName(staged, p, settled)
      ensures AllowedName(before, p, settled)
    {
      forall k: nat
        ensures InUse(before, k) == InUse(staged, k)
      {
        assert Place(target.folder, KeptName(target.name, targetIsFolder, k)) != temporary;
      }
      if At(staged, target).Some? && p != target {
        var n :| FirstKept(staged, p.name, n);
        assert FirstKept(before, p.name, n);
      }
    }

    // ----- Steps -----

    method Become(f: Folders)
      requires Valid() && Whole(f) && f.Keys == folders.Keys
      modifies this`folders, this`history
      ensures Valid() && folders == f && history == old(history) + [f]
    {
      folders := f;
      history := history + [f];
    }

    // Work on two places in unknown steps, seen at every step by other processes.
    method Work(a: Place, b: Place)
      requires Valid() && a.folder in folders && b.folder in folders
      requires forall f :: Only(folders, f, {a, b}) ==> Whole(f)
      modifies this`folders, this`history
      ensures Valid() && Only(old(folders), folders, {a, b})
    {
      ghost var before := folders;
      var steps: nat := *;
      while steps > 0
        invariant Valid() && Only(before, folders, {a, b})
      {
        var x: Option<Node>, y: Option<Node> := *, *;
        var next := Put(Put(folders, a, x), b, y);
        assert Only(before, next, {a, b});
        Become(next);
        steps := steps - 1;
      }
    }

    // Erases what is at a place, item by item; where it stops, a part is left.
    method Erase(p: Place) returns (o: Outcome)
      requires Valid() && p.folder in folders
      requires forall f :: Only(folders, f, {p}) ==> Whole(f)
      modifies this`folders, this`history
      ensures Valid() && Only(old(folders), folders, {p})
      ensures o.Done? <==> At(folders, p).None?
    {
      assert forall f :: Only(folders, f, {p, p}) ==> Only(folders, f, {p});
      Work(p, p);
      o := MayFail();
      if At(folders, p).None? {
        return Done;
      }
      if o.Done? {
        var erased := Put(folders, p, None);
        assert Only(old(folders), erased, {p});
        Become(erased);
      }
    }

    // ----- Publishing what was staged -----

    // With the source in place, nothing done elsewhere can lose the item.
    lemma ElsewhereIsWhole(f: Folders, places: set<Place>)
      requires At(folders, source) == Some(original) && source !in places && Only(folders, f, places)
      requires NothingElse(folders) && forall p :: p in places ==> p.folder == target.folder
      ensures Whole(f)
    {
    }

    // Puts the staged item in the place of the one that has the name.
    method ReplaceTarget() returns (o: Outcome)
      requires Valid() && SourceIntact() && source != target
      requires At(folders, temporary) == Some(original)
      modifies this`folders, this`history
      ensures Valid() && SourceIntact() && Only(old(folders), folders, {temporary, target})
      ensures o.Done? ==> PublishedAs(old(folders), folders, target) && At(folders, temporary).None?
    {
      o := MayFail();
      if o.Failed? {
        return;
      }
      if At(folders, target).None? {
        return Failed(EIO);
      }
      var from, to := At(folders, temporary).value, At(folders, target).value;
      ghost var before := folders;
      if from.Dir? && to.Dir? && targetIsBundle {
        o := MayFail();
        if o.Failed? {
          return;
        }
        Become(Put(Put(folders, temporary, Some(to)), target, Some(from)));
        forall f | Only(folders, f, {temporary})
          ensures Whole(f)
        {
          ElsewhereIsWhole(f, {temporary});
        }
        o := Erase(temporary);
      } else if from.Dir? && to.Dir? {
        o := MergeFolders(from, to);
      } else {
        o := RenameOver(from, folders[target.folder], target.name);
        if o.Done? {
          Become(Put(Put(folders, temporary, None), target, Some(from)));
        }
      }
    }

    // Merges the staged folder into the one that has the name.
    method MergeFolders(from: Node, to: Node) returns (o: Outcome)
      requires Valid() && SourceIntact() && source != target
      requires from == original && from.Dir? && to.Dir?
      requires At(folders, temporary) == Some(from) && At(folders, target) == Some(to)
      modifies this`folders, this`history
      ensures Valid() && SourceIntact() && Only(old(folders), folders, {temporary, target})
      ensures o.Done? ==> PublishedAs(old(folders), folders, target) && At(folders, temporary).None?
    {
      var left, merged;
      o, left, merged := MergeStaged(from.entries, to.entries);
      forall f | Only(folders, f, {temporary, target})
        ensures Whole(f)
      {
        ElsewhereIsWhole(f, {temporary, target});
      }
      ghost var before := folders;
      Work(temporary, target);
      Become(Put(Put(folders, temporary, Some(Dir(left))), target, Some(Dir(merged))));
      if o.Failed? {
        return;
      }
      o := MayFail();
      if o.Done? {
        Become(Put(folders, temporary, None));
        assert Dir(merged) == Overlay(original, to);
      }
    }

    // Renames the staged item to a free name.
    method GiveName(p: Place)
      requires Valid() && SourceIntact() && At(folders, temporary) == Some(original)
      requires p.folder == target.folder && p != temporary && At(folders, p).None?
      modifies this`folders, this`history
      ensures Valid() && SourceIntact() && At(folders, temporary).None?
      ensures PublishedAs(old(folders), folders, p) && Only(old(folders), folders, {temporary, p})
    {
      Become(Put(Put(folders, temporary, None), p, At(folders, temporary)));
    }

    /** Gives the staged item its name. The source stays; no item of the target folder is
        touched unless the conflict is settled by replacing, and the search for a free name ends. */
    method Publish(policy: Policy) returns (r: Result, settled: Policy)
      requires Valid() && SourceIntact() && At(folders, temporary) == Some(original)
      requires source == target ==> policy == KeepBoth
      modifies this`folders, this`history
      ensures Valid() && SourceIntact()
      ensures policy != Ask ==> settled == policy
      ensures r.Published? ==>
                var p := Place(target.folder, r.name);
                && PublishedAs(old(folders), folders, p) && AllowedName(old(folders), p, settled)
                && Only(old(folders), folders, {temporary, p}) && At(folders, temporary).None?
      ensures r.Skipped? ==> settled == Skip && At(old(folders), target).Some? && folders == old(folders)
      ensures r.Error? ==> Only(old(folders), folders, {temporary} + if settled == Replace then {target} else {})
    {
      hide KeptName, Holds, Overlay;
      settled := policy;
      var p := target;
      var suffix: nat := 1;
      while true
        invariant Valid() && folders == old(folders)
        invariant policy != Ask ==> settled == policy
        invariant source == target ==> settled == KeepBoth
        invariant suffix >= 1 && p.folder == target.folder && p != temporary
        invariant if suffix == 1 then p == target
                  else settled == KeepBoth && p.name == KeptName(target.name, targetIsFolder, suffix - 1)
        invariant suffix >= 2 ==> At(folders, target).Some?
        invariant forall k :: 1 <= k < suffix - 1 ==> InUse(folders, k)
        decreases |folders[target.folder]| + 2 - suffix
      {
        if suffix >= 2 {
          SuffixBound(suffix - 2);
        }
        var errno := RenameExclusive(folders, p);
        if errno == 0 {
          assert suffix >= 2 ==> FirstKept(folders, p.name, suffix - 1);
          GiveName(p);
          return Published(p.name), settled;
        }
        if errno != EEXIST {
          return Error(errno), settled;
        }
        var o;
        settled, o := Settle(settled);
        if o.Failed? {
          return Error(o.errno), settled;
        }
        if settled == Skip {
          return Skipped, settled;
        }
        if settled == Fail {
          return Error(EEXIST), settled;
        }
        if settled == Replace {
          o := ReplaceTarget();
          return if o.Failed? then Error(o.errno) else Published(target.name), settled;
        }
        p := Place(target.folder, KeptName(target.name, targetIsFolder, suffix));
        suffix := suffix + 1;
      }
    }

    // ----- Copying -----

    // Copies the source under the temporary name.
    method Stage() returns (o: Outcome)
      requires Valid() && SourceIntact()
      modifies this`folders, this`history
      ensures Valid() && SourceIntact() && Only(old(folders), folders, {temporary})
      ensures o.Done? ==> At(folders, temporary) == Some(original)
    {
      forall f | Only(folders, f, {temporary, temporary})
        ensures Whole(f)
      {
        ElsewhereIsWhole(f, {temporary, temporary});
      }
      Work(temporary, temporary);
      o := MayFail();
      if o.Done? {
        Become(Put(folders, temporary, At(folders, source)));
      }
    }

    // Erases what is staged, however far that gets.
    method CleanUp() returns (o: Outcome)
      requires Valid() && SourceIntact()
      modifies this`folders, this`history
      ensures Valid() && SourceIntact() && Only(old(folders), folders, {temporary})
      ensures o.Done? ==> At(folders, temporary).None?
    {
      forall f | Only(folders, f, {temporary})
        ensures Whole(f)
      {
        ElsewhereIsWhole(f, {temporary});
      }
      o := Erase(temporary);
    }

    /** Copies the item into the target folder. A copy onto itself asks nobody: it is kept
        beside the original, or refused. */
    method Copy(policy: Policy) returns (r: Result, settled: Policy)
      requires Valid() && SourceIntact()
      modifies this`folders, this`history
      ensures Valid() && SourceIntact()
      ensures policy != Ask ==> settled == policy
      ensures source == target && policy == Ask ==> settled == KeepBoth
      ensures source == target && settled != KeepBoth ==> r.Error? && folders == old(folders)
      ensures r.Published? ==>
                var p := Place(target.folder, r.name);
                && p != temporary && p != source
                && PublishedAs(old(folders), folders, p) && AllowedName(old(folders), p, settled)
                && Only(old(folders), folders, {temporary, p}) && At(folders, temporary).None?
      ensures r.Skipped? ==>
                && settled == Skip && At(old(folders), target).Some?
                && Only(old(folders), folders, {temporary}) && At(folders, temporary).None?
      ensures r.Error? ==> Only(old(folders), folders, {temporary} + if settled == Replace then {target} else {})
    {
      hide KeptName, Holds, Overlay;
      settled := if source == target && policy == Ask then KeepBoth else policy;
      if source == target && settled != KeepBoth {
        return Error(EINVAL), settled;
      }
      var checked := MayFail();
      if checked.Failed? {
        return Error(checked.errno), settled;
      }
      var o := Stage();
      if o.Done? {
        o := MayFail();
      }
      if o.Failed? {
        var cleaned := CleanUp();
        return Error(o.errno), settled;
      }
      ghost var staged := folders;
      r, settled := Publish(settled);
      if r.Published? {
        AllowedWhileStaged(old(folders), staged, Place(target.folder, r.name), settled);
        return;
      }
      o := CleanUp();
      if r.Skipped? && o.Failed? {
        r := Error(o.errno);
      }
    }

    // ----- Moving -----

    // Renames the source to the first free name beside the one that is taken.
    method KeepBeside() returns (errno: int, p: Place)
      requires Valid() && SourceIntact() && Untouched() && source != target && At(folders, target).Some?
      modifies this
      ensures Valid() && p.folder == target.folder && p != temporary
      ensures errno == 0 ==> AllowedName(old(folders), p, KeepBoth) && Renamed(old(folders), folders, p)
      ensures errno != 0 ==> Untouched()
    {
      hide KeptName, Holds, Overlay;
      var suffix: nat := 1;
      while true
        invariant Valid() && Untouched() && suffix >= 1
        invariant forall k :: 1 <= k < suffix ==> InUse(folders, k)
        decreases |folders[target.folder]| + 2 - suffix
      {
        SuffixBound(suffix - 1);
        p := Place(target.folder, KeptName(target.name, targetIsFolder, suffix));
        errno := RenameExclusive(folders, p);
        if errno == 0 {
          assert FirstKept(folders, p.name, suffix);
          Rename(p, KeepBoth);
          return;
        }
        if errno != EEXIST {
          return;
        }
        suffix := suffix + 1;
      }
    }

    // The item left its source for the place.
    ghost predicate Renamed(before: Folders, now: Folders, p: Place) {
      && At(now, p) == Some(original) && At(now, source).None?
      && Only(before, now, {source, p})
    }

    method Rename(p: Place, ghost policy: Policy)
      requires Valid() && SourceIntact() && Untouched() && p != temporary && p != source
      requires AllowedName(folders, p, policy)
      modifies this
      ensures Valid() && Renamed(old(folders), folders, p)
    {
      var moved := Put(Put(folders, source, None), p, At(folders, source));
      Agree(policy);
      assert PublishedAt(moved, p, agreed);
      Become(moved);
    }

    // The name is taken: settles the conflict, and renames where the policy lets it.
    method SettleByRename(policy: Policy) returns (done: bool, r: Result, settled: Policy)
      requires Valid() && SourceIntact() && Untouched() && source != target && At(folders, target).Some?
      modifies this
      ensures Valid() && settled != Ask
      ensures policy != Ask ==> settled == policy
      ensures !done ==> Untouched() && settled in {KeepBoth, Replace}
      ensures done && r.Published? ==>
                var p := Place(target.folder, r.name);
                && p != source && Renamed(old(folders), folders, p) && AllowedName(old(folders), p, settled)
                && (At(old(folders), p).Some? && original.Dir? ==> At(old(folders), p).value == Dir(map[]))
      ensures done && !r.Published? ==> folders == old(folders)
      ensures done && r.Skipped? ==> settled == Skip
    {
      done, r, settled := true, Error(EEXIST), policy;
      var o;
      settled, o := Settle(settled);
      if o.Failed? {
        r := Error(o.errno);
        return;
      }
      match settled
      case Skip =>
        r := Skipped;
      case Fail =>
      case Ask =>
      case KeepBoth =>
        var errno, p := KeepBeside();
        if errno == 0 {
          r := Published(p.name);
        } else {
          done := false;
        }
      case Replace =>
        o := MayFail();
        if o.Failed? {
          r := Error(o.errno);
          return;
        }
        o := RenameOver(At(folders, source).value, folders[target.folder], target.name);
        if o.Done? {
          Rename(target, Replace);
          r := Published(target.name);
        } else if o.errno == EXDEV || o.errno == ENOTEMPTY || o.errno == EEXIST {
          done := false;
        } else {
          r := Error(o.errno);
        }
    }

    // Copies, and erases the source once the copy is published and on the disk.
    method CopyAcross(policy: Policy) returns (r: Result, settled: Policy)
      requires Valid() && SourceIntact() && Untouched() && source != target && At(folders, temporary).None?
      modifies this
      ensures Valid()
      ensures policy != Ask ==> settled == policy
      ensures r.Published? ==>
                var p := Place(target.folder, r.name);
                && p != source && At(folders, source).None? && At(folders, temporary).None?
                && PublishedAs(old(folders), folders, p) && AllowedName(old(folders), p, settled)
                && Only(old(folders), folders, {source, p, temporary})
      ensures r.Skipped? ==> settled == Skip && At(old(folders), target).Some? && Only(old(folders), folders, {})
      ensures r.Error? ==> Interrupted(old(folders), folders, settled)
    {
      hide KeptName, Holds, Overlay;
      r, settled := Copy(policy);
      if !r.Published? {
        return;
      }
      var p := Place(target.folder, r.name);
      Agree(settled);
      forall f | Only(folders, f, {source})
        ensures Whole(f)
      {
        assert PublishedAt(f, p, agreed);
      }
      var o := MayFail();
      if o.Done? {
        o := Erase(source);
      }
      if o.Failed? {
        r := Error(o.errno);
        assert PublishedAs(old(folders), folders, p);
      }
    }

    // What a move that failed leaves: the source as it was, or the item published.
    ghost predicate Interrupted(before: Folders, now: Folders, settled: Policy) {
      || (At(now, source) == Some(original)
          && Only(before, now, {temporary} + if settled == Replace then {target} else {}))
      || (At(now, source).Some?
          && exists p ::
               PublishedAs(before, now, p) && AllowedName(before, p, settled)
               && Only(before, now, {source, p, temporary}))
    }

    /** Moves the item: by a rename where that will do, else by a copy that is published
        before its source goes. At every step the item is whole, at its source or at the place
        it was published at; other items are touched only when the conflict is settled by replacing. */
    method Move(policy: Policy) returns (r: Result, settled: Policy)
      requires Valid() && SourceIntact() && Untouched() && At(folders, temporary).None?
      modifies this
      ensures Valid()
      ensures policy != Ask ==> settled == policy
      ensures r.Published? ==>
                var p := Place(target.folder, r.name);
                && p != source && At(folders, source).None? && At(folders, temporary).None?
                && PublishedAs(old(folders), folders, p) && AllowedName(old(folders), p, settled)
                && Only(old(folders), folders, {source, p, temporary})
      ensures r.Skipped? ==> settled == Skip && At(old(folders), target).Some? && Only(old(folders), folders, {})
      ensures r.Error? ==> Interrupted(old(folders), folders, settled)
    {
      hide KeptName, Holds, Overlay;
      settled := policy;
      if source == target {
        return Error(EINVAL), settled;
      }
      var o := MayFail();
      if o.Failed? {
        return Error(o.errno), settled;
      }
      var errno := RenameExclusive(folders, target);
      if errno == 0 {
        Rename(target, policy);
        return Published(target.name), settled;
      }
      if errno == EEXIST {
        var done;
        done, r, settled := SettleByRename(policy);
        if done {
          return;
        }
      } else if errno != EXDEV {
        return Error(errno), settled;
      }
      r, settled := CopyAcross(settled);
    }
  }
}
