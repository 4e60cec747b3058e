/** One trash: its items, their info files, and what trashing, restoring, removing and emptying
    keep between them at every step. Whoever works on it holds its lock. */
module TrashFolder {
  import FileMove
  import opened ConfigText
  import opened FileTree
  import opened OperationContext
  import opened Options
  import opened PathText
  import opened TrashInfo

  // The items under their names, and the texts of the info files under the items' names.
  datatype Contents = Contents(files: map<string, Node>, infos: map<string, string>)

  // A name that a copy is staged under until it is published.
  predicate IsStaging(name: string) {
    StartsWith(name, ".cutefish-copy-")
  }

  // The trash specification's rule: an item is there only while its info file is.
  ghost predicate Accounted(c: Contents) {
    forall name :: name in c.files && !IsStaging(name) ==> name in c.infos
  }

  // The name of an item, or with a suffix of its own for each further attempt.
  function Candidate(name: string, suffix: nat -> string, k: nat): string {
    if k == 0 then name else name + "-" + suffix(k)
  }

  ghost predicate Fresh(suffix: nat -> string) {
    forall j: nat, k: nat :: j != k ==> suffix(j) != suffix(k)
  }

  lemma CandidatesDiffer(name: string, suffix: nat -> string, j: nat, k: nat)
    requires Fresh(suffix) && Candidate(name, suffix, j) == Candidate(name, suffix, k)
    ensures j == k
  {
    Suffixed(name, suffix(j));
    Suffixed(name, suffix(k));
  }

  lemma Suffixed(name: string, suffix: string)
    ensures (name + "-" + suffix)[|name| + 1..] == suffix && |name + "-" + suffix| > |name|
  {
  }

  /** Only so many names are in use, so a free one is found. */
  lemma {:induction false} CandidatesRunOut(used: set<string>, name: string, suffix: nat -> string, n: nat)
    requires Fresh(suffix) && forall k :: 0 <= k < n ==> Candidate(name, suffix, k) in used
    ensures n <= |used|
    decreases n
  {
    if n > 0 {
      var last := Candidate(name, suffix, n - 1);
      forall k | 0 <= k < n - 1
        ensures Candidate(name, suffix, k) in used - {last}
      {
        if Candidate(name, suffix, k) == last {
          CandidatesDiffer(name, suffix, k, n - 1);
        }
      }
      CandidatesRunOut(used - {last}, name, suffix, n - 1);
    }
  }

  lemma KeysLeft<T>(before: map<string, T>, now: map<string, T>, name: string)
    requires now - {name} == before - {name} && name !in now
    ensures now.Keys == before.Keys - {name} && now == before - {name}
  {
    assert now - {name} == now;
  }

  lemma SameKeys<T>(before: map<string, T>, now: map<string, T>, name: string)
    requires now - {name} == before - {name} && name in now && name in before
    ensures now.Keys == before.Keys
  {
    assert now.Keys == (now - {name}).Keys + {name};
    assert before.Keys == (before - {name}).Keys + {name};
  }

  lemma Wider<T>(a: map<string, T>, b: map<string, T>, name: string, more: string)
    requires a - {name} == b - {name}
    ensures a - {more, name} == b - {more, name}
  {
    assert a - {more, name} == (a - {name}) - {more};
    assert b - {more, name} == (b - {name}) - {more};
  }

  lemma SameBut<T>(a: map<string, T>, b: map<string, T>, name: string)
    requires forall n :: n != name ==> (n in a <==> n in b) && (n in a ==> a[n] == b[n])
    ensures a - {name} == b - {name}
  {
  }

  lemma OneMore<T>(before: map<string, T>, now: map<string, T>, name: string)
    requires name !in before && name in now && now - {name} == before - {name}
    ensures now == before[name := now[name]]
  {
    forall n | n != name
      ensures (n in now <==> n in before) && (n in now ==> now[n] == before[n])
    {
      assert n in now <==> n in now - {name};
      assert n in before <==> n in before - {name};
    }
  }

  // The item came to a folder: alone or over the folder of its name, and under the wanted name
  // unless that was taken; then it replaced what was there, or took a name that was free.
  ghost predicate CameBack(item: Node, wanted: string, before: Entries, now: Entries, name: string, settled: Policy) {
    && name in now && now - {name} == before - {name}
    && (now[name] == item
        || (name in before && before[name].Dir? && item.Dir? && now[name] == Overlay(item, before[name])))
    && (wanted !in before ==> name == wanted)
    && (wanted in before ==> if name == wanted then settled == Replace else settled == KeepBoth && name !in before)
    && (name != wanted ==> IsNumbered(name, wanted))
  }

  // The wanted name with a number, as it is kept beside another item.
  ghost predicate IsNumbered(name: string, wanted: string) {
    exists isFolder, n :: n >= 1 && FileMove.IsKept(name, wanted, isFolder, n)
  }

  class Trash {
    const codec: Codec
    // Where the volume is mounted; the home trash has none.
    const topdir: string
    var now: Contents
    // The contents after every change so far.
    ghost var history: seq<Contents>
    // What was recorded for the items trashed here.
    ghost var origins: map<string, string>

    constructor (codec: Codec, topdir: string, now: Contents)
      requires Faithful(codec) && Accounted(now)
      ensures Valid() && this.now == now && this.codec == codec && this.topdir == topdir && origins == map[]
    {
      this.codec, this.topdir, this.now := codec, topdir, now;
      history, origins := [], map[];
    }

    // An item trashed here reads back as the path that was recorded for it.
    ghost predicate ReadsBack(c: Contents)
      reads this
    {
      forall name :: name in c.files && name in origins ==>
        name in c.infos && ReadPath(codec, topdir, c.infos[name]) == Resolved(topdir, origins[name])
    }

    ghost predicate Valid()
      reads this
    {
      && Faithful(codec)
      && Accounted(now) && ReadsBack(now)
      && forall k :: 0 <= k < |history| ==> Accounted(history[k])
    }

    method Become(c: Contents)
      requires Valid() && Accounted(c) && ReadsBack(c)
      modifies this`now, this`history
      ensures Valid() && now == c && history == old(history) + [c]
    {
      now := c;
      history := history + [c];
    }

    // ----- Steps -----

    // An item is copied in under a staging name, or erased piece by piece: its contents change
    // in unknown steps.
    method Work(name: string)
      requires Valid() && (name in now.files || (IsStaging(name) && name !in origins))
      modifies this`now, this`history
      ensures Valid() && now.infos == old(now.infos)
      ensures now.files - {name} == old(now.files) - {name}
      ensures name in old(now.files) ==> name in now.files
    {
      var steps: nat := *;
      while steps > 0
        invariant Valid() && now.infos == old(now.infos) && now.files - {name} == old(now.files) - {name}
        invariant name in old(now.files) ==> name in now.files
        invariant name in now.files || (IsStaging(name) && name !in origins)
      {
        var item: Node := *;
        var files := now.files[name := item];
        assert files - {name} == now.files - {name};
        Become(Contents(files, now.infos));
        steps := steps - 1;
      }
    }

    // Erases an item; it may stop with a part left.
    method Erase(name: string) returns (o: Outcome)
      requires Valid() && name in now.files
      modifies this`now, this`history
      ensures Valid() && now.infos == old(now.infos) && now.files - {name} == old(now.files) - {name}
      ensures if o.Done? then name !in now.files else name in now.files
    {
      Work(name);
      o := MayFail();
      if o.Done? {
        Become(Contents(now.files - {name}, now.infos));
      }
    }

    // Removes the info file of an item that is gone.
    method Unlink(name: string) returns (o: Outcome)
      requires Valid() && name !in now.files
      modifies this`now, this`history, this`origins
      ensures Valid() && now.files == old(now.files) && origins == old(origins) - {name}
      ensures now.infos == if o.Done? then old(now.infos) - {name} else old(now.infos)
    {
      origins := origins - {name};
      o := MayFail();
      if o.Done? {
        Become(Contents(now.files, now.infos - {name}));
      }
    }

    // ----- Operations -----

    // A name that no item has, with an info file made for it; the file is there at once.
    method TakeName(name: string, suffix: nat -> string) returns (o: Outcome, stored: string)
      requires Valid() && Fresh(suffix)
      modifies this`now, this`history, this`origins
      ensures Valid() && now.files == old(now.files)
      ensures o.Failed? ==> now == old(now) && origins == old(origins)
      ensures o.Done? ==>
                && stored !in now.files && stored !in old(now.infos) && now.infos.Keys == old(now.infos).Keys + {stored}
                && now.infos - {stored} == old(now.infos) && origins == old(origins) - {stored}
                && (exists k: nat :: stored == Candidate(name, suffix, k))
                && (stored == name || exists k: nat :: k > 0 && stored == name + "-" + suffix(k))
      ensures o.Done? && name !in old(now.files) && name !in old(now.infos) ==> stored == name
    {
      var k: nat := 0;
      while true
        invariant Valid() && now == old(now) && origins == old(origins)
        invariant forall j :: 0 <= j < k ==> Candidate(name, suffix, j) in now.files.Keys + now.infos.Keys
        decreases |now.files.Keys + now.infos.Keys| + 1 - k
      {
        CandidatesRunOut(now.files.Keys + now.infos.Keys, name, suffix, k);
        assert k > 0 ==> Candidate(name, suffix, 0) in now.files.Keys + now.infos.Keys;
        stored := Candidate(name, suffix, k);
        assert stored == name || stored == name + "-" + suffix(k);
        k := k + 1;
        if stored !in now.files && stored !in now.infos {
          o := MayFail();
          if o.Done? {
            origins := origins - {stored};
            Become(Contents(now.files, now.infos[stored := ""]));
          }
          return;
        }
      }
    }

    // The item moves in: by a rename, or by a copy that is published before its source goes.
    // However it ends, nothing else has changed but what is staged.
    method MoveIn(name: string, item: Node, staging: string) returns (o: Outcome)
      requires Valid() && name !in now.files && name in now.infos
      requires name in origins ==> ReadPath(codec, topdir, now.infos[name]) == Resolved(topdir, origins[name])
      requires IsStaging(staging) && staging !in now.files && staging !in origins && staging != name
      modifies this`now, this`history
      ensures Valid() && now.infos == old(now.infos)
      ensures now.files - {name, staging} == old(now.files) - {name, staging}
      ensures o.Done? ==> name in now.files && now.files[name] == item
    {
      ghost var before := now.files;
      var copies: bool := *;
      if copies {
        Work(staging);
        Wider(now.files, before, staging, name);
        o := MayFail();
        if o.Failed? {
          return;
        }
      }
      o := MayFail();
      if o.Failed? {
        return;
      }
      var files := (now.files - {staging})[name := item];
      assert files - {name, staging} == now.files - {name, staging};
      Become(Contents(files, now.infos));
      // The source may fail to go after the copy is there.
      if copies {
        o := MayFail();
      }
    }

    // Writes the info file of an item that is still to come; it may stop with a part written.
    method WriteInfo(name: string, original: string, date: string) returns (o: Outcome)
      requires Valid() && IsDense(date) && name !in now.files && name in now.infos && name !in origins
      modifies this`now, this`history, this`origins
      ensures Valid() && now.files == old(now.files) && name in now.infos
              && now.infos - {name} == old(now.infos) - {name}
      ensures o.Done? ==> ReadPath(codec, topdir, now.infos[name]) == Resolved(topdir, original)
      ensures origins == if o.Done? then old(origins)[name := original] else old(origins)
    {
      var text := InfoText(codec, original, date);
      InfoReadsBack(codec, topdir, original, date);
      o := MayFail();
      if o.Failed? {
        text := *;
      }
      var infos := now.infos[name := text];
      assert infos - {name} == now.infos - {name};
      Become(Contents(now.files, infos));
      if o.Done? {
        origins := origins[name := original];
      }
    }

    /** Trashes an item: its info file is written before the item moves in, and is taken back
        only where no item came. A stored item reads back as the path that was recorded. */
    method TrashItem(name: string, item: Node, original: string, date: string, suffix: nat -> string, staging: string)
      returns (o: Outcome, stored: string)
      requires Valid() && Fresh(suffix) && IsDense(date)
      requires IsStaging(staging) && staging !in now.files && staging !in origins
      requires forall k :: Candidate(name, suffix, k) != staging
      modifies this
      ensures Valid()
      ensures o.Done? ==>
                && stored !in old(now.files) && stored in now.files && now.files[stored] == item
                && stored in now.infos && ReadPath(codec, topdir, now.infos[stored]) == Resolved(topdir, original)
                && origins == old(origins)[stored := original]
      ensures now.files - {stored, staging} == old(now.files) - {stored, staging}
      ensures now.infos - {stored} == old(now.infos) - {stored}
      ensures stored in old(now.files) ==> o.Failed? && now == old(now)
    {
      hide Resolved, ReadPath, Candidate, Accounted;
      o, stored := TakeName(name, suffix);
      if o.Failed? {
        return;
      }
      InfoAdded(old(now.infos), now.infos, stored);
      ghost var files, infos := now.files, now.infos;
      o := WriteInfo(stored, original, date);
      if o.Done? {
        o := MoveIn(stored, item, staging);
      }
      if o.Failed? && stored !in now.files {
        var removed := Unlink(stored);
        assert (infos - {stored}) - {stored} == infos - {stored};
      }
    }

    lemma InfoAdded(before: map<string, string>, after: map<string, string>, name: string)
      requires after - {name} == before && name !in before
      ensures after - {name} == before - {name}
    {
    }

    // The place of an item that is trashed: in the home trash as it was named, else resolved.
    function PlaceOf(source: string, folder: string, name: string): string {
      if topdir == "" then Clean(source) else Clean(folder + "/" + name)
    }

    /** The place an item came from reads back from its info file: in the home trash the cleaned
        source, in a volume's the resolved place. */
    method TrashFrom(source: string, folder: string, name: string, item: Node, date: string, suffix: nat -> string,
        staging: string)
      returns (o: Outcome, stored: string)
      requires Valid() && Fresh(suffix) && IsDense(date)
      requires IsStaging(staging) && staging !in now.files && staging !in origins
      requires forall k :: Candidate(name, suffix, k) != staging
      requires topdir == "" ==> Absolute(source) && Clean(source) != "/" && '\0' !in Clean(source)
      requires topdir != "" ==>
                 && OnWayUp(topdir, folder) && Absolute(folder) && Clean(folder) == folder && IsName(name)
                 && '\0' !in folder && '\0' !in name
      modifies this
      ensures Valid()
      ensures o.Done? ==>
                && stored in now.files && stored in now.infos
                && stored !in old(now.files) && now.files[stored] == item
                && ReadPath(codec, topdir, now.infos[stored]) == PlaceOf(source, folder, name)
    {
      var canonical := folder + "/" + name;
      if topdir == "" {
        HomeReadsBack(source, canonical);
      } else {
        VolumeReadsBack(topdir, source, folder, name);
      }
      hide Recorded, Resolved, ReadPath, Candidate, Accounted, Clean;
      o, stored := TrashItem(name, item, Recorded(topdir, source, canonical), date, suffix, staging);
    }

    /** Removes an item for good, and then its info file; inside an item, only that part. */
    method Remove(name: string, whole: bool) returns (o: Outcome)
      requires Valid()
      modifies this
      ensures Valid()
      ensures now.files - {name} == old(now.files) - {name} && now.infos - {name} == old(now.infos) - {name}
      ensures o.Done? && whole ==> name !in now.files && name !in now.infos
      ensures !whole ==> now.infos == old(now.infos) && (name in old(now.files) ==> name in now.files)
    {
      if !whole {
        if name in now.files {
          Work(name);
        }
        o := MayFail();
        return;
      }
      if name in now.files {
        o := Erase(name);
        if o.Failed? {
          return;
        }
      }
      o := Unlink(name);
      assert now.files == old(now.files) - {name} || name !in old(now.files);
      assert now.infos - {name} == old(now.infos) - {name};
    }

    // The states in which others saw the items while one of them went away.
    ghost method Seen(steps: seq<Contents>)
      requires Valid() && forall k :: 0 <= k < |steps| ==> Accounted(steps[k])
      modifies this`history
      ensures Valid()
    {
      history := history + steps;
    }

    // Whatever a transfer of one item leaves, there is no item more than before.
    lemma StaysAccounted(c: Contents, files: Entries)
      requires Accounted(c) && files.Keys <= c.files.Keys
      ensures Accounted(Contents(files, c.infos))
    {
    }

    static ghost function FilesIn(f: FileMove.Folders): Entries {
      if 0 in f then f[0] else map[]
    }

    lemma NothingAdded(t: FileMove.Transfer, f: FileMove.Folders, files: Entries, name: string)
      requires t.NothingElse(f) && t.source == FileMove.Place(0, name) && t.target.folder == 1
      requires 0 in t.initial && t.initial[0] == files && name in files
      ensures FilesIn(f).Keys <= files.Keys && FilesIn(f) - {name} == files - {name}
    {
      var now := FilesIn(f);
      forall n | n != name
        ensures (n in now <==> n in files) && (n in now ==> now[n] == files[n])
      {
        assert FileMove.At(f, FileMove.Place(0, n)) == FileMove.At(t.initial, FileMove.Place(0, n));
      }
      SameBut(now, files, name);
    }

    // The transfer of an item to the folder it came from.
    method Leaving(name: string, parent: Entries, wanted: string, temporary: string) returns (t: FileMove.Transfer)
      requires name in now.files && ' ' !in temporary && temporary !in parent && wanted != temporary
      ensures fresh(t) && t.Valid() && t.SourceIntact() && t.Untouched() && FileMove.At(t.folders, t.temporary).None?
      ensures t.initial == map[0 := now.files, 1 := parent] && t.original == now.files[name]
      ensures t.source == FileMove.Place(0, name) && t.target == FileMove.Place(1, wanted)
      ensures t.temporary == FileMove.Place(1, temporary)
    {
      var isFolder: bool, isBundle: bool := *, *;
      forall n: nat
        ensures FileMove.KeptName(wanted, isFolder, n) != temporary
      {
        FileMove.KeptNameHasSpace(wanted, isFolder, n);
      }
      t := new FileMove.Transfer(map[0 := now.files, 1 := parent], FileMove.Place(0, name), FileMove.Place(1, wanted),
        temporary, isFolder, isBundle);
    }

    lemma Arrived(t: FileMove.Transfer, parent: Entries, got: string, settled: Policy)
      requires 1 in t.initial && t.initial[1] == parent && t.source.folder == 0 && t.target.folder == 1
      requires t.temporary.folder == 1 && t.temporary.name !in parent
      requires 1 in t.folders && FileMove.At(t.folders, t.temporary).None?
      requires var p := FileMove.Place(1, got);
               && t.PublishedAs(t.initial, t.folders, p) && t.AllowedName(t.initial, p, settled)
               && FileMove.Only(t.initial, t.folders, {t.source, p, t.temporary})
      ensures CameBack(t.original, t.target.name, parent, t.folders[1], got, settled)
    {
      hide FileMove.KeptName, FileMove.IsKept, Overlay;
      if got != t.target.name {
        var n := t.KeptBeside(t.initial, FileMove.Place(1, got), settled);
        assert IsNumbered(got, t.target.name);
      }
      hide IsNumbered;
      var after := t.folders[1];
      forall n | n != got
        ensures (n in after <==> n in parent) && (n in after ==> after[n] == parent[n])
      {
        var q := FileMove.Place(1, n);
        if q != t.temporary {
          assert FileMove.At(t.folders, q) == FileMove.At(t.initial, q);
        }
      }
      SameBut(after, parent, got);
      assert FileMove.At(t.folders, FileMove.Place(1, got)) == Some(after[got]);
    }

    // Takes over what a transfer made of the items, with every state on the way.
    method Follow(t: FileMove.Transfer, name: string)
      requires Valid() && t.Valid() && 0 in t.folders
      requires t.source == FileMove.Place(0, name) && t.target.folder == 1
      requires 0 in t.initial && t.initial[0] == now.files && name in now.files
      modifies this`now, this`history
      ensures Valid() && now.files == t.folders[0] && now.infos == old(now.infos)
      ensures now.files - {name} == old(now.files) - {name}
    {
      hide Accounted;
      ghost var infos := now.infos;
      ghost var steps :=
        seq(|t.history|, k requires 0 <= k < |t.history| reads t => Contents(FilesIn(t.history[k]), infos));
      forall k | 0 <= k < |steps|
        ensures Accounted(steps[k])
      {
        assert t.Whole(t.history[k]);
        NothingAdded(t, t.history[k], now.files, name);
        StaysAccounted(now, FilesIn(t.history[k]));
      }
      Seen(steps);
      NothingAdded(t, t.folders, now.files, name);
      StaysAccounted(now, t.folders[0]);
      Become(Contents(t.folders[0], now.infos));
    }

    method MoveBack(name: string, wanted: string, parent: Entries, temporary: string, policy: Policy)
      returns (r: FileMove.Result, settled: Policy, after: Entries)
      requires Valid() && name in now.files
      requires ' ' !in temporary && temporary !in parent && wanted != temporary
      modifies this`now, this`history
      ensures Valid() && now.infos == old(now.infos) && now.files - {name} == old(now.files) - {name}
      ensures policy != Ask ==> settled == policy
      ensures r.Published? ==>
                name !in now.files && CameBack(old(now.files)[name], wanted, parent, after, r.name, settled)
      ensures !r.Published? ==> name in now.files
      ensures r.Skipped? ==> now.files == old(now.files)
    {
      hide CameBack, Accounted, FileMove.KeptName, Overlay, Holds;
      var t := Leaving(name, parent, wanted, temporary);
      r, settled := t.Move(policy);
      assert t.folders.Keys == t.initial.Keys;
      Follow(t, name);
      after := t.folders[1];
      assert FileMove.At(t.initial, t.source) == Some(old(now.files)[name]);
      if r.Published? {
        Arrived(t, parent, r.name, settled);
      }
      if r.Skipped? {
        SameFiles(t, old(now.files), name);
      }
    }

    lemma SameFiles(t: FileMove.Transfer, files: Entries, name: string)
      requires FileMove.Only(t.initial, t.folders, {}) && t.initial.Keys == {0, 1} && t.initial[0] == files
      ensures t.folders[0] == files
    {
      forall n: string
        ensures (n in t.folders[0] <==> n in files) && (n in files ==> t.folders[0][n] == files[n])
      {
        assert FileMove.At(t.folders, FileMove.Place(0, n)) == FileMove.At(t.initial, FileMove.Place(0, n));
      }
    }

    /** Puts an item back where it came from, and then removes its info file. Where it cannot
        go, or is left out, its info file stays with it. `parent` is the folder that the recorded
        path names, as it is when the item gets there. */
    method Restore(name: string, parent: Entries, temporary: string, policy: Policy)
      returns (o: Outcome, path: string, r: FileMove.Result, settled: Policy, after: Entries)
      requires Valid() && ' ' !in temporary && temporary !in parent
      requires name in now.infos ==> FileNameOf(ReadPath(codec, topdir, now.infos[name])) != temporary
      modifies this
      ensures Valid() && (policy != Ask ==> settled == policy)
      ensures now.files - {name} == old(now.files) - {name} && now.infos - {name} == old(now.infos) - {name}
      ensures r.Published? ==>
                && name !in now.files && name in old(now.files) && name in old(now.infos)
                && path == ReadPath(codec, topdir, old(now.infos)[name]) != ""
                && CameBack(old(now.files)[name], FileNameOf(path), parent, after, r.name, settled)
      ensures r.Published? && name in old(origins) ==> path == Resolved(topdir, old(origins)[name])
      ensures r.Published? && o.Done? ==> name !in now.infos
      ensures r.Error? ==> o.Failed?
      ensures !r.Published? ==> now.infos == old(now.infos) && (name in old(now.files) ==> name in now.files)
      ensures r.Skipped? ==> now.files == old(now.files)
    {
      hide CameBack, Accounted, ReadPath, Resolved, FileNameOf;
      path, settled, after := "", policy, parent;
      if name !in now.files || name !in now.infos {
        return Failed(ENOENT), path, FileMove.Error(ENOENT), settled, after;
      }
      path := ReadPath(codec, topdir, now.infos[name]);
      // The folder may lie outside of the volume by a link, or be impossible to make.
      o := MayFail();
      if path == "" && o.Done? {
        o := Failed(EINVAL);
      }
      if o.Failed? {
        return o, path, FileMove.Error(o.errno), settled, after;
      }
      r, settled, after := MoveBack(name, FileNameOf(path), parent, temporary, policy);
      if r.Published? {
        o := Unlink(name);
        assert now.infos - {name} == old(now.infos) - {name};
      } else if r.Error? {
        o := Failed(r.errno);
      }
    }

    /** An item that is trashed and then put back is again in its folder under its name, whole, and
        nothing else of the folder has changed, when its name there is free. */
    method TrashAndRestore(source: string, folder: string, name: string, item: Node, date: string,
        suffix: nat -> string, staging: string, parent: Entries, temporary: string, policy: Policy)
      returns (trashed: Outcome, o: Outcome, path: string, r: FileMove.Result, after: Entries)
      requires Valid() && Fresh(suffix) && IsDense(date)
      requires IsStaging(staging) && staging !in now.files && staging !in origins
      requires forall k :: Candidate(name, suffix, k) != staging
      requires topdir == "" ==> Absolute(source) && Clean(source) != "/" && '\0' !in Clean(source)
      requires topdir != "" ==>
                 && OnWayUp(topdir, folder) && Absolute(folder) && Clean(folder) == folder && IsName(name)
                 && '\0' !in folder && '\0' !in name
      requires ' ' !in temporary && temporary !in parent && FileNameOf(PlaceOf(source, folder, name)) != temporary
      requires FileNameOf(PlaceOf(source, folder, name)) !in parent
      modifies this
      ensures Valid()
      ensures trashed.Done? && r.Published? ==>
                && path == PlaceOf(source, folder, name) == JoinedTo(AbsolutePathOf("/", path), FileNameOf(path))
                && r.name == FileNameOf(path) && after == parent[FileNameOf(path) := item]
    {
      hide ReadPath, Resolved, Recorded, FileNameOf, AbsolutePathOf, JoinedTo, Candidate, Accounted;
      var place := PlaceOf(source, folder, name);
      PlaceIsClean(source, folder, name);
      JoinedBack("/", place);
      var stored;
      trashed, stored := TrashFrom(source, folder, name, item, date, suffix, staging);
      if trashed.Failed? {
        return trashed, trashed, "", FileMove.Error(trashed.errno), parent;
      }
      var settled;
      o, path, r, settled, after := Restore(stored, parent, temporary, policy);
      if r.Published? {
        OneMore(parent, after, r.name);
      }
    }

    lemma PlaceIsClean(source: string, folder: string, name: string)
      requires topdir == "" ==> Absolute(source) && Clean(source) != "/"
      requires topdir != "" ==> Absolute(folder) && Clean(folder) == folder && IsName(name)
      ensures var place := PlaceOf(source, folder, name); Absolute(place) && Clean(place) == place != "/"
    {
      var path := if topdir == "" then source else folder + "/" + name;
      CleanTwice(path);
      CleanHasNames(path);
      if topdir != "" {
        CleanChild(folder, name);
      }
      hide Clean;
    }

    /** Erases everything. However far it gets, what is left of the items still has its info
        files; when it gets to the end, nothing of either is left. */
    method Empty() returns (o: Outcome)
      requires Valid()
      modifies this
      ensures Valid()
      ensures now.files.Keys <= old(now.files).Keys && now.infos.Keys <= old(now.infos).Keys
      ensures o.Done? ==> now.files == map[] && now.infos == map[]
    {
      while now.files != map[]
        invariant Valid() && now.files.Keys <= old(now.files).Keys && now.infos.Keys <= old(now.infos).Keys
        decreases now.files.Keys
      {
        var name :| name in now.files;
        ghost var before := now.files;
        o := Erase(name);
        if o.Done? {
          KeysLeft(before, now.files, name);
          o := Unlink(name);
        } else {
          SameKeys(before, now.files, name);
        }
        if o.Failed? {
          return;
        }
      }
      while now.infos != map[]
        invariant Valid() && now.files == map[] && now.infos.Keys <= old(now.infos).Keys
        decreases now.infos.Keys
      {
        var name :| name in now.infos;
        o := Unlink(name);
        if o.Failed? {
          return;
        }
      }
      return Done;
    }
  }

  const ENOENT: int := 2
  const EINVAL: int := 22
}
