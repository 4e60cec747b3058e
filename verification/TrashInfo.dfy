/** Where a trashed item came from: what its info file records, and what is read back. */
module TrashInfo {
  import opened ConfigText
  import opened PathText
  import opened Texts

  // The percent coding of URLs.
  datatype Codec = Codec(encode: string -> string, decode: string -> string)

  // Coding is undone by decoding, and leaves nothing that ends a line or surrounds a word.
  ghost predicate Faithful(codec: Codec) {
    forall s :: codec.decode(codec.encode(s)) == s && IsDense(codec.encode(s))
  }

  predicate StartsWith(s: string, prefix: string) {
    |prefix| <= |s| && s[..|prefix|] == prefix
  }

  // ----- What is recorded -----

  // The path from the mount point, for what lies below it.
  function FromTop(top: string, canonical: string): string {
    if top == "/" then (if canonical == "" then "" else canonical[1..])
    else if StartsWith(canonical, top + "/") then canonical[|top| + 1..]
    else canonical
  }

  // A trash of a volume has the volume's mount point; the home trash has none.
  // `canonical` is the resolved folder of the item with the item's name.
  function Recorded(topdir: string, source: string, canonical: string): string {
    if topdir == "" then Clean(source) else FromTop(Clean(topdir), canonical)
  }

  // The place a recorded path names; none when it could lie outside the volume. A path that
  // is not absolute is taken from the mount point.
  function Resolved(topdir: string, path: string): string {
    if path == "" || '\0' in path then ""
    else if Absolute(path) then ResolvedAbsolute(topdir, path)
    else if topdir == "" || ".." in Split(path) then ""
    else ResolvedAbsolute(topdir, Clean(JoinedTo(topdir, path)))
  }

  function ResolvedAbsolute(topdir: string, path: string): string {
    var clean, top := Clean(path), Clean(topdir);
    if clean == "/" then ""
    else if top != "" && top != "/" && !StartsWith(clean, top + "/") then ""
    else clean
  }

  /** In a volume's trash what lies below the mount point is recorded by its path from there, anything
      else by its whole path; in the home trash everything is recorded by its clean path. */
  lemma RecordedIs(topdir: string, source: string, canonical: string, rest: string)
    ensures topdir == "" ==> Recorded(topdir, source, canonical) == Clean(source)
    ensures topdir != "" && Clean(topdir) == "/" && canonical == "/" + rest ==>
              Recorded(topdir, source, canonical) == rest
    ensures topdir != "" && Clean(topdir) != "/" && canonical == Clean(topdir) + "/" + rest ==>
              Recorded(topdir, source, canonical) == rest
    ensures topdir != "" && Clean(topdir) != "/" && !(Clean(topdir) + "/" <= canonical) ==>
              Recorded(topdir, source, canonical) == canonical
  {
    hide Clean;
    var top := Clean(topdir);
    if canonical == top + "/" + rest {
      assert canonical[..|top| + 1] == top + "/" && canonical[|top| + 1..] == rest;
    }
  }

  // ----- Paths put together -----

  lemma {:induction false} SplitTwo(a: string, b: string)
    ensures Split(a + "/" + b) == Split(a) + Split(b)
    decreases |b|
  {
    var k := First(b);
    if k == |b| {
      SplitPlain(b);
      SplitAppend(a, b);
    } else {
      var first, rest := b[..k], b[k + 1..];
      assert a + "/" + b == (a + "/" + first) + "/" + rest;
      SplitTwo(a + "/" + first, rest);
      SplitAppend(a, first);
      SplitAt(b, k);
      hide Split;
      Regroup(Split(a), [first], Split(rest));
    }
  }

  // Reducing goes on from what was reduced before.
  function ReducedFrom(absolute: bool, parts: seq<string>, more: seq<string>): seq<string> {
    if more == [] then parts else Push(absolute, ReducedFrom(absolute, parts, more[..|more| - 1]), more[|more| - 1])
  }

  lemma {:induction false} ReducedInTurn(absolute: bool, a: seq<string>, b: seq<string>)
    ensures Reduced(absolute, a + b) == ReducedFrom(absolute, Reduced(absolute, a), b)
    decreases |b|
  {
    if b == [] {
      assert a + b == a;
    } else {
      assert (a + b)[..|a + b| - 1] == a + b[..|b| - 1];
      ReducedInTurn(absolute, a, b[..|b| - 1]);
      hide Push;
    }
  }

  /** Cleaning the first part of a path beforehand changes nothing. */
  lemma CleanFirst(a: string, b: string)
    requires Absolute(a)
    ensures Clean(Clean(a) + "/" + b) == Clean(a + "/" + b)
  {
    SplitTwo(a, b);
    SplitTwo(Clean(a), b);
    CleanHasNames(a);
    ReducedInTurn(true, Split(a), Split(b));
    ReducedInTurn(true, Split(Clean(a)), Split(b));
    CleanReduces(a);
    hide Split, Reduced, ReducedFrom, Text;
  }

  lemma CleanReduces(path: string)
    requires Absolute(path)
    ensures Reduced(true, Split(Clean(path))) == Reduced(true, Split(path))
  {
    SplitHasNone(path);
    ReducedIsTidy(true, Split(path));
    TextReduces(true, Reduced(true, Split(path)));
  }

  // A slash more makes no difference.
  lemma SlashMore(a: string, b: string)
    requires Absolute(a) && a[|a| - 1] == '/'
    ensures Clean(a + b) == Clean(a + "/" + b)
  {
    var start := a[..|a| - 1];
    assert a == start + "/" + "" && a + b == start + "/" + b;
    SplitTwo(start, b);
    SplitTwo(start, "");
    SplitTwo(a, b);
    SplitPlain("");
    assert Split(a) == Split(start) + [""];
    ReducedInTurn(true, Split(start), Split(b));
    ReducedInTurn(true, Split(a), Split(b));
    ReducedInTurn(true, Split(start), [""]);
    EmptyStays(Reduced(true, Split(start)));
    assert Absolute(a + b) && Absolute(a + "/" + b);
    hide Split, Reduced, ReducedFrom, Text;
  }

  lemma EmptyStays(parts: seq<string>)
    ensures ReducedFrom(true, parts, [""]) == parts
  {
    assert [""][..0] == [];
    assert ReducedFrom(true, parts, []) == parts;
  }

  lemma JoinedCleans(topdir: string, path: string)
    requires Absolute(topdir)
    ensures Clean(JoinedTo(topdir, path)) == Clean(Clean(topdir) + "/" + path)
  {
    hide Clean;
    CleanFirst(topdir, path);
    if topdir[|topdir| - 1] == '/' {
      SlashMore(topdir, path);
    }
  }

  // ----- What is read back -----

  lemma ReducedChild(folder: string, name: string)
    requires Absolute(folder) && IsName(name)
    ensures var parts := Reduced(true, Split(folder));
            Tidy(true, parts) && Reduced(true, Split(folder + "/" + name)) == parts + [name]
  {
    hide Split, Reduced;
    SplitHasNone(folder);
    ReducedIsTidy(true, Split(folder));
    SplitAppend(folder, name);
    assert folder + [ '/' ] + name == folder + "/" + name;
    ReducedAppend(true, Split(folder), name);
  }

  lemma ChildText(parts: seq<string>, folder: string, name: string)
    requires Tidy(true, parts) && IsName(name) && folder == Text(true, parts)
    ensures Text(true, parts + [name]) == JoinedTo(folder, name) != "/"
  {
    assert (parts + [name])[..|parts|] == parts;
    if parts == [] {
      assert folder == "/" && parts + [name] == [name];
    } else {
      EndsInName(parts);
      assert Joined(parts + [name]) == Joined(parts) + "/" + name;
      assert folder == "/" + Joined(parts);
      assert "/" + (Joined(parts) + "/" + name) == folder + "/" + name;
    }
  }

  /** An item in a clean folder has a clean path, but for the root's second slash. */
  lemma CleanChild(folder: string, name: string)
    requires Absolute(folder) && Clean(folder) == folder && IsName(name)
    ensures Clean(folder + "/" + name) == JoinedTo(folder, name) && Clean(folder + "/" + name) != "/"
  {
    hide Split, Reduced, Text, JoinedTo, Tidy, IsName;
    ReducedChild(folder, name);
    ChildText(Reduced(true, Split(folder)), folder, name);
  }

  lemma ReducedAppend(absolute: bool, parts: seq<string>, name: string)
    requires IsName(name)
    ensures Reduced(absolute, parts + [name]) == Reduced(absolute, parts) + [name]
  {
    assert (parts + [name])[..|parts|] == parts;
  }

  // Whatever follows a folder in clean text is names.
  lemma RestIsNames(folder: string, rest: string)
    requires Absolute(folder + "/" + rest) && Clean(folder + "/" + rest) == folder + "/" + rest
             && folder + "/" + rest != "/"
    requires Absolute(folder)
    ensures !Absolute(rest) && ".." !in Split(rest) && rest != ""
  {
    CleanHasNames(folder + "/" + rest);
    SplitTwo(folder, rest);
    FirstPart(rest);
    hide Split, Clean;
    LaterNames(Split(folder), Split(rest));
    assert IsName(Split(rest)[0]);
  }

  lemma LaterNames(first: seq<string>, rest: seq<string>)
    requires first != [] && forall k :: 1 <= k < |first + rest| ==> IsName((first + rest)[k])
    ensures forall part :: part in rest ==> IsName(part)
  {
    forall k | 0 <= k < |rest|
      ensures IsName(rest[k])
    {
      assert (first + rest)[|first| + k] == rest[k];
    }
  }

  lemma FirstPart(s: string)
    ensures Split(s)[0] == s[..First(s)]
  {
  }

  lemma TopIsClean(topdir: string)
    requires Absolute(topdir)
    ensures Absolute(Clean(topdir)) && (Clean(topdir) != "/" ==> |Clean(topdir)| > 1 && Clean(topdir)[1] != '/')
  {
    CleanHasNames(topdir);
    var top := Clean(topdir);
    if top != "/" {
      assert IsName(Split(top)[1]) by {
        SplitAt(top, 0);
        assert top[..0] == "";
      }
      SplitAt(top, 0);
      assert top[..0] == "" && Split(top) == [""] + Split(top[1..]);
      assert Split(top[1..])[0] == Split(top)[1];
    }
  }

  // ----- The volume of an item -----

  // A clean folder that is the folder or lies above it.
  predicate Above(top: string, folder: string) {
    Absolute(top) && Clean(top) == top && (top == "/" || folder == top || StartsWith(folder, top + "/"))
  }

  lemma FolderIsAbove(top: string, folder: string)
    requires Above(top, folder) && top != "/"
    ensures Above(AbsolutePathOf("/", top), folder)
  {
    var parent := AbsolutePathOf("/", top);
    FolderIsShorter("/", top);
    JoinedBack("/", top);
    ParentIsClean(top);
    if parent != "/" {
      EndsWithoutSlash(parent);
      hide Clean, AbsolutePathOf, FileNameOf, StartsWith;
      StartsWithParent(parent, FileNameOf(top), top, folder);
    }
  }

  lemma StartsWithParent(parent: string, name: string, top: string, folder: string)
    requires top == parent + "/" + name && (folder == top || StartsWith(folder, top + "/"))
    ensures StartsWith(folder, parent + "/")
  {
    assert top[..|parent| + 1] == parent + "/";
    assert folder[..|top|] == top;
    assert folder[..|parent| + 1] == top[..|parent| + 1];
  }

  lemma ParentIsClean(path: string)
    requires Absolute(path)
    ensures Clean(AbsolutePathOf("/", path)) == AbsolutePathOf("/", path)
  {
    var slash := Last(path);
    if slash > 0 {
      CleanTwice(path[..slash]);
    } else {
      RootIsClean();
    }
    hide Clean;
  }

  lemma RootIsClean()
    ensures Clean("/") == "/"
  {
    TextReduces(true, []);
  }

  /** Wherever the walk up from a clean folder has come, it is above that folder. */
  lemma {:induction false} UpIsAbove(folder: string, n: nat)
    requires Absolute(folder) && Clean(folder) == folder
    ensures Above(Up("/", folder, n), folder)
  {
    hide Clean, AbsolutePathOf;
    if n > 0 {
      UpIsAbove(folder, n - 1);
      if Up("/", folder, n - 1) == "/" {
        FolderOfRoot("/");
        RootIsClean();
      } else {
        FolderIsAbove(Up("/", folder, n - 1), folder);
      }
    }
  }

  // The volume's mount point is met on the way up.
  ghost predicate OnWayUp(topdir: string, folder: string) {
    exists n: nat :: topdir == Up("/", folder, n)
  }

  // The nearest mount point at or above a resolved folder; the root is one.
  method MountPointOf(folder: string, mounted: string -> bool) returns (topdir: string)
    requires Absolute(folder) && Clean(folder) == folder
    ensures OnWayUp(topdir, folder) && (topdir == "/" || mounted(topdir))
    ensures forall n: nat :: mounted(Up("/", folder, n)) ==> Above(Up("/", folder, n), topdir)
  {
    hide AbsolutePathOf, Clean;
    topdir := folder;
    ghost var n: nat := 0;
    UpIsAbove(folder, 0);
    while topdir != "/" && !mounted(topdir)
      invariant topdir == Up("/", folder, n) && Above(topdir, folder)
      invariant forall k: nat :: k < n ==> !mounted(Up("/", folder, k))
      decreases |topdir|
    {
      FolderIsShorter("/", topdir);
      n := n + 1;
      topdir := AbsolutePathOf("/", topdir);
      UpIsAbove(folder, n);
    }
    forall m: nat | mounted(Up("/", folder, m))
      ensures Above(Up("/", folder, m), topdir)
    {
      UpInTurn(folder, n, m - n);
      UpIsAbove(topdir, m - n);
    }
  }

  lemma {:induction false} UpInTurn(folder: string, n: nat, m: nat)
    ensures Up("/", folder, n + m) == Up("/", Up("/", folder, n), m)
  {
    hide AbsolutePathOf;
    if m > 0 {
      UpInTurn(folder, n, m - 1);
    }
  }

  // Where an item of the folder goes to: the trash of its volume, or "" for the home trash. Only
  // a volume other than home's that takes a trash gets one.
  method VolumeFor(folder: string, mounted: string -> bool, away: string -> bool, takes: string -> bool)
    returns (topdir: string)
    requires folder == "" || (Absolute(folder) && Clean(folder) == folder)
    ensures topdir != "" ==>
              && folder != "" && OnWayUp(topdir, folder) && (topdir == "/" || mounted(topdir))
              && away(folder) && away(topdir) && takes(topdir)
  {
    if folder != "" && away(folder) {
      topdir := MountPointOf(folder, mounted);
      if takes(topdir) && away(topdir) {
        return;
      }
    }
    return "";
  }

  /** What the info file of an item on a volume records reads back as the item's resolved place. */
  lemma VolumeReadsBack(topdir: string, source: string, folder: string, name: string)
    requires OnWayUp(topdir, folder) && Absolute(folder) && Clean(folder) == folder && IsName(name)
    requires '\0' !in folder && '\0' !in name
    ensures var canonical := folder + "/" + name;
            Resolved(topdir, Recorded(topdir, source, canonical)) == Clean(canonical)
  {
    hide Clean, Resolved, Recorded;
    var n: nat :| topdir == Up("/", folder, n);
    UpIsAbove(folder, n);
    ItemIsBelow(topdir, folder, name);
    ReadsBackBelow(topdir, source, folder, name);
  }

  lemma ItemIsBelow(top: string, folder: string, name: string)
    requires Above(top, folder)
    ensures top == "/" || StartsWith(folder + "/" + name, top + "/")
  {
    if top != "/" {
      var canonical := folder + "/" + name;
      if folder == top {
        assert canonical[..|top| + 1] == top + "/";
      } else {
        assert canonical[..|top| + 1] == folder[..|top| + 1];
      }
    }
  }

  // Whatever the mount point, the place reads back just when it lies below it.
  lemma ReadsBackBelow(topdir: string, source: string, folder: string, name: string)
    requires Absolute(topdir) && Absolute(folder) && Clean(folder) == folder && IsName(name)
    requires '\0' !in folder && '\0' !in name
    ensures var canonical, top := folder + "/" + name, Clean(topdir);
            Resolved(topdir, Recorded(topdir, source, canonical)) ==
            if top == "/" || StartsWith(canonical, top + "/") then Clean(canonical) else ""
  {
    hide Clean, Resolved, Split;
    var canonical, top := folder + "/" + name, Clean(topdir);
    CleanChild(folder, name);
    TopIsClean(topdir);
    if top == "/" {
      WholeVolume(topdir, folder, name);
    } else if StartsWith(canonical, top + "/") {
      var rest := canonical[|top| + 1..];
      assert canonical == top + "/" + rest;
      BelowTop(topdir, folder, name, rest);
    } else {
      NotBelowTop(topdir, folder, name);
    }
  }

  lemma WholeVolume(topdir: string, folder: string, name: string)
    requires Absolute(topdir) && Clean(topdir) == "/" && Absolute(folder) && Clean(folder) == folder && IsName(name)
    requires '\0' !in folder && '\0' !in name
    ensures var canonical := folder + "/" + name; Resolved(topdir, canonical[1..]) == Clean(canonical)
  {
    var canonical := folder + "/" + name;
    var path := canonical[1..];
    CleanChild(folder, name);
    CleanTwice(canonical);
    assert canonical == "/" + path && '\0' !in path;
    SlashMore("/", path);
    assert Clean("/" + path) == Clean(canonical);
    JoinedCleans(topdir, path);
    if folder == "/" {
      assert path == "/" + name && Absolute(path);
      assert path == JoinedTo(folder, name);
    } else {
      TopIsClean(folder);
      EndsWithoutSlash(folder);
      assert !Absolute(path);
      NamesBelowRoot(path, canonical);
    }
    hide Clean, Split;
  }

  lemma NamesBelowRoot(path: string, canonical: string)
    requires canonical == "/" + path && Clean(canonical) == canonical && canonical != "/"
    ensures ".." !in Split(path)
  {
    CleanHasNames(canonical);
    SplitAt(canonical, 0);
    assert canonical[..0] == "" && canonical[1..] == path;
    LaterNames([""], Split(path));
  }

  lemma BelowTop(topdir: string, folder: string, name: string, rest: string)
    requires Absolute(topdir) && Absolute(folder) && Clean(folder) == folder && IsName(name)
    requires '\0' !in folder && '\0' !in name
    requires Clean(topdir) != "/" && folder + "/" + name == Clean(topdir) + "/" + rest
    ensures Resolved(topdir, rest) == Clean(folder + "/" + name)
  {
    var canonical, top := folder + "/" + name, Clean(topdir);
    TopIsClean(topdir);
    assert folder != "/" by {
      assert canonical[1] == top[1];
    }
    EndsWithoutSlash(folder);
    CleanChild(folder, name);
    hide Clean, Split;
    BelowTopClean(topdir, canonical, rest);
  }

  lemma BelowTopClean(topdir: string, path: string, rest: string)
    requires Absolute(topdir) && Absolute(Clean(topdir)) && Clean(topdir) != "/"
    requires path == Clean(topdir) + "/" + rest && Clean(path) == path && path != "/" && '\0' !in path
    ensures Resolved(topdir, rest) == path
  {
    var top := Clean(topdir);
    RestIsNames(top, rest);
    JoinedCleans(topdir, rest);
    hide Clean, Split;
    assert '\0' !in rest by {
      assert path[|top| + 1..] == rest;
      assert forall c :: c in path[|top| + 1..] ==> c in path;
    }
    assert StartsWith(path, top + "/");
  }

  lemma NotBelowTop(topdir: string, folder: string, name: string)
    requires Absolute(topdir) && Absolute(folder) && Clean(folder) == folder && IsName(name)
    requires Clean(topdir) != "/" && !StartsWith(folder + "/" + name, Clean(topdir) + "/")
    ensures Resolved(topdir, folder + "/" + name) == ""
  {
    var canonical, top := folder + "/" + name, Clean(topdir);
    TopIsClean(topdir);
    CleanChild(folder, name);
    if folder == "/" {
      assert Clean(canonical) == "/" + name;
      OneSlash(name, top);
    } else {
      EndsWithoutSlash(folder);
    }
    hide Clean;
  }

  // A single name below the root is not below another folder.
  lemma OneSlash(name: string, top: string)
    requires '/' !in name && |top| > 1
    ensures !StartsWith("/" + name, top + "/")
  {
    var path := "/" + name;
    assert forall k :: 1 <= k < |path| ==> path[k] != '/';
    assert (top + "/")[|top|] == '/';
  }

  lemma EndsWithoutSlash(folder: string)
    requires Absolute(folder) && Clean(folder) == folder && folder != "/"
    ensures folder[|folder| - 1] != '/'
  {
    var parts := Reduced(true, Split(folder));
    SplitHasNone(folder);
    ReducedIsTidy(true, Split(folder));
    EndsInName(parts);
  }

  /** Whatever an info file says, it names no place outside of the volume. */
  lemma NothingOutside(topdir: string, path: string)
    requires topdir == "" || Absolute(topdir)
    ensures var place, top := Resolved(topdir, path), Clean(topdir);
            place != "" ==>
              && Absolute(place) && Clean(place) == place != "/"
              && (topdir != "" ==> top == "/" || StartsWith(place, top + "/"))
  {
    if Absolute(path) {
      CleanTwice(path);
      CleanHasNames(path);
    } else if topdir != "" {
      var joined := JoinedTo(topdir, path);
      CleanTwice(joined);
      CleanHasNames(joined);
      CleanTwice(Clean(joined));
    }
    hide Clean, Split;
  }

  // ----- The volume mounted elsewhere -----

  /** Names put below a clean folder are clean. */
  lemma {:induction false} NamesBelow(top: string, parts: seq<string>)
    requires Absolute(top) && Clean(top) == top && parts != [] && forall part :: part in parts ==> IsName(part)
    ensures Clean(top + "/" + Joined(parts)) == JoinedTo(top, Joined(parts)) != "/"
    decreases |parts|
  {
    hide Clean, IsName;
    var n := |parts| - 1;
    if n == 0 {
      assert parts == [parts[0]] && Joined(parts) == parts[0];
      CleanChild(top, parts[0]);
    } else {
      var before, last := parts[..n], parts[n];
      assert Joined(parts) == Joined(before) + "/" + last;
      NamesBelow(top, before);
      var folder := top + "/" + Joined(before);
      CleanFirst(folder, last);
      CleanTwice(folder);
      EndsWithoutSlash(Clean(folder));
      CleanChild(Clean(folder), last);
      assert top + "/" + Joined(parts) == folder + "/" + last;
      assert JoinedTo(top, Joined(parts)) == JoinedTo(top, Joined(before)) + "/" + last;
    }
  }

  lemma RestNames(top: string, canonical: string, rest: string)
    requires Absolute(canonical) && Clean(canonical) == canonical != "/"
    requires canonical == (if top == "/" then "" else top) + "/" + rest
    ensures forall part :: part in Split(rest) ==> IsName(part)
  {
    var start := if top == "/" then "" else top;
    CleanHasNames(canonical);
    SplitTwo(start, rest);
    LaterNames(Split(start), Split(rest));
  }

  lemma RelativeReads(later: string, rest: string)
    requires Absolute(later) && Clean(later) == later
    requires '\0' !in rest && forall part :: part in Split(rest) ==> IsName(part)
    ensures Resolved(later, rest) == JoinedTo(later, rest)
  {
    FirstPart(rest);
    assert IsName(Split(rest)[0]);
    JoinedSplit(rest);
    NamesBelow(later, Split(rest));
    JoinedCleans(later, rest);
    CleanTwice(JoinedTo(later, rest));
    hide Clean, Split;
    var place := JoinedTo(later, rest);
    if later != "/" {
      EndsWithoutSlash(later);
      assert place[..|later| + 1] == later + "/";
    }
  }

  lemma RootItemReads(later: string, name: string)
    requires Absolute(later) && Clean(later) == later && IsName(name) && '\0' !in name
    ensures Resolved(later, "/" + name) == if later == "/" then "/" + name else ""
  {
    RootIsClean();
    CleanChild("/", name);
    CleanTwice("/" + "/" + name);
    hide Clean, Split;
    assert JoinedTo("/", name) == "/" + name;
    if later != "/" {
      OneSlash(name, later);
    }
  }

  lemma RestFromTop(topdir: string, folder: string, name: string)
    requires Above(topdir, folder) && Absolute(folder) && Clean(folder) == folder != "/" && IsName(name)
    ensures var canonical := folder + "/" + name;
            && Clean(canonical) == canonical
            && forall part :: part in Split(FromTop(topdir, canonical)) ==> IsName(part)
  {
    hide Clean, Split;
    var canonical := folder + "/" + name;
    CleanChild(folder, name);
    EndsWithoutSlash(folder);
    ItemIsBelow(topdir, folder, name);
    var rest := FromTop(topdir, canonical);
    assert canonical == (if topdir == "/" then "" else topdir) + "/" + rest;
    RestNames(topdir, canonical, rest);
  }

  lemma RemountedBelow(topdir: string, later: string, folder: string, name: string)
    requires Above(topdir, folder) && Absolute(folder) && Clean(folder) == folder != "/" && IsName(name)
    requires '\0' !in folder && '\0' !in name && Absolute(later) && Clean(later) == later
    ensures var canonical := folder + "/" + name;
            && Clean(canonical) == canonical
            && Resolved(later, FromTop(topdir, canonical)) == JoinedTo(later, FromTop(topdir, canonical))
  {
    hide Clean, Resolved, Split, IsName, JoinedTo;
    var canonical := folder + "/" + name;
    RestFromTop(topdir, folder, name);
    assert '\0' !in canonical;
    var rest := FromTop(topdir, canonical);
    assert forall c :: c in rest ==> c in canonical;
    RelativeReads(later, rest);
  }

  lemma RemountedRoot(later: string, name: string)
    requires IsName(name) && '\0' !in name && Absolute(later) && Clean(later) == later
    ensures var canonical := "/" + "/" + name;
            Resolved(later, FromTop("/", canonical)) == JoinedTo(later, FromTop("/", Clean(canonical)))
            <==> later == "/"
  {
    RootIsClean();
    CleanChild("/", name);
    RootItemReads(later, name);
    hide Clean, Resolved, Split, IsName;
    assert ("/" + "/" + name)[1..] == "/" + name && ("/" + name)[1..] == name;
    assert JoinedTo("/", name) == "/" + name;
    assert JoinedTo(later, name) != "";
  }

  /** The volume mounted elsewhere, the item reads back at the same place from the mount point,
      except just where it lay in the root folder and the volume is no longer the root. */
  lemma RemountedReadsBack(topdir: string, later: string, source: string, folder: string, name: string)
    requires OnWayUp(topdir, folder) && Absolute(folder) && Clean(folder) == folder && IsName(name)
    requires '\0' !in folder && '\0' !in name && Absolute(later) && Clean(later) == later
    ensures var canonical := folder + "/" + name;
            Resolved(later, Recorded(topdir, source, canonical)) == JoinedTo(later, FromTop(topdir, Clean(canonical)))
            <==> folder != "/" || later == "/"
  {
    hide Clean, Resolved, Split, IsName, AbsolutePathOf, FromTop, JoinedTo;
    var n: nat :| topdir == Up("/", folder, n);
    UpIsAbove(folder, n);
    if folder == "/" {
      assert topdir == "/";
      RemountedRoot(later, name);
    } else {
      RemountedBelow(topdir, later, folder, name);
    }
  }

  /** In the home trash, every source but the root reads back as its cleaned path. */
  lemma HomeReadsBack(source: string, canonical: string)
    requires Absolute(source) && Clean(source) != "/" && '\0' !in Clean(source)
    ensures Resolved("", Recorded("", source, canonical)) == Clean(source)
  {
    CleanTwice(source);
    CleanHasNames(source);
    hide Split;
  }

  // ----- The info file -----

  const GROUP := "[Trash Info]"

  // Inside the group or not, and the path read so far.
  datatype Found = Found(group: bool, path: string)

  function TakeLine(codec: Codec, topdir: string, found: Found, line: string): Found {
    if StartsWith(line, "[") then found.(group := line == GROUP)
    else if found.group && StartsWith(line, "Path=") then found.(path := Resolved(topdir, codec.decode(line[5..])))
    else found
  }

  function TakeLines(codec: Codec, topdir: string, lines: seq<string>): Found {
    if lines == [] then Found(false, "")
    else TakeLine(codec, topdir, TakeLines(codec, topdir, lines[..|lines| - 1]), Trimmed(lines[|lines| - 1]))
  }

  function ReadPath(codec: Codec, topdir: string, text: string): string {
    TakeLines(codec, topdir, Split(text, '\n')).path
  }

  function InfoText(codec: Codec, original: string, date: string): string {
    Joined([GROUP, "Path=" + codec.encode(original), "DeletionDate=" + date, ""], "\n")
  }

  /** An info file is the group's name, the path, the date and the end of the last line, as the
      trash specification has them. */
  lemma InfoFormat(codec: Codec, original: string, date: string)
    requires Faithful(codec) && IsDense(date)
    ensures Split(InfoText(codec, original, date), '\n') ==
            ["[Trash Info]", "Path=" + codec.encode(original), "DeletionDate=" + date, ""]
  {
    InfoLines(codec, original, date);
    var lines := [GROUP, "Path=" + codec.encode(original), "DeletionDate=" + date, ""];
    hide Split, Joined, Trimmed, IsDense;
    SplitJoined(lines, '\n');
  }

  lemma TakeTwo(codec: Codec, topdir: string, lines: seq<string>, line: string)
    ensures TakeLines(codec, topdir, lines + [line]) ==
            TakeLine(codec, topdir, TakeLines(codec, topdir, lines), Trimmed(line))
  {
    assert (lines + [line])[..|lines|] == lines;
  }

  /** The info file that was written reads back as the path it records, resolved. */
  lemma InfoReadsBack(codec: Codec, topdir: string, original: string, date: string)
    requires Faithful(codec) && IsDense(date)
    ensures ReadPath(codec, topdir, InfoText(codec, original, date)) == Resolved(topdir, original)
  {
    var path, deleted := "Path=" + codec.encode(original), "DeletionDate=" + date;
    var lines := [GROUP, path, deleted, ""];
    InfoLines(codec, original, date);
    hide Split, Joined, Resolved, Trimmed, TakeLine, IsDense;
    SplitJoined(lines, '\n');
    assert lines == [] + [GROUP] + [path] + [deleted] + [""];
    TakeTwo(codec, topdir, [], GROUP);
    TakeTwo(codec, topdir, [] + [GROUP], path);
    TakeTwo(codec, topdir, [] + [GROUP] + [path], deleted);
    TakeTwo(codec, topdir, [] + [GROUP] + [path] + [deleted], "");
    LinesTaken(codec, topdir, original, date);
  }

  lemma InfoLines(codec: Codec, original: string, date: string)
    requires Faithful(codec) && IsDense(date)
    ensures var path, deleted := "Path=" + codec.encode(original), "DeletionDate=" + date;
            && Trimmed(GROUP) == GROUP && Trimmed(path) == path && Trimmed(deleted) == deleted && Trimmed("") == ""
            && forall line :: line in [GROUP, path, deleted, ""] ==> '\n' !in line
  {
    var path, deleted := "Path=" + codec.encode(original), "DeletionDate=" + date;
    assert IsDense(codec.encode(original));
    DenseHasNoNewline(codec.encode(original));
    DenseHasNoNewline(date);
    TrimmedStays(GROUP);
    TrimmedStays(path);
    TrimmedStays(deleted);
    hide Trimmed;
  }

  lemma LinesTaken(codec: Codec, topdir: string, original: string, date: string)
    requires codec.decode(codec.encode(original)) == original
    ensures var path, deleted := "Path=" + codec.encode(original), "DeletionDate=" + date;
            var one := TakeLine(codec, topdir, Found(false, ""), GROUP);
            var two := TakeLine(codec, topdir, one, path);
            TakeLine(codec, topdir, TakeLine(codec, topdir, two, deleted), "").path == Resolved(topdir, original)
  {
    hide Resolved;
    var path := "Path=" + codec.encode(original);
    var deleted := "DeletionDate=" + date;
    assert path[5..] == codec.encode(original) && path[..5] == "Path=";
    assert GROUP[..1] == "[" && path[0] == 'P' && deleted[0] == 'D';
    assert path[..1][0] != "["[0] && deleted[..1][0] != "["[0] && deleted[..5][0] != "Path="[0];
  }
}
