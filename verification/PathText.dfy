/** Paths as text: cleaning one keeps what it names, and cutting it takes whole components. */
module PathText {
  import opened Texts

  // ----- Components -----

  predicate Absolute(path: string) {
    path != "" && path[0] == '/'
  }

  // ----- What a path names -----

  // One component from a folder given by the names that lead to it; the root is its own parent.
  function Step(at: seq<string>, part: string): seq<string> {
    if part == "" || part == "." then at
    else if part == ".." then (if at == [] then [] else at[..|at| - 1])
    else at + [part]
  }

  function Walk(at: seq<string>, parts: seq<string>): seq<string> {
    if parts == [] then at else Step(Walk(at, parts[..|parts| - 1]), parts[|parts| - 1])
  }

  // The place a path names from a folder, as far as names alone tell.
  function Names(folder: seq<string>, path: string): seq<string> {
    Walk(if Absolute(path) then [] else folder, Split(path))
  }

  // ----- Cleaning -----

  function Push(absolute: bool, parts: seq<string>, part: string): seq<string> {
    if part == "" || part == "." then parts
    else if part == ".." then
      if parts != [] && parts[|parts| - 1] != ".." then parts[..|parts| - 1]
      else if absolute then parts
      else parts + [part]
    else parts + [part]
  }

  function Reduced(absolute: bool, parts: seq<string>): seq<string> {
    if parts == [] then [] else Push(absolute, Reduced(absolute, parts[..|parts| - 1]), parts[|parts| - 1])
  }

  function Text(absolute: bool, parts: seq<string>): string {
    var text := (if absolute then "/" else "") + Joined(parts);
    if text == "" then "." else text
  }

  function Clean(path: string): string {
    if path == "" then "" else Text(Absolute(path), Reduced(Absolute(path), Split(path)))
  }

  // A component that stays: a name, or one of the leading ".." of a relative path.
  predicate IsName(part: string) {
    part != "" && part != "." && part != ".." && '/' !in part
  }

  ghost predicate Tidy(absolute: bool, parts: seq<string>) {
    && (forall k :: 0 <= k < |parts| ==> IsName(parts[k]) || (!absolute && parts[k] == ".."))
    && (forall j, k :: 0 <= j < k < |parts| && parts[k] == ".." ==> parts[j] == "..")
  }

  lemma {:induction false} ReducedIsTidy(absolute: bool, parts: seq<string>)
    requires forall part :: part in parts ==> '/' !in part
    ensures Tidy(absolute, Reduced(absolute, parts))
    decreases |parts|
  {
    if parts != [] {
      ReducedIsTidy(absolute, parts[..|parts| - 1]);
    }
  }

  lemma {:induction false} TidyStays(absolute: bool, parts: seq<string>)
    requires Tidy(absolute, parts)
    ensures Reduced(absolute, parts) == parts
    decreases |parts|
  {
    if parts != [] {
      var rest, last := parts[..|parts| - 1], parts[|parts| - 1];
      TidyStays(absolute, rest);
      assert parts == rest + [last];
      if last == ".." && rest != [] {
        assert parts[|rest| - 1] == "..";
      }
    }
  }

  // The components of clean text, but for the empty one before a leading slash.
  lemma SplitText(absolute: bool, parts: seq<string>)
    requires Tidy(absolute, parts)
    ensures Absolute(Text(absolute, parts)) == absolute
    ensures Split(Text(absolute, parts)) ==
            if absolute then [""] + (if parts == [] then [""] else parts)
            else if parts == [] then ["."] else parts
  {
    var joined := Joined(parts);
    forall part | part in parts
      ensures '/' !in part
    {
    }
    if parts != [] {
      SplitJoined(parts);
      JoinedStarts(parts);
    }
    if absolute {
      var text := "/" + joined;
      FirstIs(text, 0);
      assert text[1..] == joined && text[..0] == "";
      if parts == [] {
        SplitPlain("");
      }
    } else if parts == [] {
      SplitPlain(".");
    } else {
      assert "" + joined == joined;
    }
  }

  lemma {:induction false} JoinedStarts(parts: seq<string>)
    requires parts != [] && parts[0] != ""
    ensures Joined(parts) != "" && Joined(parts)[0] == parts[0][0]
    decreases |parts|
  {
    if |parts| > 1 {
      JoinedStarts(parts[..|parts| - 1]);
    }
  }

  /** Cleaning what is clean changes nothing. */
  lemma CleanTwice(path: string)
    ensures Clean(Clean(path)) == Clean(path)
  {
    if path != "" {
      var absolute := Absolute(path);
      var parts := Reduced(absolute, Split(path));
      SplitHasNone(path);
      ReducedIsTidy(absolute, Split(path));
      SplitText(absolute, parts);
      TextReduces(absolute, parts);
    }
  }

  lemma TextReduces(absolute: bool, parts: seq<string>)
    requires Tidy(absolute, parts)
    ensures Reduced(absolute, Split(Text(absolute, parts))) == parts
  {
    SplitText(absolute, parts);
    TidyStays(absolute, parts);
    if parts == [] {
      assert Reduced(absolute, [""]) == [] && Reduced(absolute, ["."]) == [];
      assert ["", ""][..1] == [""];
    } else if absolute {
      ReducedAfterEmpty(absolute, parts);
    }
  }

  lemma {:induction false} ReducedAfterEmpty(absolute: bool, parts: seq<string>)
    ensures Reduced(absolute, [""] + parts) == Reduced(absolute, parts)
    decreases |parts|
  {
    if parts == [] {
      assert [""] + parts == [""];
      assert Reduced(absolute, [""]) == Push(absolute, Reduced(absolute, [""][..0]), "");
    } else {
      ReducedAfterEmpty(absolute, parts[..|parts| - 1]);
      assert ([""] + parts)[..|parts|] == [""] + parts[..|parts| - 1];
    }
  }

  /** A cleaned absolute path has only names between its slashes. */
  lemma CleanHasNames(path: string)
    requires Absolute(path)
    ensures Absolute(Clean(path))
    ensures Clean(path) == "/" || forall k :: 1 <= k < |Split(Clean(path))| ==> IsName(Split(Clean(path))[k])
  {
    SplitHasNone(path);
    ReducedIsTidy(true, Split(path));
    SplitText(true, Reduced(true, Split(path)));
  }

  // ----- What cleaning keeps -----

  // Reducing components does not change where they lead, from anywhere.
  lemma {:induction false} ReducedLeadsSame(absolute: bool, parts: seq<string>, folder: seq<string>)
    requires forall part :: part in parts ==> '/' !in part
    requires absolute ==> folder == []
    ensures Walk(folder, Reduced(absolute, parts)) == Walk(folder, parts)
    decreases |parts|
  {
    if parts != [] {
      var rest, last := parts[..|parts| - 1], parts[|parts| - 1];
      ReducedLeadsSame(absolute, rest, folder);
      ReducedIsTidy(absolute, rest);
      PushLeadsSame(absolute, Reduced(absolute, rest), last, folder);
    }
  }

  lemma PushLeadsSame(absolute: bool, parts: seq<string>, part: string, folder: seq<string>)
    requires Tidy(absolute, parts) && (absolute ==> folder == [])
    ensures Walk(folder, Push(absolute, parts, part)) == Step(Walk(folder, parts), part)
  {
    if part == ".." {
      if parts != [] && parts[|parts| - 1] != ".." {
        assert IsName(parts[|parts| - 1]);
      } else if absolute {
        assert parts == [];
      } else {
        assert (parts + [part])[..|parts|] == parts;
      }
    } else if part != "" && part != "." {
      assert (parts + [part])[..|parts|] == parts;
    }
  }

  /** A cleaned path names what the path named, from every folder. */
  lemma CleanNamesSame(path: string, folder: seq<string>)
    requires path != ""
    ensures Names(folder, Clean(path)) == Names(folder, path)
  {
    var absolute := Absolute(path);
    var parts := Reduced(absolute, Split(path));
    var from := if absolute then [] else folder;
    SplitHasNone(path);
    ReducedIsTidy(absolute, Split(path));
    ReducedLeadsSame(absolute, Split(path), from);
    SplitText(absolute, parts);
    if parts == [] {
      WalkNowhere(from, "");
      WalkNowhere(from, ".");
      WalkAfterEmpty(from, [""]);
      assert [""] + [""] == ["", ""];
    } else if absolute {
      WalkAfterEmpty(from, parts);
    }
  }

  lemma WalkNowhere(at: seq<string>, part: string)
    requires part == "" || part == "."
    ensures Walk(at, [part]) == at
  {
    assert [part][..0] == [];
  }

  lemma {:induction false} WalkAfterEmpty(at: seq<string>, parts: seq<string>)
    ensures Walk(at, [""] + parts) == Walk(at, parts)
    decreases |parts|
  {
    if parts == [] {
      WalkNowhere(at, "");
      assert [""] + parts == [""];
    } else {
      hide Step;
      WalkAfterEmpty(at, parts[..|parts| - 1]);
      assert ([""] + parts)[..|parts|] == [""] + parts[..|parts| - 1];
    }
  }

  // ----- The loop -----

  // The components from a place in the text on; none past its end.
  function From(path: string, start: nat): seq<string> {
    if start <= |path| then Split(path[start..]) else []
  }

  // The next component, and what follows its slash.
  lemma SplitFrom(path: string, start: nat, part: string)
    requires start <= |path| && part == path[start..start + First(path[start..])]
    ensures From(path, start) == [part] + From(path, start + |part| + 1)
  {
    hide Split;
    var rest := path[start..];
    var k := First(rest);
    hide First;
    assert rest[..k] == part;
    if k < |rest| {
      SplitAt(rest, k);
      assert rest[k + 1..] == path[start + k + 1..];
    } else {
      assert rest[..k] == rest;
      SplitPlain(rest);
    }
  }

  lemma NextPart(path: string, seen: seq<string>, start: nat, part: string)
    requires start <= |path| && Split(path) == seen + From(path, start)
    requires part == path[start..start + First(path[start..])]
    ensures Split(path) == (seen + [part]) + From(path, start + |part| + 1)
  {
    SplitFrom(path, start, part);
    hide From, Split, First;
    Regroup(seen, [part], From(path, start + |part| + 1));
  }

  lemma PartReduced(absolute: bool, seen: seq<string>, part: string)
    ensures Reduced(absolute, seen + [part]) == Push(absolute, Reduced(absolute, seen), part)
  {
    assert (seen + [part])[..|seen|] == seen;
  }

  // The components that stay, taken off the text one at a time.
  method ReducedParts(path: string) returns (parts: seq<string>)
    requires path != ""
    ensures parts == Reduced(Absolute(path), Split(path))
  {
    hide *;
    var absolute := Absolute(path);
    parts := [];
    var start := 0;
    ghost var seen: seq<string> := [];
    AllParts(absolute, path);
    while start <= |path|
      invariant start <= |path| + 1
      invariant parts == Reduced(absolute, seen)
      invariant Split(path) == seen + From(path, start)
      decreases |path| + 1 - start
    {
      var end := start + First(path[start..]);
      var part := path[start..end];
      NextPart(path, seen, start, part);
      PartReduced(absolute, seen, part);
      parts := PushPart(absolute, parts, part);
      seen := seen + [part];
      start := end + 1;
    }
    NoMore(path, start, seen);
  }

  lemma AllParts(absolute: bool, path: string)
    ensures Reduced(absolute, []) == [] && Split(path) == [] + From(path, 0)
  {
    assert path[0..] == path;
  }

  lemma NoMore(path: string, start: nat, seen: seq<string>)
    requires start > |path|
    ensures seen + From(path, start) == seen
  {
  }

  method PushPart(absolute: bool, parts: seq<string>, part: string) returns (more: seq<string>)
    ensures more == Push(absolute, parts, part)
  {
    more := parts;
    if part == "" || part == "." {
    } else if part == ".." {
      if parts != [] && parts[|parts| - 1] != ".." {
        more := parts[..|parts| - 1];
      } else if !absolute {
        more := parts + [part];
      }
    } else {
      more := parts + [part];
    }
  }

  /** The scan over the text, and the text of what stays. */
  method CleanPath(path: string) returns (clean: string)
    ensures clean == Clean(path)
  {
    if path == "" {
      return "";
    }
    var absolute := path[0] == '/';
    var parts := ReducedParts(path);
    hide Reduced, Split, Joined;
    var lead := if absolute then "/" else "";
    clean := lead;
    var i := 0;
    JoinedNone(lead, parts);
    while i < |parts|
      invariant i <= |parts| && clean == lead + Joined(parts[..i])
    {
      JoinedNext(lead, parts, i);
      if i > 0 {
        clean := clean + "/";
      }
      clean := clean + parts[i];
      i := i + 1;
    }
    assert parts[..i] == parts;
    if clean == "" {
      clean := ".";
    }
  }

  lemma JoinedNone(lead: string, parts: seq<string>)
    ensures lead == lead + Joined(parts[..0])
  {
  }

  lemma JoinedNext(lead: string, parts: seq<string>, i: nat)
    requires i < |parts|
    ensures lead + Joined(parts[..i + 1]) == (lead + Joined(parts[..i]) + if i > 0 then "/" else "") + parts[i]
  {
    assert parts[..i + 1][..i] == parts[..i];
    var before := Joined(parts[..i]);
    if i > 0 {
      assert Joined(parts[..i + 1]) == before + "/" + parts[i];
      assert lead + (before + "/" + parts[i]) == ((lead + before) + "/") + parts[i];
    } else {
      assert lead + before + "" == lead;
    }
  }

  // ----- Folders and names -----

  function FileNameOf(path: string): string {
    path[Last(path) + 1..]
  }

  // What is before the last slash, made absolute and clean.
  function AbsolutePathOf(current: string, path: string): string {
    var full := if Absolute(path) then path else current + "/" + path;
    var slash := Last(full);
    if slash == 0 then "/" else if slash < 0 then Clean(full) else Clean(full[..slash])
  }

  function JoinedTo(folder: string, name: string): string {
    if folder != "" && folder[|folder| - 1] == '/' then folder + name else folder + "/" + name
  }

  lemma {:induction false} ReducedNotLonger(absolute: bool, parts: seq<string>)
    ensures |Joined(Reduced(absolute, parts))| <= |Joined(parts)| && |Reduced(absolute, parts)| <= |parts|
    decreases |parts|
  {
    if parts != [] {
      var rest, last := parts[..|parts| - 1], parts[|parts| - 1];
      ReducedNotLonger(absolute, rest);
      PushNotLonger(absolute, Reduced(absolute, rest), last);
    }
  }

  lemma PushNotLonger(absolute: bool, parts: seq<string>, part: string)
    ensures |Joined(Push(absolute, parts, part))| <= |Joined(parts)| + |part| + if parts == [] then 0 else 1
    ensures |Push(absolute, parts, part)| <= |parts| + 1
  {
    assert (parts + [part])[..|parts|] == parts;
  }

  lemma CleanNotLonger(path: string)
    requires path != ""
    ensures |Clean(path)| <= |path|
  {
    JoinedSplit(path);
    if Absolute(path) {
      var rest := From(path, 1);
      SplitText0(path);
      ReducedAfterEmpty(true, rest);
      ReducedNotLonger(true, rest);
      JoinedFirst("", rest);
    } else {
      ReducedNotLonger(false, Split(path));
    }
  }

  lemma SplitText0(path: string)
    requires Absolute(path)
    ensures Split(path) == [""] + From(path, 1) && From(path, 1) != []
  {
    assert path[..0] == "";
  }

  /** The folder of a path is strictly shorter than the path, but for the root. */
  lemma FolderIsShorter(current: string, path: string)
    requires Absolute(path) && path != "/"
    ensures Absolute(AbsolutePathOf(current, path)) && |AbsolutePathOf(current, path)| < |path|
  {
    var slash := Last(path);
    assert slash >= 0;
    if slash > 0 {
      CleanNotLonger(path[..slash]);
      CleanHasNames(path[..slash]);
    }
  }

  /** Joining the folder of a clean path with its name gives the path back. */
  lemma JoinedBack(current: string, path: string)
    requires Absolute(path) && Clean(path) == path != "/"
    ensures JoinedTo(AbsolutePathOf(current, path), FileNameOf(path)) == path
  {
    var parts := Reduced(true, Split(path));
    SplitHasNone(path);
    ReducedIsTidy(true, Split(path));
    assert parts != [];
    if |parts| == 1 {
      assert path == "" + "/" + parts[0];
      LastSlashOf("", parts[0]);
    } else {
      JoinedBackDeep(current, path, parts[..|parts| - 1], parts[|parts| - 1]);
    }
  }

  lemma JoinedBackDeep(current: string, path: string, rest: seq<string>, last: string)
    requires rest != [] && Tidy(true, rest) && IsName(last) && path == "/" + (Joined(rest) + "/" + last)
    ensures JoinedTo(AbsolutePathOf(current, path), FileNameOf(path)) == path
  {
    TidyFolder(rest);
    EndsInName(rest);
    hide *;
    JoinedBackAt(current, path, Joined(rest), last);
  }

  lemma JoinedBackAt(current: string, path: string, rest: string, last: string)
    requires path == "/" + (rest + "/" + last) && IsName(last) && rest != ""
    requires Clean("/" + rest) == "/" + rest && ("/" + rest)[|rest|] != '/'
    ensures JoinedTo(AbsolutePathOf(current, path), FileNameOf(path)) == path
  {
    assert path == ("/" + rest) + "/" + last;
    JoinedBackParts(current, path, "/" + rest, last);
  }

  // A folder's clean text: cleaning keeps it, and it does not end in a slash.
  lemma TidyFolder(parts: seq<string>)
    requires parts != [] && Tidy(true, parts)
    ensures var folder := "/" + Joined(parts); Clean(folder) == folder && folder[|folder| - 1] != '/'
  {
    TextReduces(true, parts);
    EndsInName(parts);
    SplitText(true, parts);
    hide Split, Reduced, Joined;
  }

  lemma JoinedBackParts(current: string, path: string, folder: string, name: string)
    requires path == folder + "/" + name && '/' !in name && |folder| > 1 && Absolute(folder)
    requires Clean(folder) == folder && folder[|folder| - 1] != '/'
    ensures JoinedTo(AbsolutePathOf(current, path), FileNameOf(path)) == path
  {
    hide Clean;
    LastSlashOf(folder, name);
    assert path[..|folder|] == folder && path[|folder| + 1..] == name;
  }

  lemma EndsInName(parts: seq<string>)
    requires parts != [] && Tidy(true, parts)
    ensures Joined(parts) != "" && Joined(parts)[|Joined(parts)| - 1] != '/'
  {
    var last := parts[|parts| - 1];
    assert last[|last| - 1] in last;
  }

  // How far up the walk has come.
  function Up(current: string, path: string, n: nat): string {
    if n == 0 then path else AbsolutePathOf(current, Up(current, path, n - 1))
  }

  /** The nearest folder that exists on the way up; the walk ends, at the root at the latest. */
  method ExistingAncestor(current: string, path: string, folders: set<string>) returns (found: string)
    requires current == "" || Absolute(current)
    ensures exists n: nat ::
              && found == Up(current, path, n) && (forall k :: 0 <= k < n ==> Up(current, path, k) !in folders)
              && (found in folders || AbsolutePathOf(current, found) == found)
  {
    hide AbsolutePathOf, Clean;
    found := path;
    ghost var n := 0;
    while found !in folders
      invariant found == Up(current, path, n) && forall k :: 0 <= k < n ==> Up(current, path, k) !in folders
      decreases if Absolute(found) then 0 else 1, |found|
    {
      var parent := AbsolutePathOf(current, found);
      if parent == found {
        break;
      }
      if Absolute(found) {
        if found == "/" {
          FolderOfRoot(current);
        }
        FolderIsShorter(current, found);
      } else {
        FolderIsAbsolute(current, found);
      }
      found := parent;
      n := n + 1;
    }
  }

  lemma FolderOfRoot(current: string)
    ensures AbsolutePathOf(current, "/") == "/"
  {
    assert Last("/") == 0;
  }

  lemma FolderIsAbsolute(current: string, path: string)
    requires !Absolute(path) && (current == "" || Absolute(current))
    ensures Absolute(AbsolutePathOf(current, path))
  {
    var full := current + "/" + path;
    var slash := Last(full);
    assert full[0] == '/';
    assert slash >= 0;
    if slash > 0 {
      CleanHasNames(full[..slash]);
    }
  }
}
