/** Text split at a character and joined again; the character is a slash unless said otherwise. */
module Texts {

  // The first place of the character, or the length.
  function First(s: string, c: char := '/'): (k: nat)
    ensures k <= |s| && c !in s[..k] && (k < |s| ==> s[k] == c)
  {
    if s == "" || s[0] == c then 0 else 1 + First(s[1..], c)
  }

  // The last place of the character, or -1.
  function Last(s: string, c: char := '/'): (k: int)
    ensures -1 <= k < |s| && c !in s[k + 1..] && (k >= 0 ==> s[k] == c)
  {
    if s == "" then -1 else if s[|s| - 1] == c then |s| - 1 else Last(s[..|s| - 1], c)
  }

  // What the character separates, empty parts and all.
  function Split(s: string, c: char := '/'): (parts: seq<string>)
    ensures parts != []
    decreases |s|
  {
    var k := First(s, c);
    if k == |s| then [s] else [s[..k]] + Split(s[k + 1..], c)
  }

  function Joined(parts: seq<string>, separator: string := "/"): string {
    if parts == [] then ""
    else if |parts| == 1 then parts[0]
    else Joined(parts[..|parts| - 1], separator) + separator + parts[|parts| - 1]
  }

  lemma FirstIs(s: string, k: nat, c: char := '/')
    requires k < |s| && s[k] == c && c !in s[..k]
    ensures First(s, c) == k
  {
    var f := First(s, c);
    assert f >= k && f <= k;
  }

  lemma LastIs(s: string, k: nat, c: char := '/')
    requires k < |s| && s[k] == c && c !in s[k + 1..]
    ensures Last(s, c) == k
  {
    assert k <= Last(s, c) <= k;
  }

  lemma LastSlashOf(folder: string, name: string)
    requires '/' !in name
    ensures Last(folder + "/" + name) == |folder|
  {
    var whole := folder + "/" + name;
    assert whole[|folder|] == '/' && whole[|folder| + 1..] == name;
    LastIs(whole, |folder|);
  }

  lemma Regroup<T>(a: seq<T>, b: seq<T>, c: seq<T>)
    ensures a + (b + c) == (a + b) + c
  {
  }

  // ----- Splitting what was joined -----

  lemma {:induction false} SplitHasNone(s: string, c: char := '/')
    ensures forall part :: part in Split(s, c) ==> c !in part
    decreases |s|
  {
    var k := First(s, c);
    if k < |s| {
      SplitHasNone(s[k + 1..], c);
    }
  }

  lemma SplitPlain(s: string, c: char := '/')
    requires c !in s
    ensures Split(s, c) == [s]
  {
    var k := First(s, c);
    assert k == |s|;
  }

  lemma SplitAt(s: string, k: nat, c: char := '/')
    requires k < |s| && s[k] == c && c !in s[..k]
    ensures Split(s, c) == [s[..k]] + Split(s[k + 1..], c)
  {
    FirstIs(s, k, c);
  }

  lemma WholeAt(s: string, part: string, c: char, k: nat)
    requires k == First(s, c)
    ensures var whole := s + [c] + part;
            && k < |whole| && whole[k] == c && whole[..k] == s[..k]
            && whole[k + 1..] == if k == |s| then part else s[k + 1..] + [c] + part
  {
  }

  lemma {:induction false} SplitAppend(s: string, part: string, c: char := '/')
    requires c !in part
    ensures Split(s + [c] + part, c) == Split(s, c) + [part]
    decreases |s|
  {
    var whole := s + [c] + part;
    var k := First(s, c);
    WholeAt(s, part, c, k);
    SplitAt(whole, k, c);
    if k == |s| {
      assert s[..k] == s;
      SplitPlain(part, c);
      SplitPlain(s, c);
    } else {
      SplitAppend(s[k + 1..], part, c);
      SplitAt(s, k, c);
      Regroup([s[..k]], Split(s[k + 1..], c), [part]);
    }
    hide *;
  }

  /** Splitting what was joined gives back the parts. */
  lemma {:induction false} SplitJoined(parts: seq<string>, c: char := '/')
    requires parts != [] && forall part :: part in parts ==> c !in part
    ensures Split(Joined(parts, [c]), c) == parts
    decreases |parts|
  {
    var n := |parts| - 1;
    if n == 0 {
      SplitPlain(parts[0], c);
    } else {
      SplitJoined(parts[..n], c);
      SplitAppend(Joined(parts[..n], [c]), parts[n], c);
      assert parts == parts[..n] + [parts[n]];
    }
  }

  lemma {:induction false} JoinedFirst(part: string, parts: seq<string>, separator: string := "/")
    requires parts != []
    ensures Joined([part] + parts, separator) == part + separator + Joined(parts, separator)
    decreases |parts|
  {
    var n := |parts| - 1;
    assert ([part] + parts)[..n + 1] == [part] + parts[..n];
    if n == 0 {
      assert parts == [parts[0]];
      assert Joined([part], separator) == part;
    } else {
      JoinedFirst(part, parts[..n], separator);
      assert Joined([part] + parts, separator) == (part + separator + Joined(parts[..n], separator)) + separator
             + parts[n];
      assert Joined(parts, separator) == Joined(parts[..n], separator) + separator + parts[n];
    }
  }

  /** Joining what was split gives back the text. */
  lemma {:induction false} JoinedSplit(s: string, c: char := '/')
    ensures Joined(Split(s, c), [c]) == s
    decreases |s|
  {
    hide Split;
    var k := First(s, c);
    if k == |s| {
      SplitPlain(s, c);
    } else {
      hide First, Joined;
      SplitAt(s, k, c);
      JoinedSplit(s[k + 1..], c);
      JoinedFirst(s[..k], Split(s[k + 1..], c), [c]);
      assert s == s[..k] + [c] + s[k + 1..];
    }
  }
}
