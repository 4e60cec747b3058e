/** Which types a file name alone suggests: the bookkeeping of matches by weight and length,
    and the descent through the tree of reversed extensions that a MIME cache holds. */
module NameMatching {
  import opened Wildcard

  // ----- Bookkeeping -----

  datatype Call = Call(mimeType: string, weight: nat, length: nat)

  datatype Names = Names(matching: seq<string>, all: seq<string>, weight: nat, length: nat)

  const NO_NAMES := Names([], [], 0, 0)

  function Add(n: Names, c: Call): Names {
    if c.mimeType in n.all then n
    else if c.weight < n.weight then n.(all := n.all + [c.mimeType])
    else if c.weight == n.weight && c.length < n.length then n
    else if c.weight > n.weight || c.length > n.length then
      Names([c.mimeType], [c.mimeType] + n.all, c.weight, c.length)
    else if c.mimeType in n.matching then n
    else n.(matching := n.matching + [c.mimeType], all := n.all + [c.mimeType])
  }

  function AddAll(calls: seq<Call>): Names {
    if calls == [] then NO_NAMES else Add(AddAll(calls[..|calls| - 1]), calls[|calls| - 1])
  }

  // Weight first, then length.
  predicate Below(weight: nat, length: nat, c: Call) {
    weight < c.weight || (weight == c.weight && length < c.length)
  }

  // The calls that found their type not listed yet.
  function Counted(calls: seq<Call>): seq<Call> {
    if calls == [] then []
    else
      var before := calls[..|calls| - 1];
      var last := calls[|calls| - 1];
      Counted(before) + if last.mimeType in AddAll(before).all then [] else [last]
  }

  function TypesWith(calls: seq<Call>, weight: nat, length: nat): seq<string> {
    if calls == [] then []
    else
      var last := calls[|calls| - 1];
      TypesWith(calls[..|calls| - 1], weight, length)
      + if last.weight == weight && last.length == length then [last.mimeType] else []
  }

  lemma {:induction false} NoneWith(calls: seq<Call>, weight: nat, length: nat)
    requires forall k :: 0 <= k < |calls| ==> calls[k].weight != weight || calls[k].length != length
    ensures TypesWith(calls, weight, length) == []
    decreases |calls|
  {
    if calls != [] {
      NoneWith(calls[..|calls| - 1], weight, length);
    }
  }

  // The call is for a type of the weight that was the highest so far, with a shorter pattern.
  predicate IsShadowed(calls: seq<Call>, k: nat)
    requires k < |calls|
  {
    var before := AddAll(calls[..k]);
    calls[k].weight == before.weight && calls[k].length < before.length
  }

  lemma ShadowedLast(calls: seq<Call>)
    requires calls != []
    ensures var before, last := AddAll(calls[..|calls| - 1]), calls[|calls| - 1];
            IsShadowed(calls, |calls| - 1) <==> last.weight == before.weight && last.length < before.length
  {
  }

  /** All types are listed that some call offered, but for calls with the highest weight so far and a
      shorter pattern. */
  lemma {:induction false} AllAreListed(calls: seq<Call>, mimeType: string)
    ensures mimeType in AddAll(calls).all <==>
            exists k :: 0 <= k < |calls| && calls[k].mimeType == mimeType && !IsShadowed(calls, k)
    decreases |calls|
  {
    if calls != [] {
      var n := |calls| - 1;
      var before, last := calls[..n], calls[n];
      AllAreListed(before, mimeType);
      forall k | 0 <= k < n
        ensures IsShadowed(calls, k) <==> IsShadowed(before, k)
      {
        assert calls[..k] == before[..k];
      }
      if mimeType in AddAll(before).all {
        var k :| 0 <= k < n && before[k].mimeType == mimeType && !IsShadowed(before, k);
        assert calls[k].mimeType == mimeType && !IsShadowed(calls, k);
      }
      ListedOnce(before);
      hide IsShadowed;
      ShadowedLast(calls);
    }
  }

  ghost predicate NoRepeats(types: seq<string>) {
    forall i, j :: 0 <= i < j < |types| ==> types[i] != types[j]
  }

  lemma {:induction false} ListedOnce(calls: seq<Call>)
    ensures var n := AddAll(calls);
            && NoRepeats(n.all)
            && (forall t :: t in n.matching ==> t in n.all)
            && (forall t :: t in n.all ==> exists k :: 0 <= k < |calls| && calls[k].mimeType == t)
    decreases |calls|
  {
    if calls != [] {
      var before := calls[..|calls| - 1];
      ListedOnce(before);
      forall t | t in AddAll(calls).all
        ensures exists k :: 0 <= k < |calls| && calls[k].mimeType == t
      {
        if t in AddAll(before).all {
          var k :| 0 <= k < |before| && before[k].mimeType == t;
          assert calls[k].mimeType == t;
        } else {
          assert calls[|calls| - 1].mimeType == t;
        }
      }
    }
  }

  // The names hold the calls of the highest weight and, among those, the longest pattern.
  ghost predicate Best(n: Names, counted: seq<Call>) {
    && (forall k :: 0 <= k < |counted| ==> !Below(n.weight, n.length, counted[k]))
    && (counted != [] ==>
          exists k :: 0 <= k < |counted| && counted[k].weight == n.weight && counted[k].length == n.length)
    && (counted == [] ==> n == NO_NAMES)
    && n.matching == TypesWith(counted, n.weight, n.length)
  }

  lemma TypesWithMore(calls: seq<Call>, last: Call, weight: nat, length: nat)
    ensures TypesWith(calls + [last], weight, length) ==
            TypesWith(calls, weight, length)
            + if last.weight == weight && last.length == length then [last.mimeType] else []
  {
    assert (calls + [last])[..|calls|] == calls;
  }

  // A call above all those before is alone the best.
  lemma BestReplaced(n: Names, counted: seq<Call>, last: Call)
    requires Best(n, counted) && Below(n.weight, n.length, last)
    ensures Best(n.(matching := [last.mimeType], weight := last.weight, length := last.length), counted + [last])
  {
    hide TypesWith;
    var more := counted + [last];
    assert more[|counted|] == last;
    NoneWith(counted, last.weight, last.length);
    TypesWithMore(counted, last, last.weight, last.length);
  }

  // Any other call joins the best or leaves them alone.
  lemma BestJoined(n: Names, counted: seq<Call>, last: Call)
    requires Best(n, counted) && counted != [] && !Below(n.weight, n.length, last)
    ensures var joins := last.weight == n.weight && last.length == n.length;
            Best(n.(matching := if joins then n.matching + [last.mimeType] else n.matching), counted + [last])
  {
    hide TypesWith;
    var more := counted + [last];
    TypesWithMore(counted, last, n.weight, n.length);
    var k :| 0 <= k < |counted| && counted[k].weight == n.weight && counted[k].length == n.length;
    assert more[k] == counted[k];
  }

  lemma BestIgnoresAll(n: Names, all: seq<string>, counted: seq<Call>)
    requires Best(n, counted) && counted != []
    ensures Best(n.(all := all), counted)
  {
  }

  lemma BestStep(n: Names, counted: seq<Call>, last: Call)
    requires Best(n, counted) && last.length > 0
    requires last.mimeType !in n.all && last.mimeType !in n.matching
    ensures Best(Add(n, last), counted + [last])
  {
    var next := Add(n, last);
    if Below(n.weight, n.length, last) {
      BestReplaced(n, counted, last);
      hide Best;
      BestIgnoresAll(n.(matching := [last.mimeType], weight := last.weight, length := last.length), next.all,
        counted + [last]);
    } else {
      BestJoined(n, counted, last);
      hide Best;
      var joins := last.weight == n.weight && last.length == n.length;
      BestIgnoresAll(n.(matching := if joins then n.matching + [last.mimeType] else n.matching), next.all,
        counted + [last]);
    }
  }

  /** The matches are, in the order they came, exactly the types with the highest weight and
      among those the longest pattern; a type listed already does not count again. */
  lemma {:induction false} HighestThenLongest(calls: seq<Call>)
    requires forall k :: 0 <= k < |calls| ==> calls[k].length > 0
    ensures Best(AddAll(calls), Counted(calls))
    decreases |calls|
  {
    if calls == [] {
      assert Best(NO_NAMES, []);
    } else {
      HighestThenLongest(calls[..|calls| - 1]);
      BestNext(calls);
    }
  }

  lemma BestNext(calls: seq<Call>)
    requires calls != [] && calls[|calls| - 1].length > 0
    requires Best(AddAll(calls[..|calls| - 1]), Counted(calls[..|calls| - 1]))
    ensures Best(AddAll(calls), Counted(calls))
  {
    hide Best, Add, TypesWith;
    var before, last := calls[..|calls| - 1], calls[|calls| - 1];
    ListedOnce(before);
    if last.mimeType in AddAll(before).all {
      ListedStays(AddAll(before), last);
      assert Counted(calls) == Counted(before);
    } else {
      BestStep(AddAll(before), Counted(before), last);
    }
  }

  lemma ListedStays(n: Names, c: Call)
    requires c.mimeType in n.all
    ensures Add(n, c) == n
  {
  }

  class NameMatches {
    var matching: seq<string>
    var all: seq<string>
    var weight: nat
    var length: nat
    // Everything added so far.
    ghost var calls: seq<Call>

    constructor ()
      ensures Valid() && calls == []
    {
      matching, all, weight, length, calls := [], [], 0, 0, [];
    }

    ghost predicate Valid()
      reads this
    {
      Names(matching, all, weight, length) == AddAll(calls)
    }

    method Insert(mimeType: string, globWeight: nat, patternLength: nat)
      requires Valid()
      modifies this
      ensures Valid() && calls == old(calls) + [Call(mimeType, globWeight, patternLength)]
    {
      ghost var c := Call(mimeType, globWeight, patternLength);
      assert (calls + [c])[..|calls|] == calls;
      calls := calls + [c];
      if mimeType in all {
        return;
      }
      if globWeight < weight {
        all := all + [mimeType];
        return;
      }
      var replace := globWeight > weight;
      if !replace {
        if patternLength < length {
          return;
        }
        replace := patternLength > length;
      }
      if replace {
        matching := [];
        length := patternLength;
        weight := globWeight;
      }
      if mimeType !in matching {
        matching := matching + [mimeType];
        all := if replace then [mimeType] + all else all + [mimeType];
      }
    }
  }

  // ----- The tree of extensions, read from their ends -----

  // At each level the leaves come first, then the branches by character.
  datatype Entry =
    | Leaf(mimeType: string, weight: nat, caseSensitive: bool)
    | Branch(ch: Unit, children: seq<Entry>)

  // A leaf's character is 0.
  function CharOf(e: Entry): Unit {
    if e.Leaf? then 0 else e.ch
  }

  ghost predicate Sorted(level: seq<Entry>)
  {
    && (forall i, j :: 0 <= i < j < |level| && level[j].Leaf? ==> level[i].Leaf?)
    && (forall i, j :: 0 <= i < j < |level| && level[i].Branch? ==> level[j].Branch? && level[i].ch < level[j].ch)
    && (forall k :: 0 <= k < |level| && level[k].Branch? ==> level[k].ch > 0 && Sorted(level[k].children))
  }

  // The children below a character; none when no extension goes on with it.
  function ChildrenAt(level: seq<Entry>, c: Unit): seq<Entry> {
    if level == [] then []
    else if level[0].Branch? && level[0].ch == c then level[0].children
    else ChildrenAt(level[1..], c)
  }

  function LeavesOf(level: seq<Entry>): seq<Entry> {
    if level == [] || level[0].Branch? then [] else [level[0]] + LeavesOf(level[1..])
  }

  // The leaves of the extension that is the n characters up to position `end`, read backwards.
  function LeavesFor(level: seq<Entry>, name: seq<Unit>, end: int, n: nat): seq<Entry>
    requires n <= end + 1 <= |name|
    decreases n
  {
    if n == 0 then LeavesOf(level) else LeavesFor(ChildrenAt(level, name[end]), name, end - 1, n - 1)
  }

  predicate Admits(leaf: Entry, excluded: string -> bool, caseSensitiveCheck: bool) {
    leaf.Leaf? && !excluded(leaf.mimeType) && (caseSensitiveCheck || !leaf.caseSensitive)
  }

  function Admissible(leaves: seq<Entry>, excluded: string -> bool, check: bool): (r: seq<Entry>)
    ensures forall k :: 0 <= k < |r| ==> Admits(r[k], excluded, check)
    ensures r != [] <==> exists k :: 0 <= k < |leaves| && Admits(leaves[k], excluded, check)
  {
    if leaves == [] then []
    else
      var last := leaves[|leaves| - 1];
      var before := Admissible(leaves[..|leaves| - 1], excluded, check);
      assert forall k :: 0 <= k < |leaves| - 1 ==> leaves[k] == leaves[..|leaves| - 1][k];
      if Admits(last, excluded, check) then before + [last] else before
  }

  // The longest extension of at most n characters with an admissible type; 0 for none.
  function Longest(level: seq<Entry>, name: seq<Unit>, end: int, n: nat, excluded: string -> bool,
      check: bool): (r: nat)
    requires n <= end + 1 <= |name|
    ensures r <= n
    decreases n
  {
    if n == 0 then 0
    else if Admissible(LeavesFor(level, name, end, n), excluded, check) != [] then n
    else Longest(level, name, end, n - 1, excluded, check)
  }

  function CallsFor(leaves: seq<Entry>, length: nat): seq<Call>
    requires forall k :: 0 <= k < |leaves| ==> leaves[k].Leaf?
  {
    seq(|leaves|, k requires 0 <= k < |leaves| => Call(leaves[k].mimeType, leaves[k].weight, length))
  }

  // The calls that the longest extension makes.
  function LongestCalls(level: seq<Entry>, name: seq<Unit>, end: int, n: nat, excluded: string -> bool,
      check: bool): seq<Call>
    requires n <= end + 1 <= |name|
  {
    var l := Longest(level, name, end, n, excluded, check);
    if l == 0 then []
    else CallsFor(Admissible(LeavesFor(level, name, end, l), excluded, check), |name| - (end - l))
  }

  lemma {:induction false} BelowAt(level: seq<Entry>, k: nat)
    requires Sorted(level) && k < |level| && level[k].Branch?
    ensures ChildrenAt(level, level[k].ch) == level[k].children
    decreases |level|
  {
    if k > 0 {
      SortedTail(level);
      BelowAt(level[1..], k - 1);
    }
  }

  lemma SortedTail(level: seq<Entry>)
    requires Sorted(level) && level != []
    ensures Sorted(level[1..])
  {
  }

  lemma {:induction false} BelowNone(level: seq<Entry>, c: Unit)
    requires forall k :: 0 <= k < |level| && level[k].Branch? ==> level[k].ch != c
    ensures ChildrenAt(level, c) == []
    decreases |level|
  {
    if level != [] {
      BelowNone(level[1..], c);
    }
  }

  lemma {:induction false} NothingBelow(name: seq<Unit>, end: int, n: nat)
    requires n <= end + 1 <= |name|
    ensures LeavesFor([], name, end, n) == []
    decreases n
  {
    if n > 0 {
      NothingBelow(name, end - 1, n - 1);
    }
  }

  /** One character back: the longest extension is one longer than the longest below that
      character, or the character alone. */
  lemma {:induction false} LongestBelow(level: seq<Entry>, name: seq<Unit>, end: int, n: nat,
      excluded: string -> bool, check: bool)
    requires 0 < n <= end + 1 <= |name|
    ensures var below := ChildrenAt(level, name[end]);
            var l := Longest(below, name, end - 1, n - 1, excluded, check);
            Longest(level, name, end, n, excluded, check) ==
            if l > 0 then l + 1 else if Admissible(LeavesOf(below), excluded, check) != [] then 1 else 0
    decreases n
  {
    if n > 1 {
      LongestBelow(level, name, end, n - 1, excluded, check);
    }
  }

  lemma LongestCallsBelow(level: seq<Entry>, name: seq<Unit>, end: int, n: nat, excluded: string -> bool, check: bool)
    requires 0 < n <= end + 1 <= |name|
    ensures var below := ChildrenAt(level, name[end]);
            var l := Longest(below, name, end - 1, n - 1, excluded, check);
            LongestCalls(level, name, end, n, excluded, check) ==
            if l > 0 then LongestCalls(below, name, end - 1, n - 1, excluded, check)
            else CallsFor(Admissible(LeavesOf(below), excluded, check), |name| - (end - 1))
  {
    hide Longest, Admissible, LeavesOf, ChildrenAt;
    LongestBelow(level, name, end, n, excluded, check);
    var below := ChildrenAt(level, name[end]);
    assert LeavesFor(level, name, end, 1) == LeavesFor(below, name, end - 1, 0) == LeavesOf(below);
  }

  lemma {:induction false} LongestInNothing(name: seq<Unit>, end: int, n: nat, excluded: string -> bool, check: bool)
    requires n <= end + 1 <= |name|
    ensures Longest([], name, end, n, excluded, check) == 0
    decreases n
  {
    if n > 0 {
      NothingBelow(name, end, n);
      LongestInNothing(name, end, n - 1, excluded, check);
    }
  }

  // How many characters up to `end` an extension may have: all but the name's first, at least one.
  function Limit(end: nat): nat {
    if end == 0 then 1 else end
  }

  // The branch for a character, by halving.
  method FindBranch(level: seq<Entry>, c: Unit) returns (found: bool, at: nat)
    requires Sorted(level) && c > 0
    ensures found ==> at < |level| && level[at].Branch? && level[at].ch == c
    ensures !found ==> forall k :: 0 <= k < |level| && level[k].Branch? ==> level[k].ch != c
  {
    var min, max := 0, |level| - 1;
    while min <= max
      invariant 0 <= min <= max + 1 <= |level|
      invariant forall k :: 0 <= k < min ==> CharOf(level[k]) < c
      invariant forall k :: max < k < |level| ==> CharOf(level[k]) > c
    {
      var mid := (min + max) / 2;
      var ch := CharOf(level[mid]);
      if ch < c {
        min := mid + 1;
      } else if ch > c {
        max := mid - 1;
      } else {
        return true, mid;
      }
    }
    return false, 0;
  }

  lemma CallsAppend(leaves: seq<Entry>, i: nat, excluded: string -> bool, check: bool, length: nat)
    requires i < |leaves|
    ensures var before := Admissible(leaves[..i], excluded, check);
            var after := Admissible(leaves[..i + 1], excluded, check);
            if Admits(leaves[i], excluded, check)
            then after != [] && CallsFor(after, length) == CallsFor(before, length)
              + [Call(leaves[i].mimeType, leaves[i].weight, length)]
            else after == before
  {
    assert leaves[..i + 1][..i] == leaves[..i];
  }

  // Adds the admissible leaves of a level.
  method AddLeaves(result: NameMatches, level: seq<Entry>, excluded: string -> bool, check: bool, length: nat)
      returns (success: bool)
    requires Sorted(level) && result.Valid()
    modifies result
    ensures result.Valid()
    ensures result.calls == old(result.calls) + CallsFor(Admissible(LeavesOf(level), excluded, check), length)
    ensures success <==> Admissible(LeavesOf(level), excluded, check) != []
  {
    hide Sorted, Admissible, LeavesOf, AddAll;
    success := false;
    var i := 0;
    ghost var leaves := LeavesOf(level);
    LeavesAre(level);
    NoneAdmissible(leaves[..0], excluded, check);
    while i < |level| && CharOf(level[i]) == 0
      invariant i <= |leaves| && result.Valid()
      invariant result.calls == old(result.calls) + CallsFor(Admissible(leaves[..i], excluded, check), length)
      invariant success <==> Admissible(leaves[..i], excluded, check) != []
    {
      assert level[i].Leaf? by { BranchCharIsPositive(level, i); }
      CallsAppend(leaves, i, excluded, check, length);
      if !excluded(level[i].mimeType) && (check || !level[i].caseSensitive) {
        result.Insert(level[i].mimeType, level[i].weight, length);
        success := true;
      }
      i := i + 1;
    }
    assert leaves[..|leaves|] == leaves;
  }

  lemma NoneAdmissible(leaves: seq<Entry>, excluded: string -> bool, check: bool)
    requires leaves == []
    ensures Admissible(leaves, excluded, check) == []
  {
  }

  lemma BranchCharIsPositive(level: seq<Entry>, k: nat)
    requires Sorted(level) && k < |level|
    ensures CharOf(level[k]) == 0 <==> level[k].Leaf?
  {
  }

  lemma {:induction false} LeavesAre(level: seq<Entry>)
    requires Sorted(level)
    ensures var leaves := LeavesOf(level);
            && |leaves| <= |level|
            && (forall k :: 0 <= k < |level| ==> (level[k].Leaf? <==> k < |leaves|))
            && (forall k :: 0 <= k < |leaves| ==> leaves[k] == level[k])
    decreases |level|
  {
    if level != [] {
      SortedTail(level);
      LeavesAre(level[1..]);
    }
  }

  lemma ChildrenSorted(level: seq<Entry>, k: nat)
    requires Sorted(level) && k < |level| && level[k].Branch?
    ensures Sorted(level[k].children)
  {
  }

  // Whether some extension that ends at `end` has an admissible type.
  predicate Matched(level: seq<Entry>, name: seq<Unit>, end: int, excluded: string -> bool, check: bool)
    requires end < |name|
  {
    end >= 0 && Longest(level, name, end, Limit(end), excluded, check) > 0
  }

  // The admissible types of the longest such extension.
  function CallsMade(level: seq<Entry>, name: seq<Unit>, end: int, excluded: string -> bool, check: bool): seq<Call>
    requires end < |name|
  {
    if end >= 0 then LongestCalls(level, name, end, Limit(end), excluded, check) else []
  }

  // One level of the descent: what is found below comes first, else the character's own leaves.
  lemma Descend(level: seq<Entry>, name: seq<Unit>, end: nat, excluded: string -> bool, check: bool)
    requires end < |name|
    ensures var below := ChildrenAt(level, name[end]);
            var leaves := Admissible(LeavesOf(below), excluded, check);
            var deeper := end > 1 && Matched(below, name, end - 1, excluded, check);
            && (Matched(level, name, end, excluded, check) <==> deeper || leaves != [])
            && CallsMade(level, name, end, excluded, check) ==
               (if deeper then CallsMade(below, name, end - 1, excluded, check)
                 else CallsFor(leaves, |name| - (end - 1)))
            && (!deeper && end > 1 ==> CallsMade(below, name, end - 1, excluded, check) == [])
  {
    hide Admissible, LeavesOf, ChildrenAt;
    LongestBelow(level, name, end, Limit(end), excluded, check);
    LongestCallsBelow(level, name, end, Limit(end), excluded, check);
  }

  lemma DescendNowhere(level: seq<Entry>, name: seq<Unit>, end: nat, excluded: string -> bool, check: bool)
    requires end < |name| && ChildrenAt(level, name[end]) == []
    ensures !Matched(level, name, end, excluded, check) && CallsMade(level, name, end, excluded, check) == []
  {
    Descend(level, name, end, excluded, check);
    LongestInNothing(name, end - 1, Limit(end) - 1, excluded, check);
    NoLeaves(excluded, check);
  }

  lemma NoLeaves(excluded: string -> bool, check: bool)
    ensures Admissible(LeavesOf([]), excluded, check) == []
  {
  }

  /** The descent succeeds exactly when an extension it may use has an admissible type, and
      adds the admissible types of the longest such extension, each with the length of its
      pattern: the extension and the star before it. */
  method MatchSuffixTree(result: NameMatches, excluded: string -> bool, level: seq<Entry>, name: seq<Unit>,
                         charPos: int, check: bool) returns (success: bool)
    requires Sorted(level) && result.Valid()
    requires charPos < |name| && forall k :: 0 <= k < |name| ==> name[k] > 0
    modifies result
    ensures result.Valid()
    ensures success <==> Matched(level, name, charPos, excluded, check)
    ensures result.calls == old(result.calls) + CallsMade(level, name, charPos, excluded, check)
    decreases charPos, 1
  {
    if charPos < 0 {
      return false;
    }
    hide Matched, CallsMade, Admissible, LeavesOf, ChildrenAt, CallsFor, Sorted, AddAll;
    var found, mid := FindBranch(level, name[charPos]);
    if !found {
      BelowNone(level, name[charPos]);
      DescendNowhere(level, name, charPos, excluded, check);
      return false;
    }
    BelowAt(level, mid);
    ChildrenSorted(level, mid);
    Descend(level, name, charPos, excluded, check);
    success := MatchChildren(result, excluded, level[mid].children, name, charPos, check);
  }

  // Below a matched character: longer extensions first, then those that end with it.
  method MatchChildren(result: NameMatches, excluded: string -> bool, children: seq<Entry>, name: seq<Unit>,
                       charPos: nat, check: bool) returns (success: bool)
    requires Sorted(children) && result.Valid()
    requires charPos < |name| && forall k :: 0 <= k < |name| ==> name[k] > 0
    modifies result
    ensures result.Valid()
    ensures var leaves := Admissible(LeavesOf(children), excluded, check);
            var deeper := charPos > 1 && Matched(children, name, charPos - 1, excluded, check);
            && (success <==> deeper || leaves != [])
            && result.calls == old(result.calls)
               + if deeper then CallsMade(children, name, charPos - 1, excluded, check)
                                                   else CallsFor(leaves, |name| - (charPos - 1))
    decreases charPos, 0
  {
    hide Admissible, LeavesOf, CallsFor, Sorted, AddAll;
    success := false;
    if charPos - 1 > 0 {
      success := MatchSuffixTree(result, excluded, children, name, charPos - 1, check);
    }
    if !success {
      success := AddLeaves(result, children, excluded, check, |name| - (charPos - 1));
    }
  }

  // ----- What the tree stores -----

  // The type that a level stores for an extension, whose last character comes first.
  ghost predicate Stores(level: seq<Entry>, extension: seq<Unit>, leaf: Entry)
    decreases |extension|
  {
    if extension == [] then leaf.Leaf? && leaf in level
    else exists k :: 0 <= k < |level| && level[k].Branch? && level[k].ch == extension[0]
                     && Stores(level[k].children, extension[1..], leaf)
  }

  // The last n characters up to a position, backwards.
  function Backwards(name: seq<Unit>, end: int, n: nat): seq<Unit>
    requires n <= end + 1 <= |name|
  {
    seq(n, k requires 0 <= k < n => name[end - k])
  }

  lemma {:induction false} LeavesAreStored(level: seq<Entry>, leaf: Entry)
    requires Sorted(level)
    ensures leaf in LeavesOf(level) <==> leaf.Leaf? && leaf in level
    decreases |level|
  {
    if level != [] {
      SortedTail(level);
      LeavesAreStored(level[1..], leaf);
      assert level == [level[0]] + level[1..];
    }
  }

  lemma {:induction false} TreeStores(level: seq<Entry>, name: seq<Unit>, end: int, n: nat, leaf: Entry)
    requires Sorted(level) && n <= end + 1 <= |name|
    ensures leaf in LeavesFor(level, name, end, n) <==> Stores(level, Backwards(name, end, n), leaf)
    decreases n
  {
    hide LeavesOf, ChildrenAt, Sorted;
    var extension := Backwards(name, end, n);
    if n == 0 {
      LeavesAreStored(level, leaf);
    } else {
      var c, rest := name[end], Backwards(name, end - 1, n - 1);
      assert extension[0] == c && extension[1..] == rest;
      if k :| 0 <= k < |level| && level[k].Branch? && level[k].ch == c {
        BelowAt(level, k);
        ChildrenSorted(level, k);
        TreeStores(level[k].children, name, end - 1, n - 1, leaf);
        OneBranch(level, k);
      } else {
        BelowNone(level, c);
        NothingBelow(name, end - 1, n - 1);
      }
    }
  }

  lemma OneBranch(level: seq<Entry>, k: nat)
    requires Sorted(level) && k < |level| && level[k].Branch?
    ensures forall j :: 0 <= j < |level| && level[j].Branch? && level[j].ch == level[k].ch ==> j == k
  {
  }

  // The name ends in this extension, for which a type is stored that may be used: one that asks for
  // the right case only where the case is looked at.
  ghost predicate Usable(level: seq<Entry>, name: seq<Unit>, n: nat, leaf: Entry, excluded: string -> bool, check: bool)
    requires n <= |name|
  {
    && Stores(level, Backwards(name, |name| - 1, n), leaf)
    && leaf.Leaf? && !excluded(leaf.mimeType) && (leaf.caseSensitive ==> check)
  }

  // An extension is no whole name, but for a name of one character.
  predicate IsLength(name: seq<Unit>, n: nat) {
    1 <= n < |name| || n == 1 == |name|
  }

  // It is the longest one with a type that may be used.
  ghost predicate IsLongest(level: seq<Entry>, name: seq<Unit>, n: nat, excluded: string -> bool, check: bool) {
    && IsLength(name, n) && (exists leaf :: Usable(level, name, n, leaf, excluded, check))
    && forall m, leaf :: n < m && IsLength(name, m) ==> !Usable(level, name, m, leaf, excluded, check)
  }

  lemma {:induction false} AdmissibleAre(leaves: seq<Entry>, excluded: string -> bool, check: bool, leaf: Entry)
    ensures leaf in Admissible(leaves, excluded, check) <==>
            leaf in leaves && leaf.Leaf? && !excluded(leaf.mimeType) && (leaf.caseSensitive ==> check)
    decreases |leaves|
  {
    if leaves != [] {
      AdmissibleAre(leaves[..|leaves| - 1], excluded, check, leaf);
      assert leaves == leaves[..|leaves| - 1] + [leaves[|leaves| - 1]];
    }
  }

  lemma UsableAre(level: seq<Entry>, name: seq<Unit>, n: nat, leaf: Entry, excluded: string -> bool, check: bool)
    requires Sorted(level) && n <= |name|
    ensures leaf in Admissible(LeavesFor(level, name, |name| - 1, n), excluded, check) <==>
            Usable(level, name, n, leaf, excluded, check)
  {
    hide LeavesFor, Stores, Admissible;
    AdmissibleAre(LeavesFor(level, name, |name| - 1, n), excluded, check, leaf);
    TreeStores(level, name, |name| - 1, n, leaf);
    if Stores(level, Backwards(name, |name| - 1, n), leaf) {
      StoredIsLeaf(level, Backwards(name, |name| - 1, n), leaf);
    }
  }

  lemma {:induction false} StoredIsLeaf(level: seq<Entry>, extension: seq<Unit>, leaf: Entry)
    requires Stores(level, extension, leaf)
    ensures leaf.Leaf?
    decreases |extension|
  {
    if extension != [] {
      var k :| 0 <= k < |level| && level[k].Branch? && level[k].ch == extension[0]
               && Stores(level[k].children, extension[1..], leaf);
      StoredIsLeaf(level[k].children, extension[1..], leaf);
    }
  }

  lemma {:induction false} LongestIs(level: seq<Entry>, name: seq<Unit>, end: int, n: nat, excluded: string -> bool,
      check: bool)
    requires n <= end + 1 <= |name|
    ensures var l := Longest(level, name, end, n, excluded, check);
            && (l > 0 ==> Admissible(LeavesFor(level, name, end, l), excluded, check) != [])
            && forall m :: l < m <= n ==> Admissible(LeavesFor(level, name, end, m), excluded, check) == []
    decreases n
  {
    hide Admissible, LeavesFor;
    if n > 0 && Admissible(LeavesFor(level, name, end, n), excluded, check) == [] {
      LongestIs(level, name, end, n - 1, excluded, check);
    }
  }

  /** What the descent does to a whole name: it succeeds when some extension of the name has a type
      that may be used, and the calls it makes are for exactly the types of the longest such
      extension, each with the length of the extension and the star before it. */
  lemma TreeMeans(level: seq<Entry>, name: seq<Unit>, n: nat, call: Call, excluded: string -> bool, check: bool)
    requires Sorted(level) && name != []
    ensures IsLongest(level, name, n, excluded, check) ==>
              && Matched(level, name, |name| - 1, excluded, check)
              && (call in CallsMade(level, name, |name| - 1, excluded, check) <==>
                    exists leaf :: Usable(level, name, n, leaf, excluded, check) && leaf.Leaf?
                                   && call == Call(leaf.mimeType, leaf.weight, n + 1))
    ensures Matched(level, name, |name| - 1, excluded, check) ==>
              exists m :: IsLongest(level, name, m, excluded, check)
    ensures !Matched(level, name, |name| - 1, excluded, check) ==>
              CallsMade(level, name, |name| - 1, excluded, check) == []
  {
    hide Admissible, LeavesFor, Longest, Usable, Sorted;
    var end := |name| - 1;
    var l := Longest(level, name, end, Limit(end), excluded, check);
    LongestIs(level, name, end, Limit(end), excluded, check);
    forall m, leaf | IsLength(name, m)
      ensures leaf in Admissible(LeavesFor(level, name, end, m), excluded, check) <==>
              Usable(level, name, m, leaf, excluded, check)
    {
      UsableAre(level, name, m, leaf, excluded, check);
    }
    if l > 0 {
      var leaves := Admissible(LeavesFor(level, name, end, l), excluded, check);
      assert leaves[0] in leaves;
      assert IsLongest(level, name, l, excluded, check);
      CallsAre(leaves, l + 1, call);
    }
    if IsLongest(level, name, n, excluded, check) {
      var leaf :| Usable(level, name, n, leaf, excluded, check);
      assert leaf in Admissible(LeavesFor(level, name, end, n), excluded, check);
      assert n == l;
    }
  }

  lemma CallsAre(leaves: seq<Entry>, length: nat, call: Call)
    requires forall k :: 0 <= k < |leaves| ==> leaves[k].Leaf?
    ensures call in CallsFor(leaves, length) <==>
            exists leaf :: leaf in leaves && call == Call(leaf.mimeType, leaf.weight, length)
  {
    if leaf :| leaf in leaves && call == Call(leaf.mimeType, leaf.weight, length) {
      var k :| 0 <= k < |leaves| && leaves[k] == leaf;
      assert CallsFor(leaves, length)[k] == call;
    }
  }
}
