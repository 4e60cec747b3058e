/** The file-name globs of the MIME database: what a wildcard means, the loop that matches
    it with a single restart point, and the special cases matched without it. */
module Wildcard {

  // A UTF-16 code unit.
  type Unit = n: int | 0 <= n < 0x1_0000

  const STAR: Unit := 42
  const QUESTION: Unit := 63
  const OPEN: Unit := 91
  const CLOSE: Unit := 93
  const BANG: Unit := 33
  const CARET: Unit := 94
  const DASH: Unit := 45

  // ----- What a wildcard means -----

  // A range of a set; a single character is a range of one.
  datatype Range = Range(low: Unit, high: Unit)

  datatype Token =
    | AnyRun
    | AnyChar
    | Literal(c: Unit)
    | Set(negated: bool, ranges: seq<Range>)

  predicate InSome(ranges: seq<Range>, c: Unit) {
    exists k :: 0 <= k < |ranges| && ranges[k].low <= c <= ranges[k].high
  }

  predicate Accepts(token: Token, c: Unit) {
    match token
    case AnyRun => false
    case AnyChar => true
    case Literal(l) => c == l
    case Set(negated, ranges) => InSome(ranges, c) != negated
  }

  // The text is what the tokens stand for, one after the other.
  ghost predicate Denotes(tokens: seq<Token>, text: seq<Unit>)
    decreases |tokens|
  {
    if tokens == [] then text == []
    else if tokens[0].AnyRun? then exists k :: 0 <= k <= |text| && Denotes(tokens[1..], text[k..])
    else text != [] && Accepts(tokens[0], text[0]) && Denotes(tokens[1..], text[1..])
  }

  // The ranges of a set from i on, and where its closing bracket is; the first character is
  // a member even when it is a bracket. Without a closing bracket, `close` is the pattern's end.
  datatype Members = Members(ranges: seq<Range>, close: nat)

  function SetMembers(pattern: seq<Unit>, i: nat, first: bool): (m: Members)
    requires i <= |pattern|
    ensures i <= m.close <= |pattern|
    ensures m.close < |pattern| ==> pattern[m.close] == CLOSE && (first ==> i < m.close)
    decreases |pattern| - i
  {
    if i == |pattern| || (!first && pattern[i] == CLOSE) then Members([], i)
    else if i + 2 < |pattern| && pattern[i + 1] == DASH && pattern[i + 2] != CLOSE then
      var rest := SetMembers(pattern, i + 3, false);
      Members([Range(pattern[i], pattern[i + 2])] + rest.ranges, rest.close)
    else
      var rest := SetMembers(pattern, i + 1, false);
      Members([Range(pattern[i], pattern[i])] + rest.ranges, rest.close)
  }

  // Where the members of the set that opens at i start: after the negation, if any.
  function MembersStart(pattern: seq<Unit>, i: nat): (start: nat)
    requires i < |pattern|
    ensures i < start <= |pattern|
  {
    if i + 1 < |pattern| && (pattern[i + 1] == BANG || pattern[i + 1] == CARET) then i + 2 else i + 1
  }

  // The token at i and where the next one starts. A bracket that nothing closes stands for itself.
  function TokenAt(pattern: seq<Unit>, i: nat): (r: (Token, nat))
    requires i < |pattern|
    ensures i < r.1 <= |pattern|
    ensures r.0.AnyRun? <==> pattern[i] == STAR
    ensures r.0.AnyRun? ==> r.1 == i + 1
  {
    if pattern[i] == STAR then (AnyRun, i + 1)
    else if pattern[i] == QUESTION then (AnyChar, i + 1)
    else if pattern[i] == OPEN then
      var start := MembersStart(pattern, i);
      var members := SetMembers(pattern, start, true);
      if members.close == |pattern| then (Literal(OPEN), i + 1)
      else (Set(start == i + 2, members.ranges), members.close + 1)
    else (Literal(pattern[i]), i + 1)
  }

  function Tokens(pattern: seq<Unit>, i: nat := 0): seq<Token>
    requires i <= |pattern|
    decreases |pattern| - i
  {
    if i == |pattern| then []
    else
      var (token, next) := TokenAt(pattern, i);
      [token] + Tokens(pattern, next)
  }

  // ----- What a set means -----

  // The characters have a dash nowhere but at their end, so that none of them makes a range.
  predicate NoRanges(chars: seq<Unit>) {
    forall k :: 0 <= k < |chars| - 1 ==> chars[k] != 45
  }

  lemma {:induction false} MembersAre(pattern: seq<Unit>, i: nat, close: nat, first: bool)
    requires i <= close < |pattern| && pattern[close] == 93 && (first ==> i < close)
    requires forall k :: i <= k < close && (first ==> i < k) ==> pattern[k] != 93
    requires forall k :: i < k < close - 1 ==> pattern[k] != 45
    ensures var m := SetMembers(pattern, i, first);
            && m.close == close && |m.ranges| == close - i
            && forall k :: 0 <= k < |m.ranges| ==> m.ranges[k] == Range(pattern[i + k], pattern[i + k])
    decreases close - i
  {
    if i < close {
      MembersAre(pattern, i + 1, close, false);
    }
  }

  /** Characters between brackets stand for each of them, a closing one in the first place and a
      dash in the last included. */
  lemma SetOfCharacters(chars: seq<Unit>, c: Unit)
    requires chars != [] && chars[0] != 33 && chars[0] != 94 && 93 !in chars[1..] && NoRanges(chars[1..])
    ensures var (token, next) := TokenAt([91] + chars + [93], 0);
            next == |chars| + 2 && (Accepts(token, c) <==> c in chars)
  {
    var pattern := [91] + chars + [93];
    var close := |chars| + 1;
    forall k | 1 < k < close
      ensures pattern[k] != 93 && (k < close - 1 ==> pattern[k] != 45)
    {
      assert pattern[k] == chars[1..][k - 2];
    }
    MembersAre(pattern, 1, close, true);
    var m := SetMembers(pattern, 1, true);
    assert forall k :: 0 <= k < |chars| ==> m.ranges[k] == Range(chars[k], chars[k]);
    if c in chars {
      var k :| 0 <= k < |chars| && chars[k] == c;
      assert m.ranges[k].low <= c <= m.ranges[k].high;
    }
  }

  /** A dash between two characters stands for all from one to the other. */
  lemma SetOfRange(low: Unit, high: Unit, c: Unit)
    requires low != 33 && low != 94 && high != 93
    ensures var (token, next) := TokenAt([91, low, 45, high, 93], 0);
            next == 5 && (Accepts(token, c) <==> low <= c <= high)
  {
    var pattern := [91, low, 45, high, 93];
    assert SetMembers(pattern, 4, false) == Members([], 4);
    assert SetMembers(pattern, 1, true) == Members([Range(low, high)], 4);
    assert [Range(low, high)][0] == Range(low, high);
  }

  lemma {:induction false} MembersShifted(pattern: seq<Unit>, c: Unit, i: nat, first: bool)
    requires i <= |pattern|
    ensures var m := SetMembers(pattern, i, first);
            SetMembers([c] + pattern, i + 1, first) == Members(m.ranges, m.close + 1)
    decreases |pattern| - i
  {
    var more := [c] + pattern;
    if i < |pattern| {
      assert more[i + 1] == pattern[i];
      if i + 2 < |pattern| {
        assert more[i + 2] == pattern[i + 1] && more[i + 3] == pattern[i + 2];
      }
      if !first && pattern[i] == CLOSE {
        assert SetMembers(more, i + 1, first) == Members([], i + 1);
      } else if i + 2 < |pattern| && pattern[i + 1] == DASH && pattern[i + 2] != CLOSE {
        MembersShifted(pattern, c, i + 3, false);
        var rest := SetMembers(more, i + 4, false);
        assert SetMembers(more, i + 1, first) == Members([Range(pattern[i], pattern[i + 2])] + rest.ranges, rest.close);
      } else {
        MembersShifted(pattern, c, i + 1, false);
        var rest := SetMembers(more, i + 2, false);
        assert SetMembers(more, i + 1, first) == Members([Range(pattern[i], pattern[i])] + rest.ranges, rest.close);
      }
    }
  }

  /** An exclamation mark or a caret before the members makes a set stand for all other characters. */
  lemma SetOfOthers(members: seq<Unit>, mark: Unit, c: Unit)
    requires members != [] && members[0] != 33 && members[0] != 94 && mark in {33, 94}
    ensures var (token, next) := TokenAt([91] + members, 0);
            var (others, after) := TokenAt([91, mark] + members, 0);
            token.Set? ==> after == next + 1 && (Accepts(others, c) <==> !Accepts(token, c))
  {
    var plain, marked := [91] + members, [91, mark] + members;
    MembersShifted(members, 91, 0, true);
    MembersShifted(members, mark, 0, true);
    MembersShifted([mark] + members, 91, 1, true);
    assert marked == [91] + ([mark] + members);
  }

  lemma {:induction false} NeverClosed(pattern: seq<Unit>, i: nat, first: bool)
    requires i <= |pattern| && forall k :: i <= k < |pattern| && (first ==> i < k) ==> pattern[k] != 93
    ensures SetMembers(pattern, i, first).close == |pattern|
    decreases |pattern| - i
  {
    if i < |pattern| {
      if i + 2 < |pattern| && pattern[i + 1] == DASH && pattern[i + 2] != CLOSE {
        NeverClosed(pattern, i + 3, false);
      } else {
        NeverClosed(pattern, i + 1, false);
      }
    }
  }

  /** A bracket that is never closed stands for itself, a question mark for any character, and what
      is neither of them nor a star for itself. */
  lemma OtherTokens(pattern: seq<Unit>, i: nat)
    requires i < |pattern| && pattern[i] != 42
    ensures pattern[i] == 63 ==> TokenAt(pattern, i) == (AnyChar, i + 1)
    ensures pattern[i] == 91 && 93 !in pattern[i..] ==> TokenAt(pattern, i) == (Literal(91), i + 1)
    ensures pattern[i] != 63 && pattern[i] != 91 ==> TokenAt(pattern, i) == (Literal(pattern[i]), i + 1)
  {
    if pattern[i] == 91 && 93 !in pattern[i..] {
      assert forall k :: i <= k < |pattern| ==> pattern[k] == pattern[i..][k - i];
      NeverClosed(pattern, MembersStart(pattern, i), true);
    }
  }

  // ----- Parts of a pattern -----

  // The pattern from p on stands for the text from t on.
  ghost predicate Fits(pattern: seq<Unit>, p: nat, text: seq<Unit>, t: nat)
    requires p <= |pattern| && t <= |text|
  {
    Denotes(Tokens(pattern, p), text[t..])
  }

  // What follows the star at p stands for the text from t on.
  ghost predicate FitsAfter(pattern: seq<Unit>, p: nat, text: seq<Unit>, t: nat)
    requires p < |pattern| && t <= |text|
  {
    Fits(pattern, p + 1, text, t)
  }

  lemma FitsAtEnd(pattern: seq<Unit>, text: seq<Unit>, t: nat)
    requires t <= |text|
    ensures Fits(pattern, |pattern|, text, t) <==> t == |text|
  {
  }

  lemma FitsToken(pattern: seq<Unit>, p: nat, text: seq<Unit>, t: nat)
    requires p < |pattern| && t <= |text| && pattern[p] != STAR
    ensures var (token, next) := TokenAt(pattern, p);
            Fits(pattern, p, text, t) <==> t < |text| && Accepts(token, text[t]) && Fits(pattern, next, text, t + 1)
  {
    var (token, next) := TokenAt(pattern, p);
    assert Tokens(pattern, p)[1..] == Tokens(pattern, next);
    if t < |text| {
      assert text[t..][1..] == text[t + 1..];
    }
  }

  lemma FitsStar(pattern: seq<Unit>, p: nat, text: seq<Unit>, t: nat)
    requires p < |pattern| && t <= |text| && pattern[p] == STAR
    ensures Fits(pattern, p, text, t) <==> exists k :: t <= k <= |text| && FitsAfter(pattern, p, text, k)
  {
    assert Tokens(pattern, p)[1..] == Tokens(pattern, p + 1);
    if Fits(pattern, p, text, t) {
      var k :| 0 <= k <= |text[t..]| && Denotes(Tokens(pattern, p + 1), text[t..][k..]);
      assert text[t..][k..] == text[t + k..];
      assert FitsAfter(pattern, p, text, t + k);
    }
    if k :| t <= k <= |text| && FitsAfter(pattern, p, text, k) {
      assert text[t..][k - t..] == text[k..];
    }
  }

  // Stars alone fit the empty rest of a text.
  lemma {:induction false} FitsNothing(pattern: seq<Unit>, p: nat, text: seq<Unit>)
    requires p <= |pattern|
    ensures Fits(pattern, p, text, |text|) <==> forall k :: p <= k < |pattern| ==> pattern[k] == STAR
    decreases |pattern| - p
  {
    if p == |pattern| {
      FitsAtEnd(pattern, text, |text|);
    } else if pattern[p] == STAR {
      FitsStar(pattern, p, text, |text|);
      FitsNothing(pattern, p + 1, text);
      assert FitsAfter(pattern, p, text, |text|) <==> Fits(pattern, p + 1, text, |text|);
    } else {
      FitsToken(pattern, p, text, |text|);
    }
  }

  // ----- The loop -----

  // Reads the set that opens at `at` for one character, without building its ranges.
  method MatchSet(pattern: seq<Unit>, at: nat, c: Unit) returns (matched: bool, end: nat)
    requires at < |pattern| && pattern[at] == OPEN
    ensures end == TokenAt(pattern, at).1 && matched == Accepts(TokenAt(pattern, at).0, c)
  {
    var i := at + 1;
    var negate := false;
    if i < |pattern| && (pattern[i] == BANG || pattern[i] == CARET) {
      negate := true;
      i := i + 1;
    }
    ghost var all := SetMembers(pattern, i, true);
    matched := false;
    var first := true;
    hide InSome;
    while i < |pattern| && (first || pattern[i] != CLOSE)
      invariant i <= |pattern|
      invariant all.close == SetMembers(pattern, i, first).close
      invariant InSome(all.ranges, c) <==> matched || InSome(SetMembers(pattern, i, first).ranges, c)
    {
      if i + 2 < |pattern| && pattern[i + 1] == DASH && pattern[i + 2] != CLOSE {
        InSomeFirst(Range(pattern[i], pattern[i + 2]), SetMembers(pattern, i + 3, false).ranges, c);
        matched := matched || pattern[i] <= c <= pattern[i + 2];
        i := i + 3;
      } else {
        InSomeFirst(Range(pattern[i], pattern[i]), SetMembers(pattern, i + 1, false).ranges, c);
        matched := matched || c == pattern[i];
        i := i + 1;
      }
      first := false;
    }
    InSomeOfNone(c);
    if i >= |pattern| {
      return c == OPEN, at + 1;
    }
    return matched != negate, i + 1;
  }

  lemma InSomeOfNone(c: Unit)
    ensures !InSome([], c)
  {
  }

  lemma InSomeFirst(range: Range, ranges: seq<Range>, c: Unit)
    ensures InSome([range] + ranges, c) <==> range.low <= c <= range.high || InSome(ranges, c)
  {
    var longer := [range] + ranges;
    if k :| 0 <= k < |ranges| && ranges[k].low <= c <= ranges[k].high {
      assert longer[k + 1] == ranges[k];
    }
    if range.low <= c <= range.high {
      assert longer[0] == range;
    }
  }

  // Some later restart of the star would do.
  ghost predicate LaterRestart(pattern: seq<Unit>, star: nat, text: seq<Unit>, from: nat)
    requires star < |pattern|
  {
    exists k :: from < k <= |text| && FitsAfter(pattern, star, text, k)
  }

  // What follows the star, started at k, gets as far as the loop has got from `from`.
  ghost predicate InStep(pattern: seq<Unit>, star: nat, p: nat, text: seq<Unit>, from: nat, t: nat)
    requires star < |pattern| && p <= |pattern| && from <= t <= |text|
  {
    forall k: nat :: k <= |text| && FitsAfter(pattern, star, text, k) ==>
      k + (t - from) <= |text| && Fits(pattern, p, text, k + (t - from))
  }

  // The wildcard matches just when the loop can go on, here or from a later restart.
  ghost predicate Pending(pattern: seq<Unit>, p: nat, star: int, text: seq<Unit>, from: nat, t: nat) {
    && p <= |pattern| && t <= |text|
    && if star < 0
       then Fits(pattern, 0, text, 0) <==> Fits(pattern, p, text, t)
       else
         && star < |pattern| && pattern[star] == STAR && from <= t
         && InStep(pattern, star, p, text, from, t)
         && (Fits(pattern, 0, text, 0) <==> Fits(pattern, p, text, t) || LaterRestart(pattern, star, text, from))
  }

  // A star starts here or later.
  lemma StarRestarts(pattern: seq<Unit>, p: nat, text: seq<Unit>, t: nat)
    requires p < |pattern| && pattern[p] == STAR && t <= |text|
    ensures Fits(pattern, p, text, t) <==> Fits(pattern, p + 1, text, t) || LaterRestart(pattern, p, text, t)
  {
    FitsStar(pattern, p, text, t);
    hide Fits;
    assert FitsAfter(pattern, p, text, t) <==> Fits(pattern, p + 1, text, t);
  }

  // What a star takes up later it can take up here.
  lemma StarEarlier(pattern: seq<Unit>, p: nat, text: seq<Unit>, t: nat, later: nat)
    requires p < |pattern| && pattern[p] == STAR && t <= later <= |text| && Fits(pattern, p, text, later)
    ensures Fits(pattern, p, text, t)
  {
    FitsStar(pattern, p, text, t);
    FitsStar(pattern, p, text, later);
    hide Fits, FitsAfter;
  }

  // A new star makes the restarts of the one before it needless.
  lemma StarFound(pattern: seq<Unit>, p: nat, star: int, text: seq<Unit>, from: nat, t: nat)
    requires Pending(pattern, p, star, text, from, t)
    requires p < |pattern| && pattern[p] == STAR
    ensures Pending(pattern, p + 1, p, text, t, t)
  {
    hide Fits;
    StarRestarts(pattern, p, text, t);
    if star >= 0 && LaterRestart(pattern, star, text, from) {
      var k :| from < k <= |text| && FitsAfter(pattern, star, text, k);
      StarEarlier(pattern, p, text, t, k + (t - from));
    }
    assert InStep(pattern, p, p + 1, text, t, t);
  }

  lemma TokenMatched(pattern: seq<Unit>, p: nat, star: int, text: seq<Unit>, from: nat, t: nat)
    requires Pending(pattern, p, star, text, from, t)
    requires p < |pattern| && pattern[p] != STAR && t < |text|
    requires Accepts(TokenAt(pattern, p).0, text[t])
    ensures Pending(pattern, TokenAt(pattern, p).1, star, text, from, t + 1)
  {
    FitsToken(pattern, p, text, t);
    if star >= 0 {
      forall k: nat | k <= |text| && FitsAfter(pattern, star, text, k)
        ensures k + (t + 1 - from) <= |text| && Fits(pattern, TokenAt(pattern, p).1, text, k + (t + 1 - from))
      {
        FitsToken(pattern, p, text, k + (t - from));
      }
    }
  }

  lemma TokenFailed(pattern: seq<Unit>, p: nat, star: int, text: seq<Unit>, from: nat, t: nat)
    requires Pending(pattern, p, star, text, from, t)
    requires t < |text|
    requires p < |pattern| ==> pattern[p] != STAR && !Accepts(TokenAt(pattern, p).0, text[t])
    ensures star < 0 ==> !Fits(pattern, 0, text, 0)
    ensures star >= 0 ==> Pending(pattern, star + 1, star, text, from + 1, from + 1)
  {
    if p < |pattern| {
      FitsToken(pattern, p, text, t);
    } else {
      FitsAtEnd(pattern, text, t);
    }
    if star >= 0 {
      assert FitsAfter(pattern, star, text, from + 1) <==> Fits(pattern, star + 1, text, from + 1);
    }
  }

  lemma TextDone(pattern: seq<Unit>, p: nat, star: int, text: seq<Unit>, from: nat)
    requires Pending(pattern, p, star, text, from, |text|)
    ensures Fits(pattern, 0, text, 0) <==> forall k :: p <= k < |pattern| ==> pattern[k] == STAR
  {
    FitsNothing(pattern, p, text);
  }

  lemma PendingAtStart(pattern: seq<Unit>, text: seq<Unit>)
    ensures Pending(pattern, 0, -1, text, 0, 0)
    ensures Fits(pattern, 0, text, 0) <==> Denotes(Tokens(pattern), text)
  {
    assert text[0..] == text;
  }

  // One token that is not a star, against one character.
  method MatchToken(pattern: seq<Unit>, p: nat, c: Unit) returns (matched: bool, next: nat)
    requires p < |pattern| && pattern[p] != STAR
    ensures next == TokenAt(pattern, p).1 && matched == Accepts(TokenAt(pattern, p).0, c)
  {
    next := p + 1;
    if pattern[p] == QUESTION {
      matched := true;
    } else if pattern[p] == OPEN {
      matched, next := MatchSet(pattern, p, c);
    } else {
      matched := pattern[p] == c;
    }
  }

  /** The matcher with its single restart point decides what the wildcard means. */
  method WildcardMatches(pattern: seq<Unit>, text: seq<Unit>) returns (matches: bool)
    ensures matches <==> Denotes(Tokens(pattern), text)
  {
    hide Fits, Pending, TokenAt, Tokens, Accepts;
    var p: nat, t: nat := 0, 0;
    var starPattern, starText: nat := -1, 0;
    PendingAtStart(pattern, text);
    while t < |text|
      invariant p <= |pattern| && t <= |text| && -1 <= starPattern < |pattern|
      invariant Pending(pattern, p, starPattern, text, starText, t)
      invariant starPattern < p && starText <= t
      decreases |pattern| - starPattern, |text| - starText, |text| - t
    {
      if p < |pattern| && pattern[p] == STAR {
        StarFound(pattern, p, starPattern, text, starText, t);
        starPattern, starText, p := p, t, p + 1;
        continue;
      }
      if p < |pattern| {
        var matched, next := MatchToken(pattern, p, text[t]);
        if matched {
          TokenMatched(pattern, p, starPattern, text, starText, t);
          p, t := next, t + 1;
          continue;
        }
      }
      TokenFailed(pattern, p, starPattern, text, starText, t);
      if starPattern < 0 {
        return false;
      }
      starText := starText + 1;
      p, t := starPattern + 1, starText;
    }
    TextDone(pattern, p, starPattern, text, starText);
    while p < |pattern| && pattern[p] == STAR
      invariant p <= |pattern|
      invariant Fits(pattern, 0, text, 0) <==> forall k :: p <= k < |pattern| ==> pattern[k] == STAR
    {
      p := p + 1;
    }
    return p == |pattern|;
  }
}
