/** Globs of the MIME database: most are matched by comparing characters, and only the rest
    by the wildcard loop. */
module Globs {
  import opened Wildcard

  datatype Kind = Suffix | Prefix | Plain | Vdr | Anim | Other

  // [0-9][0-9][0-9].vdr
  const VDR: seq<Unit> := [91, 48, 45, 57, 93, 91, 48, 45, 57, 93, 91, 48, 45, 57, 93, 46, 118, 100, 114]
  // *.anim[1-9j]
  const ANIM: seq<Unit> := [42, 46, 97, 110, 105, 109, 91, 49, 45, 57, 106, 93]

  const DOT_VDR: seq<Unit> := [46, 118, 100, 114]
  const DOT_ANIM: seq<Unit> := [46, 97, 110, 105, 109]

  function StarCount(pattern: seq<Unit>): (n: nat)
    ensures n == 0 <==> STAR !in pattern
  {
    if pattern == [] then 0
    else
      assert pattern == [pattern[0]] + pattern[1..];
      (if pattern[0] == STAR then 1 else 0) + StarCount(pattern[1..])
  }

  function Classify(pattern: seq<Unit>): Kind {
    if pattern == [] then Other
    else if OPEN !in pattern && QUESTION !in pattern && StarCount(pattern) == 1 && pattern[0] == STAR then Suffix
    else if OPEN !in pattern && QUESTION !in pattern && StarCount(pattern) == 1 && pattern[|pattern| - 1] == STAR
    then Prefix
    else if OPEN !in pattern && QUESTION !in pattern && StarCount(pattern) == 0 then Plain
    else if pattern == VDR then Vdr
    else if pattern == ANIM then Anim
    else Other
  }

  // No character of the pattern from i up to n means anything but itself.
  ghost predicate PlainBetween(pattern: seq<Unit>, i: nat, n: nat) {
    i <= n <= |pattern| && forall k :: i <= k < n ==> pattern[k] != STAR && pattern[k] != QUESTION && pattern[k] != OPEN
  }

  lemma {:induction false} OneStar(pattern: seq<Unit>)
    requires StarCount(pattern) == 1
    ensures forall i, j :: 0 <= i < j < |pattern| ==> !(pattern[i] == STAR && pattern[j] == STAR)
    decreases |pattern|
  {
    assert pattern == [pattern[0]] + pattern[1..];
    if pattern[0] == STAR {
      assert STAR !in pattern[1..];
      forall j | 0 < j < |pattern|
        ensures pattern[j] != STAR
      {
        assert pattern[j] == pattern[1..][j - 1];
      }
    } else {
      OneStar(pattern[1..]);
      forall i, j | 0 <= i < j < |pattern|
        ensures !(pattern[i] == STAR && pattern[j] == STAR)
      {
        if i > 0 {
          assert pattern[i] == pattern[1..][i - 1] && pattern[j] == pattern[1..][j - 1];
        }
      }
    }
  }

  lemma SliceGrows(s: seq<Unit>, i: nat, n: nat)
    requires i < n <= |s|
    ensures s[i..n] == [s[i]] + s[i + 1..n]
  {
  }

  // A plain character stands for itself.
  lemma FitsPlain(pattern: seq<Unit>, i: nat, text: seq<Unit>, t: nat)
    requires PlainBetween(pattern, i, i + 1) && t <= |text|
    ensures Fits(pattern, i, text, t) <==> t < |text| && text[t] == pattern[i] && Fits(pattern, i + 1, text, t + 1)
  {
    hide Fits;
    FitsToken(pattern, i, text, t);
  }

  // A plain stretch of the pattern stands for its own characters.
  lemma {:induction false} PlainStretch(pattern: seq<Unit>, i: nat, n: nat, text: seq<Unit>, t: nat)
    requires PlainBetween(pattern, i, n) && t <= |text|
    ensures Fits(pattern, i, text, t) <==>
            t + (n - i) <= |text| && text[t..t + (n - i)] == pattern[i..n] && Fits(pattern, n, text, t + (n - i))
    decreases n - i
  {
    hide Denotes, Tokens, TokenAt, Fits;
    if i < n {
      FitsPlain(pattern, i, text, t);
      if t < |text| {
        PlainStretch(pattern, i + 1, n, text, t + 1);
        if t + (n - i) <= |text| {
          SliceGrows(pattern, i, n);
          SliceGrows(text, t, t + (n - i));
          OnTop(text[t], text[t + 1..t + (n - i)], pattern[i], pattern[i + 1..n]);
        }
      }
    }
  }

  lemma OnTop(a: Unit, s: seq<Unit>, b: Unit, t: seq<Unit>)
    ensures [a] + s == [b] + t <==> a == b && s == t
  {
    if [a] + s == [b] + t {
      assert ([a] + s)[0] == a && ([b] + t)[0] == b;
      assert ([a] + s)[1..] == s && ([b] + t)[1..] == t;
    }
  }

  lemma DenotesIsFits(pattern: seq<Unit>, text: seq<Unit>)
    ensures Denotes(Tokens(pattern), text) <==> Fits(pattern, 0, text, 0)
  {
    assert text[0..] == text;
  }

  // A pattern of literals stands for itself.
  lemma PlainMeans(pattern: seq<Unit>, text: seq<Unit>)
    requires Classify(pattern) == Plain
    ensures Denotes(Tokens(pattern), text) <==> text == pattern
  {
    DenotesIsFits(pattern, text);
    PlainEnd(pattern, 0, text, 0);
    assert text[0..] == text && pattern[0..] == pattern;
  }

  lemma SuffixIsPlain(pattern: seq<Unit>)
    requires Classify(pattern) == Suffix
    ensures pattern[0] == STAR && PlainBetween(pattern, 1, |pattern|)
  {
    OneStar(pattern);
  }

  lemma PrefixIsPlain(pattern: seq<Unit>)
    requires Classify(pattern) == Prefix
    ensures pattern[|pattern| - 1] == STAR && PlainBetween(pattern, 0, |pattern| - 1)
  {
    OneStar(pattern);
  }

  // A star and literals stand for the names with that ending.
  lemma SuffixMeans(pattern: seq<Unit>, text: seq<Unit>)
    requires Classify(pattern) == Suffix
    ensures Denotes(Tokens(pattern), text) <==>
            |pattern| - 1 <= |text| && text[|text| - (|pattern| - 1)..] == pattern[1..]
  {
    SuffixIsPlain(pattern);
    hide Denotes, Tokens, TokenAt, Fits, Classify;
    var n := |pattern|;
    DenotesIsFits(pattern, text);
    FitsStar(pattern, 0, text, 0);
    forall k: nat | k <= |text|
      ensures FitsAfter(pattern, 0, text, k) <==> k + (n - 1) == |text| && text[k..] == pattern[1..]
    {
      PlainEnd(pattern, 1, text, k);
    }
    if n - 1 <= |text| {
      assert FitsAfter(pattern, 0, text, |text| - (n - 1)) <==> text[|text| - (n - 1)..] == pattern[1..];
    }
  }

  // A pattern that is plain to its end stands for just that end.
  lemma PlainEnd(pattern: seq<Unit>, i: nat, text: seq<Unit>, t: nat)
    requires PlainBetween(pattern, i, |pattern|) && t <= |text|
    ensures Fits(pattern, i, text, t) <==> text[t..] == pattern[i..]
  {
    hide Denotes, Tokens, TokenAt, Fits;
    var n := |pattern| - i;
    PlainStretch(pattern, i, |pattern|, text, t);
    assert pattern[i..|pattern|] == pattern[i..];
    if t + n <= |text| {
      FitsAtEnd(pattern, text, t + n);
      if t + n == |text| {
        assert text[t..t + n] == text[t..];
      }
    }
  }

  // A last star takes whatever is left.
  lemma StarTakesRest(pattern: seq<Unit>, text: seq<Unit>, t: nat)
    requires pattern != [] && pattern[|pattern| - 1] == STAR && t <= |text|
    ensures Fits(pattern, |pattern| - 1, text, t)
  {
    FitsStar(pattern, |pattern| - 1, text, t);
    FitsAtEnd(pattern, text, |text|);
    assert FitsAfter(pattern, |pattern| - 1, text, |text|);
  }

  lemma SliceFromStart(s: seq<Unit>, n: nat)
    requires n <= |s|
    ensures s[0..n] == s[..n]
  {
  }

  lemma PrefixFits(pattern: seq<Unit>, n: nat, text: seq<Unit>)
    requires |pattern| == n + 1 && pattern[n] == STAR && PlainBetween(pattern, 0, n)
    ensures Fits(pattern, 0, text, 0) <==> n <= |text| && text[0..n] == pattern[0..n]
  {
    hide *;
    PlainStretch(pattern, 0, n, text, 0);
    if n <= |text| {
      StarTakesRest(pattern, text, n);
    }
  }

  lemma PrefixDenotes(pattern: seq<Unit>, n: nat, text: seq<Unit>)
    requires |pattern| == n + 1 && pattern[n] == STAR && PlainBetween(pattern, 0, n)
    ensures Denotes(Tokens(pattern), text) <==> n <= |text| && text[..n] == pattern[..n]
  {
    hide *;
    DenotesIsFits(pattern, text);
    PrefixFits(pattern, n, text);
    SliceFromStart(pattern, n);
    if n <= |text| {
      SliceFromStart(text, n);
    }
  }

  // Literals and a star stand for the names with that beginning.
  lemma PrefixMeans(pattern: seq<Unit>, text: seq<Unit>)
    requires Classify(pattern) == Prefix
    ensures Denotes(Tokens(pattern), text) <==>
            |pattern| - 1 <= |text| && text[..|pattern| - 1] == pattern[..|pattern| - 1]
  {
    hide *;
    PrefixIsPlain(pattern);
    PrefixDenotes(pattern, |pattern| - 1, text);
  }

  // ----- The two special globs -----

  predicate VdrName(name: seq<Unit>, isDigit: Unit -> bool) {
    |name| == 7 && isDigit(name[0]) && isDigit(name[1]) && isDigit(name[2]) && name[3..] == DOT_VDR
  }

  predicate AnimName(name: seq<Unit>, isDigit: Unit -> bool) {
    && |name| >= 6
    && var last := name[|name| - 1];
       ((isDigit(last) && last != 48) || last == 106) && name[|name| - 6..|name| - 1] == DOT_ANIM
  }

  // Among ASCII characters the digits are 0 to 9; which others are is up to Unicode.
  ghost predicate DigitsInAscii(isDigit: Unit -> bool) {
    forall c: Unit :: c < 128 ==> (isDigit(c) <==> 48 <= c <= 57)
  }

  lemma DigitToken(pattern: seq<Unit>, p: nat)
    requires p + 5 <= |pattern|
    requires pattern[p] == OPEN && pattern[p + 1] == 48 && pattern[p + 2] == DASH && pattern[p + 3] == 57
             && pattern[p + 4] == CLOSE
    ensures TokenAt(pattern, p) == (Set(false, [Range(48, 57)]), p + 5)
  {
    assert SetMembers(pattern, p + 4, false) == Members([], p + 4);
    assert SetMembers(pattern, p + 1, true) == Members([Range(48, 57)], p + 4);
  }

  lemma InOne(range: Range, c: Unit)
    ensures InSome([range], c) <==> range.low <= c <= range.high
  {
    assert [range][0] == range;
  }

  // A set of the digits takes one of them.
  lemma FitsDigit(pattern: seq<Unit>, p: nat, text: seq<Unit>, t: nat)
    requires p + 5 <= |pattern| && t <= |text|
    requires pattern[p] == OPEN && pattern[p + 1] == 48 && pattern[p + 2] == DASH && pattern[p + 3] == 57
             && pattern[p + 4] == CLOSE
    ensures Fits(pattern, p, text, t) <==> t < |text| && 48 <= text[t] <= 57 && Fits(pattern, p + 5, text, t + 1)
  {
    hide Denotes, Tokens, TokenAt, Fits;
    DigitToken(pattern, p);
    FitsToken(pattern, p, text, t);
    if t < |text| {
      InOne(Range(48, 57), text[t]);
    }
  }

  lemma VdrLetters()
    ensures |VDR| == 19 && PlainBetween(VDR, 15, 19) && VDR[15..] == DOT_VDR
  {
    assert VDR[15..] == DOT_VDR;
  }

  // The last digit and the letters.
  lemma VdrEnds(name: seq<Unit>)
    requires |name| >= 2
    ensures Fits(VDR, 10, name, 2) <==> |name| >= 3 && 48 <= name[2] <= 57 && name[3..] == DOT_VDR
  {
    hide Denotes, TokenAt, Tokens, Fits;
    FitsDigit(VDR, 10, name, 2);
    VdrLetters();
    if |name| > 2 {
      PlainEnd(VDR, 15, name, 3);
    }
  }

  lemma VdrMeans(name: seq<Unit>)
    ensures Denotes(Tokens(VDR), name) <==>
            |name| == 7 && 48 <= name[0] <= 57 && 48 <= name[1] <= 57 && 48 <= name[2] <= 57 && name[3..] == DOT_VDR
  {
    hide Denotes, TokenAt, Tokens, Fits;
    DenotesIsFits(VDR, name);
    FitsDigit(VDR, 0, name, 0);
    if |name| > 0 {
      FitsDigit(VDR, 5, name, 1);
      if |name| > 1 {
        VdrEnds(name);
      }
    }
  }

  lemma AnimToken()
    ensures TokenAt(ANIM, 6) == (Set(false, [Range(49, 57), Range(106, 106)]), 12)
  {
    assert SetMembers(ANIM, 11, false) == Members([], 11);
    assert SetMembers(ANIM, 10, false) == Members([Range(106, 106)], 11);
    assert SetMembers(ANIM, 7, true) == Members([Range(49, 57), Range(106, 106)], 11);
  }

  lemma AnimLetters()
    ensures |ANIM| == 12 && ANIM[0] == STAR && ANIM[6] != STAR && PlainBetween(ANIM, 1, 6) && ANIM[1..6] == DOT_ANIM
  {
    assert ANIM[1..6] == DOT_ANIM;
  }

  // What may follow the star from place k on.
  lemma AnimEnds(name: seq<Unit>, k: nat)
    requires k <= |name|
    ensures |ANIM| == 12
    ensures FitsAfter(ANIM, 0, name, k) <==>
            k + 6 == |name| && (49 <= name[k + 5] <= 57 || name[k + 5] == 106) && name[k..k + 5] == DOT_ANIM
  {
    hide Denotes, TokenAt, Tokens, Fits;
    AnimLetters();
    AnimToken();
    PlainStretch(ANIM, 1, 6, name, k);
    if k + 5 <= |name| {
      FitsToken(ANIM, 6, name, k + 5);
      if k + 6 <= |name| {
        FitsAtEnd(ANIM, name, k + 6);
        InTwo(Range(49, 57), Range(106, 106), name[k + 5]);
      }
    }
  }

  lemma AnimMeans(name: seq<Unit>)
    ensures Denotes(Tokens(ANIM), name) <==>
            |name| >= 6 && (49 <= name[|name| - 1] <= 57 || name[|name| - 1] == 106)
              && name[|name| - 6..|name| - 1] == DOT_ANIM
  {
    hide Denotes, TokenAt, Tokens, Fits;
    DenotesIsFits(ANIM, name);
    AnimLetters();
    FitsStar(ANIM, 0, name, 0);
    forall k: nat | k <= |name|
      ensures FitsAfter(ANIM, 0, name, k) <==>
              k + 6 == |name| && (49 <= name[k + 5] <= 57 || name[k + 5] == 106) && name[k..k + 5] == DOT_ANIM
    {
      AnimEnds(name, k);
    }
    if |name| >= 6 {
      assert FitsAfter(ANIM, 0, name, |name| - 6) || !FitsAfter(ANIM, 0, name, |name| - 6);
    }
  }

  lemma InTwo(a: Range, b: Range, c: Unit)
    ensures InSome([a, b], c) <==> a.low <= c <= a.high || b.low <= c <= b.high
  {
    assert [a, b][0] == a && [a, b][1] == b;
  }

  /** The shortcut for recordings agrees with its wildcard except where the name has the right
      length and ending and three digits, one of them beyond ASCII. */
  lemma VdrAgrees(name: seq<Unit>, isDigit: Unit -> bool)
    requires DigitsInAscii(isDigit)
    ensures (VdrName(name, isDigit) <==> Denotes(Tokens(VDR), name)) <==>
            !(|name| == 7 && name[3..] == DOT_VDR && isDigit(name[0]) && isDigit(name[1]) && isDigit(name[2])
              && (name[0] >= 128 || name[1] >= 128 || name[2] >= 128))
  {
    VdrMeans(name);
  }

  /** The shortcut for animations agrees with its wildcard except where the name has the right
      ending and a last digit beyond ASCII. */
  lemma AnimAgrees(name: seq<Unit>, isDigit: Unit -> bool)
    requires DigitsInAscii(isDigit)
    ensures (AnimName(name, isDigit) <==> Denotes(Tokens(ANIM), name)) <==>
            !(|name| >= 6 && name[|name| - 6..|name| - 1] == DOT_ANIM && isDigit(name[|name| - 1])
              && name[|name| - 1] >= 128)
  {
    AnimMeans(name);
  }

  // The Arabic-Indic zero.
  const ARABIC_ZERO: Unit := 0x660

  /** Both shortcuts accept names with such a digit; their wildcards do not. */
  lemma DigitsBeyondAscii(isDigit: Unit -> bool)
    requires DigitsInAscii(isDigit) && isDigit(ARABIC_ZERO)
    ensures var vdr, anim := [48, 48, ARABIC_ZERO] + DOT_VDR, DOT_ANIM + [ARABIC_ZERO];
            && VdrName(vdr, isDigit) && !Denotes(Tokens(VDR), vdr)
            && AnimName(anim, isDigit) && !Denotes(Tokens(ANIM), anim)
  {
    hide Denotes, Tokens;
    var vdr, anim := [48, 48, ARABIC_ZERO] + DOT_VDR, DOT_ANIM + [ARABIC_ZERO];
    assert vdr[3..] == DOT_VDR && anim[|anim| - 6..|anim| - 1] == DOT_ANIM;
    VdrAgrees(vdr, isDigit);
    AnimAgrees(anim, isDigit);
  }

  // ----- Matching -----

  // What a glob accepts: its wildcard, but for the digits of the two special globs.
  ghost predicate Accepted(pattern: seq<Unit>, name: seq<Unit>, isDigit: Unit -> bool) {
    match Classify(pattern)
    case Vdr => VdrName(name, isDigit)
    case Anim => AnimName(name, isDigit)
    case _ => pattern != [] && Denotes(Tokens(pattern), name)
  }

  /** Any glob that is not empty accepts what its wildcard means, except that in those for recordings
      and animations any digit is one. */
  lemma AcceptedMeans(pattern: seq<Unit>, name: seq<Unit>, isDigit: Unit -> bool)
    ensures pattern != VDR && pattern != ANIM ==>
              (Accepted(pattern, name, isDigit) <==> pattern != [] && Denotes(Tokens(pattern), name))
    ensures pattern == VDR ==> (Accepted(pattern, name, isDigit) <==> VdrName(name, isDigit))
    ensures pattern == ANIM ==> (Accepted(pattern, name, isDigit) <==> AnimName(name, isDigit))
  {
    hide Denotes, Tokens, VdrName, AnimName;
    SpecialGlobs(pattern);
    hide Classify;
  }

  lemma SpecialGlobs(pattern: seq<Unit>)
    ensures Classify(pattern) == Vdr <==> pattern == VDR
    ensures Classify(pattern) == Anim <==> pattern == ANIM
  {
    if pattern == VDR {
      assert pattern[0] == OPEN;
    } else if pattern == ANIM {
      assert pattern[6] == OPEN;
    }
    hide StarCount;
  }

  /** Every way of matching decides what the glob accepts; an empty glob accepts no name. */
  method Matches(pattern: seq<Unit>, kind: Kind, name: seq<Unit>, isDigit: Unit -> bool) returns (matches: bool)
    requires kind == Classify(pattern)
    ensures matches <==> Accepted(pattern, name, isDigit)
  {
    hide Denotes, Tokens, VdrName, AnimName;
    if pattern == [] {
      return false;
    }
    match kind {
      case Suffix =>
        SuffixMeans(pattern, name);
        matches := EndsAlike(pattern, name);
      case Prefix =>
        PrefixMeans(pattern, name);
        matches := StartsAlike(pattern, name);
      case Plain =>
        PlainMeans(pattern, name);
        matches := pattern == name;
      case Vdr =>
        matches := VdrName(name, isDigit);
      case Anim =>
        matches := AnimName(name, isDigit);
      case Other =>
        matches := WildcardMatches(pattern, name);
    }
  }

  // All of the pattern but its first character, compared from the end.
  method EndsAlike(pattern: seq<Unit>, name: seq<Unit>) returns (alike: bool)
    requires pattern != []
    ensures alike <==> |pattern| - 1 <= |name| && name[|name| - (|pattern| - 1)..] == pattern[1..]
  {
    var n := |pattern|;
    if |name| + 1 < n {
      return false;
    }
    for i := 1 to n
      invariant name[|name| - (i - 1)..] == pattern[n - (i - 1)..]
    {
      if pattern[n - i] != name[|name| - i] {
        assert pattern[1..][n - 1 - i] != name[|name| - (n - 1)..][n - 1 - i];
        return false;
      }
      assert name[|name| - i..] == [name[|name| - i]] + name[|name| - (i - 1)..];
      assert pattern[n - i..] == [pattern[n - i]] + pattern[n - (i - 1)..];
    }
    return true;
  }

  // All of the pattern but its last character, compared from the start.
  method StartsAlike(pattern: seq<Unit>, name: seq<Unit>) returns (alike: bool)
    requires pattern != []
    ensures alike <==> |pattern| - 1 <= |name| && name[..|pattern| - 1] == pattern[..|pattern| - 1]
  {
    if |name| + 1 < |pattern| {
      return false;
    }
    for i := 0 to |pattern| - 1
      invariant forall k :: 0 <= k < i ==> pattern[k] == name[k]
    {
      if pattern[i] != name[i] {
        assert pattern[..|pattern| - 1][i] != name[..|pattern| - 1][i];
        return false;
      }
    }
    return true;
  }
}
