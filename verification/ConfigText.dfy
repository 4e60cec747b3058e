/** The text of a configuration file: lines, comments, whitespace and comma-separated words. */
module ConfigText {
  import opened Texts

  predicate IsSpace(c: char) {
    c == ' ' || 9 <= c as int <= 13
  }

  function Lower(c: char): char {
    if 'A' <= c <= 'Z' then (c as int + 32) as char else c
  }

  // A capital letter becomes its small one, and any other character stays.
  lemma LettersAreLowered(c: char)
    ensures c !in "ABCDEFGHIJKLMNOPQRSTUVWXYZ" ==> Lower(c) == c
    ensures forall k ::
              0 <= k < 26 ==> Lower("ABCDEFGHIJKLMNOPQRSTUVWXYZ"[k]) == "abcdefghijklmnopqrstuvwxyz"[k]
  {
    var capitals, small := "ABCDEFGHIJKLMNOPQRSTUVWXYZ", "abcdefghijklmnopqrstuvwxyz";
    forall k | 0 <= k < 26
      ensures capitals[k] as int == 65 + k && small[k] as int == 97 + k
    {
    }
    if 'A' <= c <= 'Z' {
      assert c == capitals[c as int - 65];
    }
  }

  // ----- Whitespace and comments -----

  // A space, a tab, the end of a line, a carriage return, a vertical tab or a form feed.
  predicate IsBlank(c: char) {
    c in {' ', '\t', '\n', '\r'} || c as int in {11, 12}
  }

  lemma SpacesAreBlank(c: char)
    ensures IsSpace(c) <==> IsBlank(c)
  {
  }

  function Dense(s: string): string {
    if s == "" then ""
    else Dense(s[..|s| - 1]) + if IsSpace(s[|s| - 1]) then "" else [s[|s| - 1]]
  }

  predicate IsDense(s: string) {
    forall k :: 0 <= k < |s| ==> !IsSpace(s[k])
  }

  lemma {:induction false} DenseAppend(a: string, b: string)
    ensures Dense(a + b) == Dense(a) + Dense(b)
    decreases |b|
  {
    if b == "" {
      assert a + b == a;
    } else {
      assert (a + b)[..|a + b| - 1] == a + b[..|b| - 1];
      DenseAppend(a, b[..|b| - 1]);
    }
  }

  lemma {:induction false} DenseStays(s: string)
    requires IsDense(s)
    ensures Dense(s) == s
  {
    if s != "" {
      DenseStays(s[..|s| - 1]);
      assert s == s[..|s| - 1] + [s[|s| - 1]];
    }
  }

  lemma {:induction false} DenseIsDense(s: string)
    ensures IsDense(Dense(s)) && forall c :: c in Dense(s) ==> c in s
  {
    if s != "" {
      DenseIsDense(s[..|s| - 1]);
      assert forall c :: c in s[..|s| - 1] ==> c in s;
    }
  }

  // Text without the whitespace around it.
  function TrimmedStart(s: string): string {
    if s != "" && IsSpace(s[0]) then TrimmedStart(s[1..]) else s
  }

  function TrimmedEnd(s: string): string {
    if s != "" && IsSpace(s[|s| - 1]) then TrimmedEnd(s[..|s| - 1]) else s
  }

  function Trimmed(s: string): string {
    TrimmedEnd(TrimmedStart(s))
  }

  lemma TrimmedStays(s: string)
    requires s == "" || (!IsSpace(s[0]) && !IsSpace(s[|s| - 1]))
    ensures Trimmed(s) == s
  {
  }

  // Only whitespace is cut off, and all of it, on both sides.
  lemma {:induction false} TrimmedIs(s: string) returns (before: string, after: string)
    ensures s == before + Trimmed(s) + after
    ensures forall c :: c in before || c in after ==> IsBlank(c)
    ensures Trimmed(s) != "" ==> !IsBlank(Trimmed(s)[0]) && !IsBlank(Trimmed(s)[|Trimmed(s)| - 1])
  {
    before := TrimmedStartIs(s);
    after := TrimmedEndIs(TrimmedStart(s));
    assert Trimmed(s) != "" ==> Trimmed(s)[0] == TrimmedStart(s)[0];
  }

  lemma {:induction false} TrimmedStartIs(s: string) returns (before: string)
    ensures s == before + TrimmedStart(s)
    ensures forall c :: c in before ==> IsBlank(c)
    ensures TrimmedStart(s) != "" ==> !IsBlank(TrimmedStart(s)[0])
  {
    before := "";
    if s != "" {
      SpacesAreBlank(s[0]);
      if IsSpace(s[0]) {
        before := TrimmedStartIs(s[1..]);
        before := [s[0]] + before;
        assert s == [s[0]] + s[1..];
      }
    }
  }

  lemma {:induction false} TrimmedEndIs(s: string) returns (after: string)
    ensures s == TrimmedEnd(s) + after
    ensures forall c :: c in after ==> IsBlank(c)
    ensures TrimmedEnd(s) != "" ==> !IsBlank(TrimmedEnd(s)[|TrimmedEnd(s)| - 1])
  {
    after := "";
    if s != "" {
      var last := s[|s| - 1];
      SpacesAreBlank(last);
      if IsSpace(last) {
        after := TrimmedEndIs(s[..|s| - 1]);
        after := after + [last];
        assert s == s[..|s| - 1] + [last];
      }
    }
  }

  // A line without its comment and its whitespace.
  function Stripped(line: string): string {
    Dense(line[..First(line, '#')])
  }

  lemma StrippedIsPlain(line: string)
    ensures IsDense(Stripped(line)) && '#' !in Stripped(line)
  {
    DenseIsDense(line[..First(line, '#')]);
  }

  /** A comment goes with all that follows, and so does every blank; all else stays in its order. */
  lemma {:induction false} OnlyTextStays(text: string, comment: string)
    requires '#' !in text
    ensures Stripped(text + "#" + comment) == Stripped(text)
    ensures text != "" ==>
              var last := text[|text| - 1];
              Stripped(text) == Stripped(text[..|text| - 1]) + if IsBlank(last) then "" else [last]
  {
    var line := text + "#" + comment;
    FirstIs(line, |text|, '#');
    assert line[..|text|] == text;
    NoComment(text);
    if text != "" {
      NoComment(text[..|text| - 1]);
      SpacesAreBlank(text[|text| - 1]);
    }
  }

  lemma NoComment(line: string)
    requires '#' !in line
    ensures Stripped(line) == Dense(line)
  {
    assert First(line, '#') == |line|;
    assert line[..|line|] == line;
  }

  // ----- Words -----

  function NotEmpty(parts: seq<string>): seq<string> {
    if parts == [] then []
    else NotEmpty(parts[..|parts| - 1]) + if parts[|parts| - 1] == "" then [] else [parts[|parts| - 1]]
  }

  // What commas separate, without what is empty.
  function Words(s: string): (words: seq<string>) {
    NotEmpty(Split(s, ','))
  }

  predicate IsWord(s: string) {
    s != "" && IsDense(s) && '#' !in s && ',' !in s
  }

  ghost predicate AreWords(words: seq<string>) {
    forall k :: 0 <= k < |words| ==> IsWord(words[k])
  }

  lemma {:induction false} NotEmptyKeeps(parts: seq<string>)
    ensures forall part :: part in NotEmpty(parts) ==> part in parts && part != ""
    ensures "" !in parts ==> NotEmpty(parts) == parts
  {
    if parts != [] {
      NotEmptyKeeps(parts[..|parts| - 1]);
      assert parts == parts[..|parts| - 1] + [parts[|parts| - 1]];
    }
  }

  // Each part of a split text is a stretch of it.
  lemma {:induction false} SplitIsWithin(s: string, c: char)
    ensures forall part :: part in Split(s, c) ==> forall x :: x in part ==> x in s
    decreases |s|
  {
    var k := First(s, c);
    if k < |s| {
      SplitIsWithin(s[k + 1..], c);
      assert forall x :: x in s[..k] ==> x in s;
      assert forall x :: x in s[k + 1..] ==> x in s;
    }
  }

  lemma WordsAreWords(s: string)
    requires IsDense(s) && '#' !in s
    ensures AreWords(Words(s))
  {
    SplitHasNone(s, ',');
    SplitIsWithin(s, ',');
    NotEmptyKeeps(Split(s, ','));
    hide Split, NotEmpty;
    forall k | 0 <= k < |Words(s)|
      ensures IsWord(Words(s)[k])
    {
      var word := Words(s)[k];
      assert word in NotEmpty(Split(s, ','));
      DenseWithin(word, s);
    }
  }

  lemma DenseWithin(word: string, s: string)
    requires IsDense(s) && forall x :: x in word ==> x in s
    ensures IsDense(word)
  {
    forall k | 0 <= k < |word|
      ensures !IsSpace(word[k])
    {
      assert word[k] in s;
    }
  }

  /** Words that were joined with commas read back. */
  lemma WordsOfJoined(words: seq<string>)
    requires AreWords(words)
    ensures Words(Joined(words, ",")) == words
  {
    if words == [] {
      SplitPlain("", ',');
      assert NotEmpty([""]) == NotEmpty([""][..0]) + [];
    } else {
      assert forall word :: word in words ==> ',' !in word && word != "";
      SplitJoined(words, ',');
      NotEmptyKeeps(words);
    }
  }

  lemma {:induction false} DenseJoined(words: seq<string>)
    requires AreWords(words)
    ensures Dense(Joined(words, ", ")) == Joined(words, ",")
    decreases |words|
  {
    if |words| == 1 {
      WordIsPlain(words[0]);
    } else if words != [] {
      var n := |words| - 1;
      DenseJoined(words[..n]);
      WordIsPlain(words[n]);
      DenseCommas(Joined(words[..n], ", "), words[n]);
      hide Dense, IsWord;
    }
  }

  lemma NotInJoined(a: string, b: string, d: string, c: char)
    requires c !in a && c !in b && c !in d
    ensures c !in a + b + d
  {
  }

  lemma AreWordsEach(words: seq<string>)
    requires AreWords(words) && words != []
    ensures AreWords(words[..|words| - 1]) && IsWord(words[|words| - 1])
  {
    hide IsWord;
  }

  lemma JoinedLast(words: seq<string>, separator: string)
    requires words != []
    ensures var n := |words| - 1;
            Joined(words, separator) == if n == 0 then words[0]
              else Joined(words[..n], separator) + separator + words[n]
  {
  }

  lemma {:induction false} JoinedIsPlain(words: seq<string>, c: char)
    requires AreWords(words) && c in {'#', '\n'}
    ensures c !in Joined(words, ", ")
    decreases |words|
  {
    if words != [] {
      hide IsWord, AreWords, Joined;
      var n := |words| - 1;
      AreWordsEach(words);
      WordIsPlain(words[n]);
      JoinedLast(words, ", ");
      if n > 0 {
        JoinedIsPlain(words[..n], c);
        NotInJoined(Joined(words[..n], ", "), ", ", words[n], c);
      }
    }
  }

  lemma DenseCommas(before: string, word: string)
    ensures Dense(before + ", " + word) == Dense(before) + "," + Dense(word)
  {
    DenseAppend(before, ", ");
    DenseAppend(before + ", ", word);
    assert ", "[..1] == "," && ","[..0] == "";
    assert Dense(", ") == ",";
  }

  lemma WordIsPlain(word: string)
    requires IsWord(word)
    ensures Dense(word) == word && '#' !in word && '\n' !in word
  {
    DenseStays(word);
    DenseHasNoNewline(word);
  }

  lemma DenseHasNoNewline(s: string)
    requires IsDense(s)
    ensures '\n' !in s
  {
    assert forall k :: 0 <= k < |s| ==> s[k] != '\n';
  }

  // ----- The loops -----

  // The characters of a line that count.
  method Strip(line: string) returns (stripped: string)
    ensures stripped == Stripped(line)
  {
    stripped := "";
    var text := line[..First(line, '#')];
    var k := 0;
    while k < |text|
      invariant k <= |text| && stripped == Dense(text[..k])
    {
      assert text[..k + 1][..k] == text[..k];
      if !IsSpace(text[k]) {
        stripped := stripped + [text[k]];
      }
      k := k + 1;
    }
    assert text[..k] == text;
  }
}
