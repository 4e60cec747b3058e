/** The MD5 digest of RFC 1321: the words shifted along one place a step against the registers
    that take turns, and whole blocks with a tail against padding first. */
module Md5 {

  type Byte = bv8
  type Word = bv32

  datatype State = State(a: Word, b: Word, c: Word, d: Word)

  const START := State(0x67452301, 0xEFCDAB89, 0x98BADCFE, 0x10325476)

  // ----- Section 3.4: one block -----

  function F(x: Word, y: Word, z: Word): Word { (x & y) | (!x & z) }

  function G(x: Word, y: Word, z: Word): Word { (x & z) | (y & !z) }

  function H(x: Word, y: Word, z: Word): Word { x ^ y ^ z }

  function I(x: Word, y: Word, z: Word): Word { y ^ (x | !z) }

  function Mix(i: nat, x: Word, y: Word, z: Word): Word {
    if i < 16 then F(x, y, z) else if i < 32 then G(x, y, z) else if i < 48 then H(x, y, z) else I(x, y, z)
  }

  // Which word each operation takes, as the four rounds list them.
  function Listed(i: nat): (k: nat)
    requires i < 64
    ensures k < 16
  {
    if i < 16 then [0, 1, 2, 3, 4, 5, 6, 7, 8, 9, 10, 11, 12, 13, 14, 15][i]
    else if i < 32 then [1, 6, 11, 0, 5, 10, 15, 4, 9, 14, 3, 8, 13, 2, 7, 12][i - 16]
    else if i < 48 then [5, 8, 11, 14, 1, 4, 7, 10, 13, 0, 3, 6, 9, 12, 15, 2][i - 32]
    else [0, 7, 14, 5, 12, 3, 10, 1, 8, 15, 6, 13, 4, 11, 2, 9][i - 48]
  }

  function Shift(i: nat): (s: nat)
    requires i < 64
    ensures 0 < s < 32
  {
    if i < 16 then [7, 12, 17, 22][i % 4]
    else if i < 32 then [5, 9, 14, 20][i % 4]
    else if i < 48 then [4, 11, 16, 23][i % 4]
    else [6, 10, 15, 21][i % 4]
  }

  function Constant(i: nat): Word
    requires i < 64
  {
    [0xd76aa478, 0xe8c7b756, 0x242070db, 0xc1bdceee, 0xf57c0faf, 0x4787c62a, 0xa8304613, 0xfd469501,
     0x698098d8, 0x8b44f7af, 0xffff5bb1, 0x895cd7be, 0x6b901122, 0xfd987193, 0xa679438e, 0x49b40821,
     0xf61e2562, 0xc040b340, 0x265e5a51, 0xe9b6c7aa, 0xd62f105d, 0x02441453, 0xd8a1e681, 0xe7d3fbc8,
     0x21e1cde6, 0xc33707d6, 0xf4d50d87, 0x455a14ed, 0xa9e3e905, 0xfcefa3f8, 0x676f02d9, 0x8d2a4c8a,
     0xfffa3942, 0x8771f681, 0x6d9d6122, 0xfde5380c, 0xa4beea44, 0x4bdecfa9, 0xf6bb4b60, 0xbebfbc70,
     0x289b7ec6, 0xeaa127fa, 0xd4ef3085, 0x04881d05, 0xd9d4d039, 0xe6db99e5, 0x1fa27cf8, 0xc4ac5665,
     0xf4292244, 0x432aff97, 0xab9423a7, 0xfc93a039, 0x655b59c3, 0x8f0ccc92, 0xffeff47d, 0x85845dd1,
     0x6fa87e4f, 0xfe2ce6e0, 0xa3014314, 0x4e0811a1, 0xf7537e82, 0xbd3af235, 0x2ad7d2bb, 0xeb86d391][i]
  }

  function Rotate(value: Word, count: nat): Word
    requires 0 < count < 32
  {
    (value << count) | (value >> (32 - count))
  }

  type Words = s: seq<Word> | |s| == 16 witness seq(16, i => 0)

  function Turned(a: Word, mixed: Word, constant: Word, word: Word, count: nat, b: Word): Word
    requires 0 < count < 32
  {
    b + Rotate(a + mixed + constant + word, count)
  }

  // The new value of the register that an operation changes.
  function Changed(words: Words, i: nat, a: Word, b: Word, c: Word, d: Word): Word
    requires i < 64
  {
    Turned(a, Mix(i, b, c, d), Constant(i), words[Listed(i)], Shift(i), b)
  }

  // The operation changes a, then d, c and b in turn.
  function Operation(s: State, words: Words, i: nat): State
    requires i < 64
  {
    match i % 4
    case 0 => s.(a := Changed(words, i, s.a, s.b, s.c, s.d))
    case 1 => s.(d := Changed(words, i, s.d, s.a, s.b, s.c))
    case 2 => s.(c := Changed(words, i, s.c, s.d, s.a, s.b))
    case _ => s.(b := Changed(words, i, s.b, s.c, s.d, s.a))
  }

  function Rounds(s: State, words: Words, n: nat): State
    requires n <= 64
  {
    if n == 0 then s else Operation(Rounds(s, words, n - 1), words, n - 1)
  }

  function Compressed(s: State, words: Words): State {
    Add(s, Rounds(s, words, 64))
  }

  function WordOf(block: seq<Byte>, k: nat): Word
    requires 4 * k + 4 <= |block|
  {
    (block[4 * k] as Word) | ((block[4 * k + 1] as Word) << 8) | ((block[4 * k + 2] as Word) << 16)
      | ((block[4 * k + 3] as Word) << 24)
  }

  function WordsOf(block: seq<Byte>): Words
    requires |block| == 64
  {
    seq(16, k requires 0 <= k < 16 => WordOf(block, k))
  }

  // ----- The loop of one block -----

  // The registers as the variables hold them after so many steps: each moved on one place.
  function Moved(s: State, n: nat): State {
    match n % 4
    case 0 => s
    case 1 => State(s.d, s.a, s.b, s.c)
    case 2 => State(s.c, s.d, s.a, s.b)
    case _ => State(s.b, s.c, s.d, s.a)
  }

  /** The word each step takes by its formula is the one the rounds list. */
  lemma ListedByFormula(i: nat)
    requires i < 64
    ensures Listed(i) == if i < 16 then i else if i < 32 then (5 * i + 1) % 16 else if i < 48 then (3 * i + 5) % 16
            else (7 * i) % 16
  {
    if i < 16 {
    } else if i < 32 {
      SecondRound(i - 16);
    } else if i < 48 {
      ThirdRound(i - 32);
    } else {
      FourthRound(i - 48);
    }
  }

  lemma SecondRound(j: nat)
    requires j < 16
    ensures [1, 6, 11, 0, 5, 10, 15, 4, 9, 14, 3, 8, 13, 2, 7, 12][j] == (5 * (j + 16) + 1) % 16
  {
  }

  lemma ThirdRound(j: nat)
    requires j < 16
    ensures [5, 8, 11, 14, 1, 4, 7, 10, 13, 0, 3, 6, 9, 12, 15, 2][j] == (3 * (j + 32) + 5) % 16
  {
  }

  lemma FourthRound(j: nat)
    requires j < 16
    ensures [0, 7, 14, 5, 12, 3, 10, 1, 8, 15, 6, 13, 4, 11, 2, 9][j] == (7 * (j + 48)) % 16
  {
  }

  // The second function with its terms the other way round.
  lemma MixedSame(b: Word, c: Word, d: Word)
    ensures (d & b) | (!d & c) == G(b, c, d)
  {
  }

  /** One step of the variables is one operation on the registers. */
  lemma StepMoves(s: State, words: Words, n: nat)
    requires n < 64
    ensures var m := Moved(s, n);
            Moved(Operation(s, words, n), n + 1) == State(m.d, Changed(words, n, m.a, m.b, m.c, m.d), m.b, m.c)
  {
    hide Changed;
    if n % 4 == 0 {
      assert (n + 1) % 4 == 1;
    } else if n % 4 == 1 {
      assert (n + 1) % 4 == 2;
    } else if n % 4 == 2 {
      assert (n + 1) % 4 == 3;
    } else {
      assert n % 4 == 3 && (n + 1) % 4 == 0;
    }
  }

  lemma RoundMore(s: State, words: Words, n: nat)
    requires n < 64
    ensures Rounds(s, words, n + 1) == Operation(Rounds(s, words, n), words, n)
    ensures Rounds(s, words, 0) == s && forall r :: Moved(r, 0) == r && Moved(r, 64) == r
  {
    hide Operation;
  }

  /** The loop that moves four variables along does what the rounds do to four registers. */
  method Compress(state: State, block: seq<Byte>) returns (next: State)
    requires |block| == 64
    ensures next == Compressed(state, WordsOf(block))
  {
    RoundMore(state, WordsOf(block), 0);
    hide *;
    var words := WordsOf(block);
    var moved := state;
    var i := 0;
    while i < 64
      invariant i <= 64 && moved == Moved(Rounds(state, words, i), i)
    {
      StepMoves(Rounds(state, words, i), words, i);
      RoundMore(state, words, i);
      moved := Step(words, i, moved);
      i := i + 1;
    }
    RoundMore(state, words, 0);
    next := Add(state, moved);
    Finished(state, words);
  }

  function Add(s: State, r: State): State {
    State(s.a + r.a, s.b + r.b, s.c + r.c, s.d + r.d)
  }

  lemma Finished(s: State, words: Words)
    ensures Compressed(s, words) == Add(s, Rounds(s, words, 64))
  {
    hide Rounds;
  }

  // One step: the variables move along, the changed one to second place.
  method Step(words: Words, i: nat, m: State) returns (next: State)
    requires i < 64
    ensures next == State(m.d, Changed(words, i, m.a, m.b, m.c, m.d), m.b, m.c)
  {
    var mixed, g := Choose(i, m.b, m.c, m.d);
    hide Mix, Turned, Shift, Constant, Listed;
    next := State(m.d, Turned(m.a, mixed, Constant(i), words[g], Shift(i), m.b), m.b, m.c);
  }

  // The mixing function and the word of a step.
  method Choose(i: nat, b: Word, c: Word, d: Word) returns (mixed: Word, g: nat)
    requires i < 64
    ensures mixed == Mix(i, b, c, d) && g == Listed(i)
  {
    ListedByFormula(i);
    MixedSame(b, c, d);
    hide Listed;
    if i < 16 {
      mixed, g := (b & c) | (!b & d), i;
    } else if i < 32 {
      mixed, g := (d & b) | (!d & c), (5 * i + 1) % 16;
    } else if i < 48 {
      mixed, g := b ^ c ^ d, (3 * i + 5) % 16;
    } else {
      mixed, g := c ^ (b | !d), (7 * i) % 16;
    }
  }

  // ----- Sections 3.1 to 3.3: padding -----

  // So many zero bytes that eight are left to the next 64.
  function Zeros(size: nat): (n: nat)
    ensures n < 64 && (size + 1 + n + 8) % 64 == 0
  {
    (119 - size % 64) % 64
  }

  // The length in bits, its low byte first.
  function LengthByte(size: nat, k: nat): Byte
    requires k < 8
  {
    var bits := size * 8 % 0x1_0000_0000_0000_0000;
    (bits / (match k case 0 => 1 case 1 => 0x100 case 2 => 0x1_0000 case 3 => 0x100_0000 case 4 => 0x1_0000_0000
                     case 5 => 0x100_0000_0000
                     case 6 => 0x1_0000_0000_0000 case _ => 0x100_0000_0000_0000) % 256) as Byte
  }

  function LengthBytes(size: nat): (s: seq<Byte>)
    ensures |s| == 8
  {
    seq(8, k requires 0 <= k < 8 => LengthByte(size, k))
  }

  function Padding(size: nat): seq<Byte> {
    [0x80] + seq(Zeros(size), k => 0) + LengthBytes(size)
  }

  // Block after block.
  function Folded(s: State, text: seq<Byte>): State
    requires |text| % 64 == 0
  {
    if text == [] then s
    else
      var n := |text| - 64;
      Compressed(Folded(s, text[..n]), WordsOf(text[n..]))
  }

  const DIGITS := "0123456789abcdef"

  function HexByte(b: Byte): string {
    [DIGITS[(b >> 4) as nat], DIGITS[(b & 0xF) as nat]]
  }

  function HexWord(w: Word): string {
    HexByte((w & 0xFF) as Byte) + HexByte(((w >> 8) & 0xFF) as Byte)
    + HexByte(((w >> 16) & 0xFF) as Byte) + HexByte(((w >> 24) & 0xFF) as Byte)
  }

  function Digest(text: seq<Byte>): string {
    var s := Folded(START, text + Padding(|text|));
    HexWord(s.a) + HexWord(s.b) + HexWord(s.c) + HexWord(s.d)
  }

  // A word has its low byte first.
  lemma WordBytes(block: seq<Byte>, k: nat)
    requires 4 * k + 4 <= |block|
    ensures var w := WordOf(block, k);
            && (w & 0xFF) as Byte == block[4 * k] && ((w >> 8) & 0xFF) as Byte == block[4 * k + 1]
            && ((w >> 16) & 0xFF) as Byte == block[4 * k + 2] && ((w >> 24) & 0xFF) as Byte == block[4 * k + 3]
  {
  }

  /** A word is printed as its bytes are in the text, the low one first. */
  lemma LowByteFirst(block: seq<Byte>, k: nat, a: string, b: string, c: string, d: string)
    requires 4 * k + 4 <= |block|
    requires a == HexByte(block[4 * k]) && b == HexByte(block[4 * k + 1])
    requires c == HexByte(block[4 * k + 2]) && d == HexByte(block[4 * k + 3])
    ensures HexWord(WordOf(block, k)) == a + b + c + d
  {
    WordBytes(block, k);
    hide HexByte, WordOf;
  }

  // ----- Whole blocks and a tail -----

  lemma FoldedOne(s: State, block: seq<Byte>)
    requires |block| == 64
    ensures Folded(s, block) == Compressed(s, WordsOf(block))
  {
    hide Compressed, WordsOf;
    assert block[..0] == [] && block[0..] == block;
  }

  lemma FoldedLast(s: State, text: seq<Byte>, block: seq<Byte>)
    requires |text| % 64 == 0 && |block| == 64
    ensures Folded(s, text + block) == Compressed(Folded(s, text), WordsOf(block))
  {
    hide Compressed, WordsOf;
    assert (text + block)[..|text|] == text && (text + block)[|text|..] == block;
  }

  lemma BlocksJoined(a: seq<Byte>, b: seq<Byte>, block: seq<Byte>)
    requires |a| % 64 == 0 && |b| % 64 == 0 && |block| == 64
    ensures |a + b| % 64 == 0 && |a + (b + block)| % 64 == 0
    ensures a + (b + block) == (a + b) + block
  {
  }

  lemma {:induction false} FoldedTwo(s: State, a: seq<Byte>, b: seq<Byte>)
    requires |a| % 64 == 0 && |b| % 64 == 0
    ensures Folded(s, a + b) == Folded(Folded(s, a), b)
    decreases |b|
  {
    if b == [] {
      assert a + b == a;
    } else {
      hide Compressed, WordsOf, Folded;
      var n := |b| - 64;
      var before, block := b[..n], b[n..];
      BlocksJoined(a, before, block);
      assert b == before + block;
      FoldedTwo(s, a, before);
      FoldedLast(s, a + before, block);
      FoldedLast(Folded(s, a), before, block);
    }
  }

  // The rest of the text, the mark, zeros and the length, in one block or two.
  method FillTail(rest: seq<Byte>, size: nat) returns (tail: array<Byte>, tailSize: nat)
    requires |rest| == size % 64
    ensures tail.Length == 128 && tailSize == (if |rest| < 56 then 64 else 128)
    ensures tail[..tailSize] == rest + Padding(size)
  {
    tail := new Byte[128](_ => 0);
    var remaining := |rest|;
    forall k | 0 <= k < remaining {
      tail[k] := rest[k];
    }
    tail[remaining] := 0x80;
    tailSize := if remaining < 56 then 64 else 128;
    var i := 0;
    while i < 8
      invariant i <= 8
      invariant forall k :: 0 <= k < remaining ==> tail[k] == rest[k]
      invariant tail[remaining] == 0x80
      invariant forall k :: remaining < k < tailSize - 8 ==> tail[k] == 0
      invariant forall k :: 0 <= k < i ==> tail[tailSize - 8 + k] == LengthByte(size, k)
    {
      tail[tailSize - 8 + i] := LengthByte(size, i);
      i := i + 1;
    }
    TailIsPadding(tail[..tailSize], rest, size);
  }

  lemma TailIsPadding(tail: seq<Byte>, rest: seq<Byte>, size: nat)
    requires |rest| == size % 64 && |tail| == if |rest| < 56 then 64 else 128
    requires forall k :: 0 <= k < |rest| ==> tail[k] == rest[k]
    requires tail[|rest|] == 0x80
    requires forall k :: |rest| < k < |tail| - 8 ==> tail[k] == 0
    requires forall k :: 0 <= k < 8 ==> tail[|tail| - 8 + k] == LengthByte(size, k)
    ensures tail == rest + Padding(size)
  {
    hide LengthByte;
    var zeros := Zeros(size);
    assert zeros == |tail| - 9 - |rest|;
    var padded := rest + Padding(size);
    assert |padded| == |tail|;
    forall k | 0 <= k < |tail|
      ensures tail[k] == padded[k]
    {
      if k > |rest| + zeros {
        assert tail[|tail| - 8 + (k - (|tail| - 8))] == LengthByte(size, k - (|tail| - 8));
      }
    }
  }

  lemma BlockMore(text: seq<Byte>, offset: nat)
    requires offset % 64 == 0 && offset + 64 <= |text|
    ensures Folded(START, text[..offset + 64]) == Compressed(Folded(START, text[..offset]),
            WordsOf(text[offset..offset + 64]))
  {
    var block := text[offset..offset + 64];
    assert text[..offset + 64] == text[..offset] + block;
    FoldedTwo(START, text[..offset], block);
    FoldedOne(Folded(START, text[..offset]), block);
    hide Compressed, WordsOf;
  }

  // The whole blocks of the text.
  method FoldBlocks(data: seq<Byte>) returns (state: State, offset: nat)
    ensures offset <= |data| < offset + 64 && offset % 64 == 0 && state == Folded(START, data[..offset])
  {
    hide Compressed, WordsOf;
    state, offset := START, 0;
    while offset + 64 <= |data|
      invariant offset <= |data| && offset % 64 == 0 && state == Folded(START, data[..offset])
    {
      BlockMore(data, offset);
      state := Compress(state, data[offset..offset + 64]);
      offset := offset + 64;
    }
  }

  // The tail's one block or two.
  method FoldTail(before: State, tail: seq<Byte>) returns (state: State)
    requires |tail| == 64 || |tail| == 128
    ensures state == Folded(before, tail)
  {
    hide Compressed, WordsOf;
    state := Compress(before, tail[..64]);
    FoldedOne(before, tail[..64]);
    assert tail == tail[..64] + tail[64..];
    FoldedTwo(before, tail[..64], tail[64..]);
    if |tail| == 128 {
      FoldedOne(state, tail[64..]);
      state := Compress(state, tail[64..]);
    }
  }

  /** The digest of the padded text, without a padded copy of it. */
  method Md5Hex(data: seq<Byte>) returns (hex: string)
    ensures hex == Digest(data)
  {
    hide Folded, Padding, HexWord, LengthByte;
    var before, offset := FoldBlocks(data);
    var tail, tailSize := FillTail(data[offset..], |data|);
    var state := FoldTail(before, tail[..tailSize]);
    PaddedText(data, offset);
    FoldedTwo(START, data[..offset], tail[..tailSize]);
    hex := HexWord(state.a) + HexWord(state.b) + HexWord(state.c) + HexWord(state.d);
  }

  lemma PaddedText(data: seq<Byte>, offset: nat)
    requires offset <= |data|
    ensures data[..offset] + (data[offset..] + Padding(|data|)) == data + Padding(|data|)
  {
    hide Padding;
    assert data == data[..offset] + data[offset..];
  }
}
