/** UTF-8 as network names use it: a decoder that accepts nothing but what section 4 of RFC 3629
    allows, the encoder it undoes, and the cut of a long name at a whole character. */
module Utf8 {

  type Byte = bv8

  // ----- Section 4 of RFC 3629 -----

  predicate IsTail(b: Byte) {
    0x80 <= b <= 0xBF
  }

  predicate IsChar1(a: Byte) {
    a <= 0x7F
  }

  predicate IsChar2(a: Byte, b: Byte) {
    0xC2 <= a <= 0xDF && IsTail(b)
  }

  predicate IsChar3(a: Byte, b: Byte, c: Byte) {
    && IsTail(c)
    && ((a == 0xE0 && 0xA0 <= b <= 0xBF) || (0xE1 <= a <= 0xEC && IsTail(b))
        || (a == 0xED && 0x80 <= b <= 0x9F) || (0xEE <= a <= 0xEF && IsTail(b)))
  }

  predicate IsChar4(a: Byte, b: Byte, c: Byte, d: Byte) {
    && IsTail(c) && IsTail(d)
    && ((a == 0xF0 && 0x90 <= b <= 0xBF) || (0xF1 <= a <= 0xF3 && IsTail(b)) || (a == 0xF4 && 0x80 <= b <= 0x8F))
  }

  predicate IsChar(s: seq<Byte>) {
    match |s|
    case 1 => IsChar1(s[0])
    case 2 => IsChar2(s[0], s[1])
    case 3 => IsChar3(s[0], s[1], s[2])
    case 4 => IsChar4(s[0], s[1], s[2], s[3])
    case _ => false
  }

  // A string of whole characters.
  ghost predicate WellFormed(s: seq<Byte>)
    decreases |s|
  {
    s == [] || exists n :: 1 <= n <= |s| && IsChar(s[..n]) && WellFormed(s[n..])
  }

  // What may be a code point: no surrogate, nothing past Unicode.
  predicate IsScalar(c: bv32) {
    c <= 0x10FFFF && !(0xD800 <= c <= 0xDFFF)
  }

  // ----- Encoding -----

  function Low(c: bv32): Byte {
    (c & 0xFF) as Byte
  }

  function Tail(c: bv32): Byte {
    Low(0x80 | (c & 0x3F))
  }

  function Encoded(c: bv32): seq<Byte> {
    if c < 0x80 then [Low(c)]
    else if c < 0x800 then [Low(0xC0 | (c >> 6)), Tail(c)]
    else if c < 0x10000 then [Low(0xE0 | (c >> 12)), Tail(c >> 6), Tail(c)]
    else [Low(0xF0 | (c >> 18)), Tail(c >> 12), Tail(c >> 6), Tail(c)]
  }

  function Encode(text: seq<bv32>): seq<Byte> {
    if text == [] then [] else Encode(text[..|text| - 1]) + Encoded(text[|text| - 1])
  }

  // ----- Bits -----

  function Start(lead: Byte, mask: bv32): bv32 {
    (lead as bv32) & mask
  }

  function Shift(c: bv32, next: Byte): bv32 {
    (c << 6) | ((next as bv32) & 0x3F)
  }

  lemma TailBits(b: Byte)
    ensures (b & 0xC0) == 0x80 <==> IsTail(b)
  {
  }

  lemma LeadBits(a: Byte)
    ensures (a & 0xE0) == 0xC0 <==> 0xC0 <= a <= 0xDF
    ensures (a & 0xF0) == 0xE0 <==> 0xE0 <= a <= 0xEF
    ensures (a & 0xF8) == 0xF0 <==> 0xF0 <= a <= 0xF7
  {
  }

  predicate Packed3(c: bv32, a: Byte, b: Byte, d: Byte) {
    Low(0xE0 | (c >> 12)) == a && Tail(c >> 6) == b && Tail(c) == d
  }

  predicate Packed4(c: bv32, a: Byte, b: Byte, d: Byte, e: Byte) {
    Low(0xF0 | (c >> 18)) == a && Tail(c >> 12) == b && Tail(c >> 6) == d && Tail(c) == e
  }

  lemma Bits1(a: Byte)
    requires a < 0x80
    ensures (a as bv32) < 0x80 && Low(a as bv32) == a
  {
  }

  lemma Bits2(a: Byte, b: Byte)
    requires 0xC2 <= a <= 0xDF && IsTail(b)
    ensures var c := Shift(Start(a, 0x1F), b);
            0x80 <= c < 0x800 && Low(0xC0 | (c >> 6)) == a && Tail(c) == b
  {
  }

  lemma Bits3(a: Byte, b: Byte, d: Byte)
    requires 0xE0 <= a <= 0xEF && IsTail(b) && IsTail(d)
    ensures var c := Shift(Shift(Start(a, 0x0F), b), d);
            && c < 0x10000 && Packed3(c, a, b, d)
            && (c >= 0x800 && !(0xD800 <= c <= 0xDFFF) <==> IsChar3(a, b, d))
  {
  }

  lemma Unpacked4(a: Byte, b: Byte, d: Byte, e: Byte)
    requires 0xF0 <= a <= 0xF4 && IsTail(b) && IsTail(d) && IsTail(e)
    ensures var c := Shift(Shift(Shift(Start(a, 0x07), b), d), e);
            Low(0xF0 | (c >> 18)) == a && Tail(c >> 12) == b && Tail(c >> 6) == d && Tail(c) == e
  {
  }

  lemma Bits4(a: Byte, b: Byte, d: Byte, e: Byte)
    requires 0xF0 <= a <= 0xF4 && IsTail(b) && IsTail(d) && IsTail(e)
    ensures var c := Shift(Shift(Shift(Start(a, 0x07), b), d), e);
            Packed4(c, a, b, d, e) && (0x10000 <= c <= 0x10FFFF <==> IsChar4(a, b, d, e))
  {
    hide Start, Shift, Low, Tail, IsTail, IsChar4;
    Unpacked4(a, b, d, e);
    Range4(a, b, d, e);
  }

  lemma Range4(a: Byte, b: Byte, d: Byte, e: Byte)
    requires 0xF0 <= a <= 0xF4 && IsTail(b) && IsTail(d) && IsTail(e)
    ensures var c := Shift(Shift(Shift(Start(a, 0x07), b), d), e);
            0x10000 <= c <= 0x10FFFF <==> IsChar4(a, b, d, e)
  {
  }

  lemma Encoded2(c: bv32)
    requires 0x80 <= c < 0x800
    ensures IsChar2(Low(0xC0 | (c >> 6)), Tail(c))
    ensures Shift(Start(Low(0xC0 | (c >> 6)), 0x1F), Tail(c)) == c
  {
  }

  lemma Encoded3(c: bv32)
    requires 0x800 <= c < 0x10000 && IsScalar(c)
    ensures IsChar3(Low(0xE0 | (c >> 12)), Tail(c >> 6), Tail(c))
    ensures Shift(Shift(Start(Low(0xE0 | (c >> 12)), 0x0F), Tail(c >> 6)), Tail(c)) == c
  {
  }

  lemma TailIsTail(c: bv32)
    ensures IsTail(Tail(c)) && ((Tail(c) as bv32) & 0x3F) == c & 0x3F
  {
  }

  lemma Lead4(c: bv32)
    requires 0x10000 <= c <= 0x10FFFF
    ensures Start(Low(0xF0 | (c >> 18)), 0x07) == c >> 18
    ensures var a, b := Low(0xF0 | (c >> 18)), Tail(c >> 12);
            (a == 0xF0 && 0x90 <= b <= 0xBF) || (0xF1 <= a <= 0xF3 && IsTail(b)) || (a == 0xF4 && 0x80 <= b <= 0x8F)
  {
  }

  lemma Encoded4(c: bv32)
    requires 0x10000 <= c <= 0x10FFFF
    ensures IsChar4(Low(0xF0 | (c >> 18)), Tail(c >> 12), Tail(c >> 6), Tail(c))
  {
    Lead4(c);
    TailIsTail(c >> 6);
    TailIsTail(c);
    hide Low, Tail, Start, Shift, IsTail;
  }

  lemma Decoded4(c: bv32)
    requires 0x10000 <= c <= 0x10FFFF
    ensures Shift(Shift(Shift(Start(Low(0xF0 | (c >> 18)), 0x07), Tail(c >> 12)), Tail(c >> 6)), Tail(c)) == c
  {
    Lead4(c);
    ShiftTail(c >> 18, c >> 12);
    ShiftTail(c >> 12, c >> 6);
    ShiftTail(c >> 6, c);
    hide *;
  }

  lemma ShiftTail(high: bv32, c: bv32)
    requires high == c >> 6
    ensures Shift(high, Tail(c)) == c
  {
  }

  // ----- Characters -----

  function CodePointOf(s: seq<Byte>): bv32
    requires IsChar(s)
  {
    match |s|
    case 1 => s[0] as bv32
    case 2 => Shift(Start(s[0], 0x1F), s[1])
    case 3 => Shift(Shift(Start(s[0], 0x0F), s[1]), s[2])
    case _ => Shift(Shift(Shift(Start(s[0], 0x07), s[1]), s[2]), s[3])
  }

  // The length of a character, told by its first byte; 0 when none starts so.
  function LengthOf(lead: Byte): (n: nat)
    ensures n <= 4
  {
    if lead < 0x80 then 1
    else if 0xC2 <= lead <= 0xDF then 2
    else if 0xE0 <= lead <= 0xEF then 3
    else if 0xF0 <= lead <= 0xF4 then 4
    else 0
  }

  lemma CharShape(s: seq<Byte>)
    requires IsChar(s)
    ensures |s| == LengthOf(s[0]) && !IsTail(s[0])
    ensures forall k :: 1 <= k < |s| ==> IsTail(s[k])
  {
  }

  /** A character is the encoding of its code point, which is a scalar value. */
  lemma CharRoundTrip(s: seq<Byte>)
    requires IsChar(s)
    ensures IsScalar(CodePointOf(s)) && Encoded(CodePointOf(s)) == s
  {
    CharShape(s);
    if |s| == 1 {
      Bits1(s[0]);
    } else if |s| == 2 {
      Bits2(s[0], s[1]);
    } else {
      hide Start, Shift, IsTail, IsChar3, IsChar4, Encoded;
      if |s| == 3 {
        RoundTrip3(s, CodePointOf(s));
      } else {
        RoundTrip4(s, CodePointOf(s));
      }
    }
  }

  lemma RoundTrip3(s: seq<Byte>, c: bv32)
    requires |s| == 3 && IsChar3(s[0], s[1], s[2]) && 0xE0 <= s[0] <= 0xEF && IsTail(s[1]) && IsTail(s[2])
    requires c == Shift(Shift(Start(s[0], 0x0F), s[1]), s[2])
    ensures IsScalar(c) && Encoded(c) == s
  {
    hide Start, Shift, Packed3, Encoded, IsTail;
    Bits3(s[0], s[1], s[2]);
    EncodedAs3(c, s);
  }

  lemma RoundTrip4(s: seq<Byte>, c: bv32)
    requires |s| == 4 && IsChar4(s[0], s[1], s[2], s[3]) && 0xF0 <= s[0] <= 0xF4
    requires IsTail(s[1]) && IsTail(s[2]) && IsTail(s[3])
    requires c == Shift(Shift(Shift(Start(s[0], 0x07), s[1]), s[2]), s[3])
    ensures IsScalar(c) && Encoded(c) == s
  {
    hide Start, Shift, Packed4, Encoded, IsTail, IsChar4;
    Bits4(s[0], s[1], s[2], s[3]);
    EncodedAs4(c, s);
  }

  lemma EncodedAs3(c: bv32, s: seq<Byte>)
    requires 0x800 <= c < 0x10000 && |s| == 3
    requires Packed3(c, s[0], s[1], s[2])
    ensures Encoded(c) == s
  {
    hide Low, Tail;
    assert s == [s[0], s[1], s[2]];
  }

  lemma EncodedAs4(c: bv32, s: seq<Byte>)
    requires 0x10000 <= c && |s| == 4
    requires Packed4(c, s[0], s[1], s[2], s[3])
    ensures Encoded(c) == s
  {
    hide Low, Tail;
    assert s == [s[0], s[1], s[2], s[3]];
  }

  /** Every scalar value has a character that decodes to it. */
  lemma ScalarRoundTrip(c: bv32)
    requires IsScalar(c)
    ensures IsChar(Encoded(c)) && CodePointOf(Encoded(c)) == c
  {
    if c < 0x80 {
      Encoded1(c);
    } else if c < 0x800 {
      Encoded2(c);
    } else if c < 0x10000 {
      Encoded3(c);
    } else {
      Encoded4(c);
      Decoded4(c);
    }
  }

  lemma Encoded1(c: bv32)
    requires c < 0x80
    ensures IsChar1(Low(c)) && Low(c) as bv32 == c
  {
  }

  // ----- Strings of characters -----

  lemma WellFormedRest(s: seq<Byte>, n: nat)
    requires 1 <= n <= |s| && IsChar(s[..n])
    ensures WellFormed(s) <==> WellFormed(s[n..])
  {
    hide IsChar;
    CharShape(s[..n]);
    if WellFormed(s) {
      var m :| 1 <= m <= |s| && IsChar(s[..m]) && WellFormed(s[m..]);
      CharShape(s[..m]);
    }
  }

  // Text that starts with no character is not well formed.
  lemma NoChar(s: seq<Byte>)
    requires s != [] && !(LengthOf(s[0]) >= 1 && LengthOf(s[0]) <= |s| && IsChar(s[..LengthOf(s[0])]))
    ensures !WellFormed(s)
  {
    hide IsChar;
    if WellFormed(s) {
      var m :| 1 <= m <= |s| && IsChar(s[..m]) && WellFormed(s[m..]);
      CharShape(s[..m]);
      assert false;
    }
  }

  lemma {:induction false} WellFormedJoined(a: seq<Byte>, b: seq<Byte>)
    requires WellFormed(a)
    ensures WellFormed(a + b) <==> WellFormed(b)
    decreases |a|
  {
    hide IsChar;
    if a == [] {
      assert a + b == b;
    } else {
      var n :| 1 <= n <= |a| && IsChar(a[..n]) && WellFormed(a[n..]);
      assert (a + b)[..n] == a[..n] && (a + b)[n..] == a[n..] + b;
      WellFormedRest(a + b, n);
      WellFormedJoined(a[n..], b);
    }
  }

  ghost predicate Scalars(text: seq<bv32>) {
    forall k :: 0 <= k < |text| ==> IsScalar(text[k])
  }

  /** Whatever scalar values are encoded, the result is well formed. */
  lemma {:induction false} EncodeIsWellFormed(text: seq<bv32>)
    requires Scalars(text)
    ensures WellFormed(Encode(text))
    decreases |text|
  {
    hide IsChar, Encoded, CodePointOf, IsScalar;
    if text != [] {
      var last := text[|text| - 1];
      EncodeIsWellFormed(text[..|text| - 1]);
      ScalarRoundTrip(last);
      var one := Encoded(last);
      CharShape(one);
      assert one[..|one|] == one && one[|one|..] == [];
      WellFormedRest(one, |one|);
      WellFormedJoined(Encode(text[..|text| - 1]), one);
    }
  }

  lemma {:induction false} EncodeFirst(text: seq<bv32>)
    requires text != []
    ensures Encode(text) == Encoded(text[0]) + Encode(text[1..])
    decreases |text|
  {
    hide Encoded;
    var n := |text| - 1;
    assert Encode(text) == Encode(text[..n]) + Encoded(text[n]);
    if n == 0 {
      assert Encode(text[..n]) == [] && Encode(text[1..]) == [];
    } else {
      EncodeFirst(text[..n]);
      assert text[..n][1..] == text[1..][..n - 1];
      assert Encode(text[1..]) == Encode(text[1..][..n - 1]) + Encoded(text[n]);
    }
  }

  lemma EncodeNotEmpty(text: seq<bv32>)
    requires text != []
    ensures Encode(text) != []
  {
    EncodeFirst(text);
  }

  /** Different texts have different encodings: decoding an encoding gives back the text. */
  lemma {:induction false} EncodeIsInjective(a: seq<bv32>, b: seq<bv32>)
    requires Scalars(a) && Scalars(b) && Encode(a) == Encode(b)
    ensures a == b
    decreases |a|
  {
    hide IsChar, Encoded, CodePointOf, IsScalar;
    if a != [] && b != [] {
      EncodeFirst(a);
      EncodeFirst(b);
      SameFirst(a[0], b[0], Encode(a[1..]), Encode(b[1..]));
      EncodeIsInjective(a[1..], b[1..]);
      assert a == [a[0]] + a[1..] && b == [b[0]] + b[1..];
    } else if a != [] {
      EncodeNotEmpty(a);
    } else if b != [] {
      EncodeNotEmpty(b);
    }
  }

  lemma SameFirst(a: bv32, b: bv32, restA: seq<Byte>, restB: seq<Byte>)
    requires IsScalar(a) && IsScalar(b) && Encoded(a) + restA == Encoded(b) + restB
    ensures a == b && restA == restB
  {
    hide *;
    ScalarRoundTrip(a);
    ScalarRoundTrip(b);
    var ea, eb := Encoded(a), Encoded(b);
    CharShape(ea);
    CharShape(eb);
    assert ea[0] == (ea + restA)[0] == eb[0];
    assert ea == (ea + restA)[..|ea|] == eb;
    assert restA == (ea + restA)[|ea|..] == restB;
  }

  // ----- The decoder -----

  // The character at i, with the checks for overlong forms, surrogates and too large values.
  method DecodeChar(bytes: seq<Byte>, i: nat) returns (ok: bool, length: nat, codePoint: bv32)
    requires i < |bytes|
    ensures ok ==>
              && 1 <= length <= |bytes| - i && IsChar(bytes[i..i + length])
              && codePoint == CodePointOf(bytes[i..i + length])
    ensures !ok ==> !WellFormed(bytes[i..])
  {
    var lead := bytes[i];
    LeadBits(lead);
    length, codePoint := 0, 0;
    if lead < 0x80 {
      length, codePoint := 1, lead as bv32;
    } else if (lead & 0xE0) == 0xC0 && lead >= 0xC2 {
      length, codePoint := 2, Start(lead, 0x1F);
    } else if (lead & 0xF0) == 0xE0 {
      length, codePoint := 3, Start(lead, 0x0F);
    } else if (lead & 0xF8) == 0xF0 && lead <= 0xF4 {
      length, codePoint := 4, Start(lead, 0x07);
    } else {
      NoChar(bytes[i..]);
      return false, 0, 0;
    }
    assert length == LengthOf(lead);
    if i + length > |bytes| {
      NoChar(bytes[i..]);
      return false, 0, 0;
    }
    ok, codePoint := DecodeTails(bytes[i..i + length], codePoint);
    assert bytes[i..][..length] == bytes[i..i + length];
    if !ok {
      NoChar(bytes[i..]);
    }
  }

  // The bytes after the first, six bits each.
  method DecodeTails(s: seq<Byte>, start: bv32) returns (ok: bool, codePoint: bv32)
    requires s != [] && |s| == LengthOf(s[0])
    requires start == if |s| == 1 then s[0] as bv32
             else Start(s[0], if |s| == 2 then 0x1F else if |s| == 3 then 0x0F else 0x07)
    ensures ok <==> IsChar(s)
    ensures ok ==> codePoint == CodePointOf(s)
  {
    hide Start, Shift;
    codePoint := start;
    var k := 1;
    while k < |s|
      invariant 1 <= k <= |s|
      invariant forall j :: 1 <= j < k ==> IsTail(s[j])
      invariant k == 1 ==> codePoint == start
      invariant k == 2 ==> codePoint == Shift(start, s[1])
      invariant k == 3 ==> codePoint == Shift(Shift(start, s[1]), s[2])
      invariant k == 4 ==> codePoint == Shift(Shift(Shift(start, s[1]), s[2]), s[3])
    {
      TailBits(s[k]);
      if (s[k] & 0xC0) != 0x80 {
        NotTail(s, k);
        return false, 0;
      }
      codePoint := Shift(codePoint, s[k]);
      k := k + 1;
    }
    Checked(s, codePoint);
    if (|s| == 3 && codePoint < 0x800) || (|s| == 4 && (codePoint < 0x10000 || codePoint > 0x10FFFF))
       || 0xD800 <= codePoint <= 0xDFFF {
      return false, 0;
    }
    return true, codePoint;
  }

  lemma NotTail(s: seq<Byte>, k: nat)
    requires 1 <= k < |s| && !IsTail(s[k])
    ensures !IsChar(s)
  {
    if IsChar(s) {
      CharShape(s);
    }
  }

  // The checks on the value shut out just what is no character.
  lemma Checked(s: seq<Byte>, c: bv32)
    requires s != [] && |s| == LengthOf(s[0]) && forall j :: 1 <= j < |s| ==> IsTail(s[j])
    requires |s| == 1 ==> c == s[0] as bv32
    requires |s| == 2 ==> c == Shift(Start(s[0], 0x1F), s[1])
    requires |s| == 3 ==> c == Shift(Shift(Start(s[0], 0x0F), s[1]), s[2])
    requires |s| == 4 ==> c == Shift(Shift(Shift(Start(s[0], 0x07), s[1]), s[2]), s[3])
    ensures IsChar(s) <==>
            !((|s| == 3 && c < 0x800) || (|s| == 4 && (c < 0x10000 || c > 0x10FFFF)) || 0xD800 <= c <= 0xDFFF)
  {
    hide Start, Shift, Low, Tail, Packed3, Packed4;
    if |s| == 1 {
      Bits1(s[0]);
    } else if |s| == 2 {
      Bits2(s[0], s[1]);
    } else if |s| == 3 {
      Bits3(s[0], s[1], s[2]);
    } else {
      Bits4(s[0], s[1], s[2], s[3]);
    }
  }

  /** The decoder accepts just the well-formed strings, and encoding what it gives gives the
      string back. */
  method DecodeUtf8(bytes: seq<Byte>) returns (ok: bool, codePoints: seq<bv32>)
    ensures ok <==> WellFormed(bytes)
    ensures ok ==> Scalars(codePoints) && Encode(codePoints) == bytes
  {
    hide IsChar, Encoded, CodePointOf, IsScalar;
    codePoints := [];
    var i := 0;
    while i < |bytes|
      invariant i <= |bytes| && Scalars(codePoints) && Encode(codePoints) == bytes[..i]
      invariant WellFormed(bytes) <==> WellFormed(bytes[i..])
      decreases |bytes| - i
    {
      var length, codePoint;
      ok, length, codePoint := DecodeChar(bytes, i);
      if !ok {
        return false, [];
      }
      var whole := bytes[i..i + length];
      CharRoundTrip(whole);
      assert bytes[i..][..length] == whole && bytes[i..][length..] == bytes[i + length..];
      WellFormedRest(bytes[i..], length);
      assert (codePoints + [codePoint])[..|codePoints|] == codePoints;
      codePoints := codePoints + [codePoint];
      assert bytes[..i + length] == bytes[..i] + whole;
      i := i + length;
    }
    assert bytes[..i] == bytes && bytes[i..] == [];
    return true, codePoints;
  }

  /** Decoding what was encoded gives back the scalar values. */
  method DecodeEncoded(text: seq<bv32>) returns (ok: bool, codePoints: seq<bv32>)
    requires Scalars(text)
    ensures ok && codePoints == text
  {
    ok, codePoints := DecodeUtf8(Encode(text));
    EncodeIsWellFormed(text);
    EncodeIsInjective(text, codePoints);
  }

  // ----- A name cut to fit -----

  const SSID_SIZE := 32

  /** A well-formed string may be cut just where no character goes on. */
  lemma {:induction false} Boundary(s: seq<Byte>, p: nat)
    requires WellFormed(s) && p <= |s|
    ensures WellFormed(s[..p]) <==> p == |s| || !IsTail(s[p])
    decreases |s|
  {
    hide IsChar;
    if s != [] {
      var n :| 1 <= n <= |s| && IsChar(s[..n]) && WellFormed(s[n..]);
      CharShape(s[..n]);
      if p == 0 {
      } else if p < n {
        assert s[..n][p] == s[p] && s[..p][0] == s[..n][0];
        NoChar(s[..p]);
      } else {
        Boundary(s[n..], p - n);
        assert s[..p][..n] == s[..n] && s[..p][n..] == s[n..][..p - n];
        WellFormedRest(s[..p], n);
      }
    }
  }

  /** The name itself if it fits, else its first bytes; of a well-formed name, all the whole
      characters that fit. */
  method SsidBytes(name: seq<Byte>) returns (ssid: seq<Byte>)
    ensures ssid <= name && |ssid| <= SSID_SIZE
    ensures |name| <= SSID_SIZE ==> ssid == name
    ensures WellFormed(name) ==> WellFormed(ssid) && forall p :: |ssid| < p <= SSID_SIZE && p <= |name| ==>
            !WellFormed(name[..p])
  {
    if |name| <= SSID_SIZE {
      return name;
    }
    var size := SSID_SIZE;
    TailBits(name[size]);
    while size > 0 && (name[size] & 0xC0) == 0x80
      invariant size <= SSID_SIZE && ((name[size] & 0xC0) == 0x80 <==> IsTail(name[size]))
      invariant forall p :: size < p <= SSID_SIZE ==> IsTail(name[p])
    {
      size := size - 1;
      TailBits(name[size]);
    }
    if WellFormed(name) {
      if size == 0 {
        NoLeadingTail(name);
      }
      forall p | size <= p <= SSID_SIZE
        ensures WellFormed(name[..p]) <==> !IsTail(name[p])
      {
        Boundary(name, p);
      }
    }
    return name[..size];
  }

  lemma NoLeadingTail(s: seq<Byte>)
    requires WellFormed(s) && s != []
    ensures !IsTail(s[0])
  {
    hide IsChar;
    var n :| 1 <= n <= |s| && IsChar(s[..n]) && WellFormed(s[n..]);
    CharShape(s[..n]);
  }

  // ----- A name shortened character by character -----

  // The text without its last character; the bytes that only go on are no character.
  method ChopCharacter(text: seq<Byte>) returns (chopped: seq<Byte>)
    requires text != []
    ensures chopped <= text && |chopped| < |text|
    ensures WellFormed(text) ==> WellFormed(chopped) && forall p :: |chopped| < p < |text| ==> !WellFormed(text[..p])
  {
    chopped := text;
    TailBits(chopped[|chopped| - 1]);
    while chopped != [] && (chopped[|chopped| - 1] & 0xC0) == 0x80
      invariant chopped <= text
      invariant chopped != [] ==> ((chopped[|chopped| - 1] & 0xC0) == 0x80 <==> IsTail(chopped[|chopped| - 1]))
      invariant forall p :: |chopped| <= p < |text| ==> IsTail(text[p])
      decreases |chopped|
    {
      chopped := chopped[..|chopped| - 1];
      if chopped != [] {
        TailBits(chopped[|chopped| - 1]);
      }
    }
    if WellFormed(text) {
      NoLeadingTail(text);
    }
    ghost var end := |chopped|;
    if chopped != [] {
      assert text[end - 1] == chopped[end - 1];
      chopped := chopped[..|chopped| - 1];
    }
    assert chopped == text[..|chopped|];
    if WellFormed(text) {
      forall p | |chopped| <= p < |text|
        ensures WellFormed(text[..p]) <==> !IsTail(text[p])
      {
        Boundary(text, p);
      }
    }
  }

  const NAME_SIZE := 180

  /** A well-formed name is cut to all the whole characters that fit. */
  method Shortened(name: seq<Byte>) returns (base: seq<Byte>)
    ensures base <= name && |base| <= NAME_SIZE && (|name| <= NAME_SIZE ==> base == name)
    ensures WellFormed(name) ==> WellFormed(base) && forall p :: |base| < p <= NAME_SIZE && p <= |name| ==>
            !WellFormed(name[..p])
  {
    base := name;
    while |base| > NAME_SIZE
      invariant base <= name && (|name| <= NAME_SIZE ==> base == name)
      invariant WellFormed(name) ==> WellFormed(base) && forall p :: |base| < p <= NAME_SIZE && p <= |name| ==>
                !WellFormed(name[..p])
      decreases |base|
    {
      ghost var before := base;
      base := ChopCharacter(base);
      forall p | |base| < p < |before| && WellFormed(name)
        ensures !WellFormed(name[..p])
      {
        assert before[..p] == name[..p];
      }
    }
  }
}
