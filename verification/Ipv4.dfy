/** IPv4 addresses in text, as numbers of 32 bits. */
module Ipv4 {
  import opened Decimals
  import opened Options

  const LIMIT := 0x1_0000_0000

  function Octet(address: nat, k: nat): (o: nat)
    requires k < 4
    ensures o < 256
  {
    (address / (match k case 0 => 0x1000000 case 1 => 0x10000 case 2 => 0x100 case _ => 1)) % 256
  }

  function FormatIpv4(address: nat): string {
    Decimal(Octet(address, 0)) + "." + Decimal(Octet(address, 1)) + "."
    + Decimal(Octet(address, 2)) + "." + Decimal(Octet(address, 3))
  }

  // How many digits a text starts with, at most so many.
  function Digits(text: string, most: nat): (n: nat)
    ensures n <= |text| && n <= most
    ensures forall k :: 0 <= k < n ==> IsDigit(text[k])
    ensures n == |text| || n == most || !IsDigit(text[n])
    decreases most
  {
    if most == 0 || text == "" || !IsDigit(text[0]) then 0 else 1 + Digits(text[1..], most - 1)
  }

  datatype Taken = Bad | Taken(octet: nat, rest: string)

  // The number up to 255 that a text starts with.
  function TakeOctet(text: string): Taken {
    var n := Digits(text, 3);
    if n == 0 || Number(text[..n]) > 255 then Bad else Taken(Number(text[..n]), text[n..])
  }

  // The next of four parts, after its dot.
  function TakePart(text: string, part: nat): Taken {
    if part == 0 then TakeOctet(text)
    else if text == "" || text[0] != '.' then Bad
    else TakeOctet(text[1..])
  }

  // What is left of an address from one of its parts on, with the parts before it read.
  function ParseRest(text: string, part: nat, address: nat): Option<nat>
    requires part <= 4
    decreases 4 - part
  {
    if part == 4 then (if text == "" then Some(address) else None)
    else
      match TakePart(text, part)
      case Bad => None
      case Taken(octet, rest) => ParseRest(rest, part + 1, address * 256 + octet)
  }

  function ParseIpv4(text: string): Option<nat> {
    ParseRest(text, 0, 0)
  }

  lemma DigitsOf(digits: string, after: string)
    requires |digits| <= 3 && AllDigits(digits) && (after != "" ==> after[0] == '.')
    ensures Digits(digits + after, 3) == |digits|
  {
    var text, n := digits + after, Digits(digits + after, 3);
    assert |digits| <= n <= |digits|;
  }

  lemma OctetTaken(octet: nat, after: string)
    requires octet < 256 && (after != "" ==> after[0] == '.')
    ensures TakeOctet(Decimal(octet) + after) == Taken(octet, after)
  {
    var digits := Decimal(octet);
    OctetLength(octet);
    NumberOfDecimal(octet);
    DigitsOf(digits, after);
    hide Digits, Decimal;
    assert (digits + after)[..|digits|] == digits && (digits + after)[|digits|..] == after;
  }

  lemma PartTaken(octet: nat, after: string, part: nat)
    requires part > 0 && octet < 256 && (after != "" ==> after[0] == '.')
    ensures TakePart("." + (Decimal(octet) + after), part) == Taken(octet, after)
  {
    OctetTaken(octet, after);
    hide TakeOctet, Decimal;
    assert ("." + (Decimal(octet) + after))[1..] == Decimal(octet) + after;
  }

  /** A printed address reads back as itself. */
  lemma FormatParses(address: nat)
    requires address < LIMIT
    ensures ParseIpv4(FormatIpv4(address)) == Some(address)
  {
    hide Octet, ParseRest;
    var a, b, c, d := Octet(address, 0), Octet(address, 1), Octet(address, 2), Octet(address, 3);
    FormatReads(a, b, c, d);
    Grouped(Decimal(a), Decimal(b), Decimal(c), Decimal(d));
    OctetsJoin(address);
  }

  /** The four parts of an address are its bytes, the highest first. */
  lemma PartsRead(a: nat, b: nat, c: nat, d: nat, fromB: string, fromC: string)
    requires a < 256 && b < 256 && c < 256 && d < 256
    requires fromB == Decimal(b) + "." + fromC && fromC == Decimal(c) + "." + Decimal(d)
    ensures ParseIpv4(Decimal(a) + "." + fromB) == Some(a * 0x1000000 + b * 0x10000 + c * 0x100 + d)
  {
    hide *;
    DotAfter(a, fromB, 0);
    DotAfter(b, fromC, 1);
    DotAfter(c, Decimal(d), 2);
    LastPart(d);
    FourParts(Decimal(a) + "." + fromB, "." + fromB, "." + fromC, "." + Decimal(d), a, b, c, d);
  }

  lemma LastPart(octet: nat)
    requires octet < 256
    ensures TakePart("." + Decimal(octet), 3) == Taken(octet, "")
  {
    OctetTaken(octet, "");
    hide TakeOctet, Decimal;
    assert Decimal(octet) + "" == Decimal(octet) && ("." + Decimal(octet))[1..] == Decimal(octet);
  }

  lemma DotAfter(octet: nat, rest: string, part: nat)
    requires octet < 256
    ensures var text := Decimal(octet) + "." + rest;
            TakePart(if part == 0 then text else "." + text, part) == Taken(octet, "." + rest)
  {
    OctetTaken(octet, "." + rest);
    var text := Decimal(octet) + "." + rest;
    assert Decimal(octet) + ("." + rest) == text;
    assert ("." + text)[1..] == text;
    hide TakeOctet, Decimal;
  }

  lemma Grouped(a: string, b: string, c: string, d: string)
    ensures a + "." + b + "." + c + "." + d == "" + (a + ("." + (b + ("." + (c + ("." + (d + "")))))))
  {
  }

  lemma FormatReads(a: nat, b: nat, c: nat, d: nat)
    requires a < 256 && b < 256 && c < 256 && d < 256
    ensures ParseIpv4("" + (Decimal(a) + ("." + (Decimal(b) + ("." + (Decimal(c) + ("." + (Decimal(d) + "")))))))) ==
            Some(((a * 256 + b) * 256 + c) * 256 + d)
  {
    var fromD := "." + (Decimal(d) + "");
    var fromC := "." + (Decimal(c) + fromD);
    var fromB := "." + (Decimal(b) + fromC);
    OctetTaken(a, fromB);
    PartTaken(b, fromC, 1);
    PartTaken(c, fromD, 2);
    PartTaken(d, "", 3);
    NoPrefix(Decimal(a) + fromB);
    hide *;
    FourParts("" + (Decimal(a) + fromB), fromB, fromC, fromD, a, b, c, d);
  }

  lemma NoPrefix(text: string)
    ensures "" + text == text && TakePart("" + text, 0) == TakeOctet(text)
  {
    assert "" + text == text;
  }

  lemma FourParts(text: string, fromB: string, fromC: string, fromD: string, a: nat, b: nat, c: nat, d: nat)
    requires TakePart(text, 0) == Taken(a, fromB) && TakePart(fromB, 1) == Taken(b, fromC)
    requires TakePart(fromC, 2) == Taken(c, fromD) && TakePart(fromD, 3) == Taken(d, "")
    ensures ParseIpv4(text) == Some(((a * 256 + b) * 256 + c) * 256 + d)
  {
    hide TakePart;
    assert ParseRest(fromD, 3, (a * 256 + b) * 256 + c) == Some(((a * 256 + b) * 256 + c) * 256 + d);
    assert ParseRest(fromC, 2, a * 256 + b) == ParseRest(fromD, 3, (a * 256 + b) * 256 + c);
    assert ParseRest(fromB, 1, a) == ParseRest(fromC, 2, a * 256 + b);
  }

  lemma OctetsJoin(address: nat)
    requires address < LIMIT
    ensures ((Octet(address, 0) * 256 + Octet(address, 1)) * 256 + Octet(address, 2)) * 256
            + Octet(address, 3) == address
  {
    var three, two, one := address / 0x100, address / 0x10000, address / 0x1000000;
    assert address == three * 256 + address % 256;
    assert three == two * 256 + three % 256;
    assert two == one * 256 + two % 256;
    assert one < 256;
  }

  // What the parts before this one may add up to.
  function Cap(part: nat): nat {
    match part case 0 => 1 case 1 => 0x100 case 2 => 0x10000 case 3 => 0x1000000 case _ => LIMIT
  }

  lemma CapStep(part: nat, address: nat, octet: nat)
    requires part < 4 && address < Cap(part) && octet < 256
    ensures address * 256 + octet < Cap(part + 1)
  {
  }

  lemma {:induction false} ParsedInRange(text: string, part: nat, address: nat)
    requires part <= 4 && address < Cap(part)
    ensures ParseRest(text, part, address).Some? ==> ParseRest(text, part, address).value < LIMIT
    decreases 4 - part
  {
    var taken := TakePart(text, part);
    OctetIsSmall(text, part);
    hide TakePart;
    if part < 4 && taken.Taken? {
      CapStep(part, address, taken.octet);
      hide Cap;
      ParsedInRange(taken.rest, part + 1, address * 256 + taken.octet);
    }
  }

  lemma OctetIsSmall(text: string, part: nat)
    ensures TakePart(text, part).Taken? ==> TakePart(text, part).octet < 256
  {
  }

  // ----- The characters -----

  predicate IsPlain(text: string) {
    forall k :: 0 <= k < |text| ==> IsDigit(text[k]) || text[k] == '.'
  }

  lemma FormatIsPlain(address: nat)
    ensures IsPlain(FormatIpv4(address)) && FormatIpv4(address) != ""
  {
    hide Decimal, Octet;
  }

  lemma {:induction false} RestIsPlain(text: string, part: nat, address: nat)
    requires part <= 4 && ParseRest(text, part, address).Some?
    ensures IsPlain(text)
    decreases 4 - part
  {
    hide ParseRest, TakePart;
    if part < 4 {
      hide IsPlain;
      PartRead(text, part, address);
      var taken := TakePart(text, part);
      RestIsPlain(taken.rest, part + 1, address * 256 + taken.octet);
      PartIsPlain(text, part);
    } else {
      AllRead(text, address);
    }
  }

  lemma PlainJoined(a: string, b: string)
    requires IsPlain(a) && IsPlain(b)
    ensures IsPlain(a + b)
  {
  }

  lemma OctetIsPlain(text: string)
    requires TakeOctet(text).Taken? && IsPlain(TakeOctet(text).rest)
    ensures IsPlain(text)
  {
    hide Number, IsDigit;
    var n := Digits(text, 3);
    assert text == text[..n] + text[n..];
    PlainJoined(text[..n], text[n..]);
  }

  lemma PartIsPlain(text: string, part: nat)
    requires TakePart(text, part).Taken? && IsPlain(TakePart(text, part).rest)
    ensures IsPlain(text)
  {
    hide TakeOctet, IsDigit;
    if part == 0 {
      OctetIsPlain(text);
    } else {
      OctetIsPlain(text[1..]);
      assert text == [text[0]] + text[1..];
      PlainJoined([text[0]], text[1..]);
    }
  }

  /** What reads as an address has nothing but digits and dots. */
  lemma ParsedIsPlain(text: string)
    requires ParseIpv4(text).Some?
    ensures IsPlain(text)
  {
    RestIsPlain(text, 0, 0);
  }

  // ----- The loops -----

  lemma DigitAdded(text: string, from: nat, position: nat, most: nat)
    requires from <= position < |text| && IsDigit(text[position]) && most > 0
    requires forall k :: from <= k < position ==> IsDigit(text[k])
    ensures Number(text[from..position + 1]) == 10 * Number(text[from..position]) + DigitValue(text[position])
    ensures Digits(text[position..], most) == 1 + Digits(text[position + 1..], most - 1)
  {
    assert text[from..position + 1][..position - from] == text[from..position];
    assert text[position..][1..] == text[position + 1..];
  }

  lemma NoMoreDigits()
    ensures forall text, most: nat :: most == 0 || text == "" || !IsDigit(text[0]) ==> Digits(text, most) == 0
  {
  }

  // The digits of one part, taken one at a time.
  method ReadOctet(text: string, from: nat) returns (position: nat, octet: nat)
    requires from <= |text|
    ensures position == from + Digits(text[from..], 3) && octet == Number(text[from..position])
  {
    NoMoreDigits();
    assert Number(text[from..from]) == 0;
    hide Digits, Number;
    position, octet := from, 0;
    var digits := 0;
    while position < |text| && IsDigit(text[position]) && digits < 3
      invariant from <= position <= |text| && digits == position - from <= 3
      invariant Digits(text[from..], 3) == digits + Digits(text[position..], 3 - digits)
      invariant forall k :: from <= k < position ==> IsDigit(text[k])
      invariant octet == Number(text[from..position])
      decreases 3 - digits
    {
      DigitAdded(text, from, position, 3 - digits);
      octet := octet * 10 + DigitValue(text[position]);
      position := position + 1;
      digits := digits + 1;
    }
  }

  lemma OctetAt(text: string, start: nat)
    requires start <= |text|
    ensures var end := start + Digits(text[start..], 3);
            TakeOctet(text[start..]) ==
            if end == start || Number(text[start..end]) > 255 then Bad else Taken(Number(text[start..end]), text[end..])
  {
    var rest, n := text[start..], Digits(text[start..], 3);
    assert rest[..n] == text[start..start + n] && rest[n..] == text[start + n..];
  }

  lemma PartAt(text: string, part: nat, at: nat)
    requires part > 0 && at <= |text|
    ensures TakePart(text[at..], part) == if at == |text| || text[at] != '.' then Bad else TakeOctet(text[at + 1..])
  {
    if at < |text| {
      assert text[at..][1..] == text[at + 1..];
    }
  }

  // One part and its dot, from a place in the text.
  method ReadPart(text: string, part: nat, from: nat) returns (ok: bool, position: nat, octet: nat)
    requires from <= |text|
    ensures TakePart(text[from..], part) == if ok && position <= |text| then Taken(octet, text[position..]) else Bad
    ensures position <= |text|
  {
    hide Digits, TakeOctet;
    var start := from;
    if part > 0 {
      PartAt(text, part, from);
      if from >= |text| || text[from] != '.' {
        return false, from, 0;
      }
      start := from + 1;
    }
    OctetAt(text, start);
    position, octet := ReadOctet(text, start);
    ok := position > start && octet <= 255;
  }

  /** The reader takes four numbers up to 255 with dots between them, and nothing else. */
  method Parse(text: string) returns (address: Option<nat>)
    ensures address == ParseIpv4(text)
  {
    WholeText(text);
    hide *;
    ghost var whole := ParseIpv4(text);
    var result: nat, position: nat, part: nat := 0, 0, 0;
    while part < 4
      invariant part <= 4 && position <= |text|
      invariant whole == ParseRest(text[position..], part, result)
    {
      var ok, octet;
      PartRead(text[position..], part, result);
      ok, position, octet := ReadPart(text, part, position);
      if !ok {
        return None;
      }
      result := result * 256 + octet;
      part := part + 1;
    }
    AllRead(text[position..], result);
    if position != |text| {
      return None;
    }
    return Some(result);
  }

  lemma WholeText(text: string)
    ensures ParseIpv4(text) == ParseRest(text[0..], 0, 0)
  {
    assert text[0..] == text;
  }

  lemma PartRead(rest: string, part: nat, address: nat)
    requires part < 4
    ensures ParseRest(rest, part, address) ==
            match TakePart(rest, part)
            case Bad => None
            case Taken(octet, after) => ParseRest(after, part + 1, address * 256 + octet)
  {
  }

  lemma AllRead(rest: string, address: nat)
    ensures ParseRest(rest, 4, address) == if rest == "" then Some(address) else None
  {
  }

  // ----- Netmasks -----

  function Pow2(n: nat): (p: nat)
    ensures p > 0
  {
    if n == 0 then 1 else 2 * Pow2(n - 1)
  }

  // The bitwise and, and the number of ones.
  function And(a: nat, b: nat): nat {
    if a == 0 || b == 0 then 0 else 2 * And(a / 2, b / 2) + (if a % 2 == 1 && b % 2 == 1 then 1 else 0)
  }

  function PopCount(a: nat): nat {
    if a == 0 then 0 else PopCount(a / 2) + a % 2
  }

  lemma {:induction false} AndItself(a: nat)
    ensures And(a, a) == a
  {
    if a > 0 {
      AndItself(a / 2);
    }
  }

  lemma AndEven(k: nat)
    ensures And(2 * k, 2 * k + 1) == 2 * k
  {
    AndItself(k);
    assert (2 * k) / 2 == k && (2 * k + 1) / 2 == k;
  }

  lemma AndOdd(k: nat)
    ensures And(2 * k + 1, 2 * k + 2) == 2 * And(k, k + 1)
  {
    assert (2 * k + 1) / 2 == k && (2 * k + 2) / 2 == k + 1;
  }

  lemma PowerHalved(k: nat)
    ensures (exists n: nat :: 2 * k + 2 == Pow2(n)) <==> exists n: nat :: k + 1 == Pow2(n)
  {
    if n: nat :| k + 1 == Pow2(n) {
      assert 2 * k + 2 == Pow2(n + 1);
    }
    if n: nat :| 2 * k + 2 == Pow2(n) {
      assert n > 0;
      var m: nat := n - 1;
      assert k + 1 == Pow2(m);
    }
  }

  lemma EvenPower(n: nat)
    ensures n > 0 ==> Pow2(n) % 2 == 0
  {
  }

  // No bit is in both a number and the next one just when the next one is a power of two.
  lemma {:induction false} OnesThenZeros(host: nat)
    ensures And(host, host + 1) == 0 <==> exists n: nat :: host + 1 == Pow2(n)
  {
    var k := host / 2;
    if host == 0 {
      assert host + 1 == Pow2(0);
    } else if host % 2 == 0 {
      assert host == 2 * k;
      AndEven(k);
      forall n: nat
        ensures host + 1 != Pow2(n)
      {
        EvenPower(n);
      }
    } else {
      assert host == 2 * k + 1;
      AndOdd(k);
      OnesThenZeros(k);
      PowerHalved(k);
    }
  }

  // The netmask of a prefix: its ones come first.
  function Mask(prefix: nat): nat
    requires 1 <= prefix <= 32
  {
    PowersGrow(32 - prefix, 32);
    Pow2(32) - Pow2(32 - prefix)
  }

  lemma {:induction false} PowersGrow(m: nat, n: nat)
    requires m <= n
    ensures Pow2(m) <= Pow2(n) && (m < n ==> Pow2(m) < Pow2(n))
  {
    if m < n {
      PowersGrow(m, n - 1);
    }
  }

  lemma {:induction false} OnesOfMask(width: nat, zeros: nat)
    requires zeros <= width
    ensures Pow2(width) >= Pow2(zeros) && PopCount(Pow2(width) - Pow2(zeros)) == width - zeros
    decreases width
  {
    PowersGrow(zeros, width);
    if width > zeros {
      if zeros > 0 {
        OnesOfMask(width - 1, zeros - 1);
        assert Pow2(width) - Pow2(zeros) == 2 * (Pow2(width - 1) - Pow2(zeros - 1));
      } else {
        OnesOfMask(width - 1, 0);
        assert (Pow2(width) - 1) / 2 == Pow2(width - 1) - 1 && (Pow2(width) - 1) % 2 == 1;
      }
    }
  }

  lemma Width32()
    ensures Pow2(32) == LIMIT
  {
    assert Pow2(8) == 256;
    assert Pow2(16) == 0x10000;
    assert Pow2(24) == 0x1000000;
  }

  // The prefix that a netmask stands for; none when its ones do not come first.
  function MaskLength(mask: nat): Option<nat>
    requires mask < LIMIT
  {
    var host := LIMIT - 1 - mask;
    if mask == 0 || And(host, host + 1) != 0 then None else Some(PopCount(mask))
  }

  function MaskPrefix(text: string): Option<nat> {
    ParsedInRange(text, 0, 0);
    match ParseIpv4(text)
    case None => None
    case Some(mask) => MaskLength(mask)
  }

  function Netmask(prefix: nat): string {
    if prefix == 0 || prefix > 32 then "" else FormatIpv4(Mask(prefix))
  }

  lemma MaskFits(prefix: nat)
    requires 1 <= prefix <= 32
    ensures Mask(prefix) < LIMIT && MaskLength(Mask(prefix)) == Some(prefix)
  {
    hide Pow2, And, PopCount;
    Width32();
    PowersGrow(32 - prefix, 32);
    OnesOfMask(32, 32 - prefix);
    OnesThenZeros(Pow2(32 - prefix) - 1);
  }

  /** Every prefix reads back from its netmask. */
  lemma NetmaskRoundTrip(prefix: nat)
    requires 1 <= prefix <= 32
    ensures MaskPrefix(Netmask(prefix)) == Some(prefix)
  {
    hide Mask, MaskLength, FormatIpv4, ParseIpv4;
    MaskFits(prefix);
    FormatParses(Mask(prefix));
  }

  /** Only what is a prefix's netmask is taken for one. */
  lemma MaskIsOfPrefix(mask: nat)
    requires mask < LIMIT && MaskLength(mask).Some?
    ensures 1 <= MaskLength(mask).value <= 32 && mask == Mask(MaskLength(mask).value)
  {
    var host := LIMIT - 1 - mask;
    OnesThenZeros(host);
    var n: nat :| host + 1 == Pow2(n);
    Width32();
    hide Pow2, And, PopCount;
    if n >= 32 {
      PowersGrow(32, n);
      assert false;
    }
    OnesOfMask(32, n);
  }
}
