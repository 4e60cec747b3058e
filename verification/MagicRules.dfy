/** Magic rules of the MIME database: a value, masked or not, looked for in a range of the data,
    and rules that hold when one of the rules under them does. */
module MagicRules {
  import opened Options

  type Byte = bv8

  // The value may start at `start` or at one of the places after it, `length` in all.
  datatype Rule = Rule(start: nat, length: int, value: seq<Byte>, mask: Option<seq<Byte>>, children: seq<Rule>)

  // As in the files: a mask is as long as its value.
  ghost predicate IsRule(rule: Rule)
    decreases rule
  {
    && (rule.mask.Some? ==> |rule.mask.value| == |rule.value|)
    && forall child :: child in rule.children ==> IsRule(child)
  }

  // ----- What a rule means -----

  predicate Alike(a: Byte, b: Byte, mask: Byte) {
    (a & mask) == (b & mask)
  }

  ghost predicate FoundAt(data: seq<Byte>, at: nat, value: seq<Byte>, mask: Option<seq<Byte>>)
    requires mask.Some? ==> |mask.value| == |value|
  {
    && at + |value| <= |data|
    && forall k :: 0 <= k < |value| ==>
         if mask.Some? then Alike(data[at + k], value[k], mask.value[k]) else data[at + k] == value[k]
  }

  ghost predicate Found(data: seq<Byte>, start: nat, length: int, value: seq<Byte>, mask: Option<seq<Byte>>)
    requires mask.Some? ==> |mask.value| == |value|
  {
    exists at: nat :: start <= at < start + length && FoundAt(data, at, value, mask)
  }

  // The rule's own value is there, and a rule under it holds if there are any.
  ghost predicate Holds(rule: Rule, data: seq<Byte>)
    requires IsRule(rule)
    decreases rule
  {
    && Found(data, rule.start, rule.length, rule.value, rule.mask)
    && (rule.children == [] || exists child :: child in rule.children && Holds(child, data))
  }

  /** Two bytes are alike under a mask just when they differ only in bits that it hides. */
  lemma MaskedBits(a: Byte, b: Byte, mask: Byte)
    ensures Alike(a, b, mask) <==> (a ^ b) & mask == 0
  {
  }

  /** A mask of ones hides nothing. */
  lemma FullMask(data: seq<Byte>, at: nat, value: seq<Byte>, mask: seq<Byte>)
    requires |mask| == |value| && forall k :: 0 <= k < |mask| ==> mask[k] == 0xFF
    ensures FoundAt(data, at, value, Some(mask)) <==> FoundAt(data, at, value, None)
  {
    forall a, b
      ensures Alike(a, b, 0xFF) <==> a == b
    {
      Ones(a, b);
    }
    hide Alike;
  }

  lemma Ones(a: Byte, b: Byte)
    ensures Alike(a, b, 0xFF) <==> a == b
  {
  }

  lemma PlaceIs(data: seq<Byte>, at: nat, value: seq<Byte>)
    requires at + |value| <= |data|
    ensures FoundAt(data, at, value, None) <==> data[at..at + |value|] == value
  {
    var place := data[at..at + |value|];
    assert forall k :: 0 <= k < |value| ==> place[k] == data[at + k];
  }

  // ----- The loops -----

  // Where the library finds the value in a stretch of the data, first of all places.
  method Search(data: seq<Byte>, from: nat, end: nat, value: seq<Byte>) returns (found: bool)
    requires from <= end <= |data|
    ensures found <==> exists at: nat :: from <= at && at + |value| <= end && FoundAt(data, at, value, None)
  {
    var at := from;
    while at + |value| <= end
      invariant from <= at
      invariant forall p: nat :: from <= p < at && p + |value| <= end ==> !FoundAt(data, p, value, None)
      decreases end - at
    {
      PlaceIs(data, at, value);
      if data[at..at + |value|] == value {
        return true;
      }
      at := at + 1;
    }
    return false;
  }

  // The value at one place, byte by byte under its mask.
  method MatchMasked(data: seq<Byte>, at: nat, value: seq<Byte>, mask: seq<Byte>) returns (matches: bool)
    requires |mask| == |value| && at + |value| <= |data|
    ensures matches <==> FoundAt(data, at, value, Some(mask))
  {
    hide Alike;
    var index := 0;
    while index < |value| && Alike(data[at + index], value[index], mask[index])
      invariant index <= |value|
      invariant forall k :: 0 <= k < index ==> Alike(data[at + k], value[k], mask[k])
    {
      index := index + 1;
    }
    return index == |value|;
  }

  /** Masked or not, exactly the places of the range are tried, and only where the whole value
      lies in the data. */
  method MatchSubstring(data: seq<Byte>, start: nat, length: int, value: seq<Byte>, mask: Option<seq<Byte>>)
    returns (matches: bool)
    requires mask.Some? ==> |mask.value| == |value|
    ensures matches <==> Found(data, start, length, value, mask)
  {
    if mask.None? {
      if length <= 0 || start + |value| > |data| {
        return false;
      }
      var last := start + length - 1 + |value|;
      var end := if last < |data| then last else |data|;
      matches := Search(data, start, end, value);
      return;
    }
    var needed := if length + |value| - 1 < |data| - start then length + |value| - 1 else |data| - start;
    var most := needed - |value| + 1;
    var i: nat := 0;
    while i < most
      invariant i == 0 || i <= most
      invariant forall p: nat :: start <= p < start + i ==> !FoundAt(data, p, value, mask)
    {
      var here := MatchMasked(data, start + i, value, mask.value);
      if here {
        return true;
      }
      i := i + 1;
    }
    return false;
  }

  /** A list of rules matches when one of them holds. */
  method MatchRule(rules: seq<Rule>, data: seq<Byte>) returns (matches: bool)
    requires forall rule :: rule in rules ==> IsRule(rule)
    ensures matches <==> exists rule :: rule in rules && Holds(rule, data)
    decreases rules
  {
    var k := 0;
    while k < |rules|
      invariant k <= |rules| && forall j :: 0 <= j < k ==> !Holds(rules[j], data)
    {
      var rule := rules[k];
      assert rule in rules;
      var found := MatchSubstring(data, rule.start, rule.length, rule.value, rule.mask);
      if found {
        var under := rule.children == [];
        if !under {
          under := MatchRule(rule.children, data);
        }
        if under {
          return true;
        }
      }
      k := k + 1;
    }
    return false;
  }
}
