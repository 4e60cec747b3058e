/** A VPN plugin's form: writing its fields into a profile's data, reading them back, and what
    the form leaves alone. */
module VpnSchema {
  import opened ConfigText
  import opened Decimals
  import opened Texts

  datatype Type = Bool | Choice | Password | Numeric | Text

  datatype Field = Field(key: string, kind: Type, required: bool, choices: seq<string>, defaultValue: string,
                         showWhen: string, trueValue: string, falseValue: string, inverted: bool,
                         alsoSet: map<string, string>, exclusiveKeys: bool, legacyTypeKey: string,
                         minimum: int, maximum: int)

  // What the form shows for a field; of a password only where it is stored.
  datatype Shown = Checked(on: bool) | Value(text: string) | Storage(flags: nat)

  type Data = map<string, string>

  const NOT_SAVED := 2
  const NOT_REQUIRED := 4

  function ValueIn(values: Data, key: string): string {
    if key in values then values[key] else ""
  }

  // Only three texts count as off: nothing, a zero, and the word false however it is written.
  predicate ToBool(value: string) {
    && value != "" && value != "0"
    && !(|value| == 5 && forall k :: 0 <= k < 5 ==> Lower(value[k]) == "false"[k])
  }

  /** Off is nothing, a zero, or the word false in any letters. */
  lemma OffTexts(value: string)
    ensures !ToBool(value) <==>
            || value in {"", "0"}
            || (|value| == 5 && value[0] in "fF" && value[1] in "aA" && value[2] in "lL"
                && value[3] in "sS" && value[4] in "eE")
  {
    forall k | 0 <= k < |value|
      ensures Lower(value[k]) == 'f' <==> value[k] in "fF"
      ensures Lower(value[k]) == 'a' <==> value[k] in "aA"
      ensures Lower(value[k]) == 'l' <==> value[k] in "lL"
      ensures Lower(value[k]) == 's' <==> value[k] in "sS"
      ensures Lower(value[k]) == 'e' <==> value[k] in "eE"
    {
    }
    if |value| == 5 {
      hide Lower;
      assert (forall k :: 0 <= k < 5 ==> Lower(value[k]) == "false"[k]) <==>
             Lower(value[0]) == 'f' && Lower(value[1]) == 'a' && Lower(value[2]) == 'l'
             && Lower(value[3]) == 's' && Lower(value[4]) == 'e';
    }
  }

  // ----- Which fields are shown -----

  // The value of the field with the key, as the form has it now.
  function Current(fields: seq<Field>, key: string, values: Data): string {
    if fields == [] then ""
    else if fields[0].key != key then Current(fields[1..], key, values)
    else if fields[0].kind.Bool? then
      if (key in values && ToBool(values[key])) != fields[0].inverted then fields[0].trueValue else fields[0].falseValue
    else if key in values then values[key]
    else fields[0].defaultValue
  }

  // "key=a|b": the other field has one of the values, which may be empty.
  predicate IsShown(field: Field, fields: seq<Field>, values: Data) {
    || field.showWhen == ""
    || var equals := First(field.showWhen, '=');
       var accepted := if equals == |field.showWhen| then "" else field.showWhen[equals + 1..];
       Current(fields, field.showWhen[..equals], values) in Split(accepted, '|')
  }

  // A stretch from one bar, or the start, to the next, or the end.
  ghost predicate IsPart(accepted: string, from: int, to: int) {
    && 0 <= from <= to <= |accepted| && '|' !in accepted[from..to]
    && (from == 0 || accepted[from - 1] == '|') && (to == |accepted| || accepted[to] == '|')
  }

  ghost predicate IsAmong(accepted: string, value: string) {
    exists from, to :: IsPart(accepted, from, to) && value == accepted[from..to]
  }

  lemma {:induction false} AmongParts(accepted: string, value: string)
    ensures value in Split(accepted, '|') <==> IsAmong(accepted, value)
    decreases |accepted|
  {
    var bar := First(accepted, '|');
    if bar < |accepted| {
      var first, rest := accepted[..bar], accepted[bar + 1..];
      AmongParts(rest, value);
      assert value in Split(accepted, '|') <==> value == first || value in Split(rest, '|');
      hide Split, First;
      FirstPart(accepted, bar);
      hide IsPart;
      if from, to :| IsPart(rest, from, to) && value == rest[from..to] {
        PartOfRest(accepted, bar, from, to);
        assert IsPart(accepted, from + bar + 1, to + bar + 1);
      }
      if from, to :| IsPart(accepted, from, to) && value == accepted[from..to] && value != first {
        LaterPart(accepted, bar, from, to);
        assert IsPart(rest, from - bar - 1, to - bar - 1);
      }
    } else {
      FirstPart(accepted, bar);
      OnlyPart(accepted);
    }
  }

  lemma FirstPart(accepted: string, bar: nat)
    requires bar <= |accepted| && '|' !in accepted[..bar] && (bar < |accepted| ==> accepted[bar] == '|')
    ensures IsPart(accepted, 0, bar) && accepted[0..bar] == accepted[..bar]
  {
  }

  lemma OnlyPart(accepted: string)
    requires '|' !in accepted
    ensures forall from, to :: IsPart(accepted, from, to) ==> accepted[from..to] == accepted
  {
  }

  // The parts after the first bar are those of what follows it.
  lemma PartOfRest(accepted: string, bar: nat, from: int, to: int)
    requires bar < |accepted| && accepted[bar] == '|' && IsPart(accepted[bar + 1..], from, to)
    ensures IsPart(accepted, from + bar + 1, to + bar + 1)
    ensures accepted[from + bar + 1..to + bar + 1] == accepted[bar + 1..][from..to]
  {
    assert accepted[from + bar + 1..to + bar + 1] == accepted[bar + 1..][from..to];
  }

  lemma LaterPart(accepted: string, bar: nat, from: int, to: int)
    requires bar < |accepted| && accepted[bar] == '|' && '|' !in accepted[..bar]
    requires IsPart(accepted, from, to) && accepted[from..to] != accepted[..bar]
    ensures from > bar && IsPart(accepted[bar + 1..], from - bar - 1, to - bar - 1)
    ensures accepted[from..to] == accepted[bar + 1..][from - bar - 1..to - bar - 1]
  {
    PartIsLater(accepted, bar, from, to);
    assert accepted[from..to] == accepted[bar + 1..][from - bar - 1..to - bar - 1];
  }

  lemma PartIsLater(accepted: string, bar: nat, from: int, to: int)
    requires bar < |accepted| && accepted[bar] == '|' && '|' !in accepted[..bar]
    requires IsPart(accepted, from, to) && accepted[from..to] != accepted[..bar]
    ensures from > bar
  {
    forall k | 0 <= k < bar
      ensures accepted[k] != '|'
    {
      assert accepted[k] in accepted[..bar];
    }
    forall k | from <= k < to
      ensures accepted[k] != '|'
    {
      assert accepted[k] in accepted[from..to];
    }
  }

  /** A field is shown always, or while the first field with the key its condition names has one of the values:
      a switch stands for what it would be stored as, and a field that the form does not have for nothing. */
  lemma ShownWhile(field: Field, fields: seq<Field>, values: Data, key: string, accepted: string, other: nat)
    requires other <= |fields| && forall k :: 0 <= k < other ==> fields[k].key != key
    requires other < |fields| ==> fields[other].key == key
    ensures field.showWhen == "" ==> IsShown(field, fields, values)
    ensures field.showWhen == key + "=" + accepted && '=' !in key ==>
              (IsShown(field, fields, values) <==> IsAmong(accepted,
                if other == |fields| then ""
                else if fields[other].kind.Bool? then
                  if (key in values && ToBool(values[key])) == fields[other].inverted then fields[other].falseValue
                  else fields[other].trueValue
                else if key in values then values[key]
                else fields[other].defaultValue))
  {
    var text := field.showWhen;
    if text == key + "=" + accepted && '=' !in key {
      assert text[..|key|] == key && text[|key| + 1..] == accepted;
      FirstIs(text, |key|, '=');
      FirstWithKey(fields, key, values, other);
      AmongParts(accepted, Current(fields, key, values));
    }
  }

  lemma {:induction false} FirstWithKey(fields: seq<Field>, key: string, values: Data, other: nat)
    requires other <= |fields| && forall k :: 0 <= k < other ==> fields[k].key != key
    ensures Current(fields, key, values) == Current(fields[other..], key, values)
  {
    if other == 0 {
      assert fields[0..] == fields;
    } else {
      assert fields[1..][other - 1..] == fields[other..];
      assert fields[0].key != key;
      forall k | 0 <= k < other - 1
        ensures fields[1..][k].key != key
      {
        assert fields[1..][k] == fields[k + 1];
      }
      FirstWithKey(fields[1..], key, values, other - 1);
    }
  }

  // ----- Reading -----

  // The last choice that is set, where each choice is a key of its own.
  function Chosen(choices: seq<string>, data: Data): string {
    if choices == [] then ""
    else
      var last := choices[|choices| - 1];
      if last != "" && ValueIn(data, last) == "yes" then last else Chosen(choices[..|choices| - 1], data)
  }

  function FlagsOf(text: string): nat {
    if text == "" then 1 else if AllDigits(text) then Number(text) else 0
  }

  function Read(field: Field, data: Data): Shown {
    var stored := ValueIn(data, field.key);
    match field.kind
    case Bool =>
      var on := if field.exclusiveKeys then false
                else if stored == "" then field.defaultValue == field.trueValue
                else stored == field.trueValue;
      Checked(on != field.inverted)
    case Choice =>
      if field.exclusiveKeys then Value(Chosen(field.choices, data))
      else Value(if stored == "" then field.defaultValue else stored)
    case Password => Storage(FlagsOf(ValueIn(data, field.key + "-flags")))
    case _ => Value(stored)
  }

  // ----- Writing -----

  function IntegerOf(text: string): int {
    var signed := text != "" && (text[0] == '-' || text[0] == '+');
    var digits := if signed then text[1..] else text;
    if !AllDigits(digits) then 0x1_0000_0000
    else if signed && text[0] == '-' then 0 - Number(digits) else Number(digits)
  }

  predicate InRange(field: Field, text: string) {
    var n := IntegerOf(text);
    -0x8000_0000 <= n <= 0x7FFF_FFFF && (field.maximum > field.minimum ==> field.minimum <= n <= field.maximum)
  }

  function LegacyType(flags: nat): string {
    if flags / NOT_REQUIRED % 2 == 1 then "unused" else if flags / NOT_SAVED % 2 == 1 then "ask" else "save"
  }

  function Put(data: Data, key: string, value: string): Data {
    if value == "" then data - {key} else data[key := value]
  }

  function WriteBool(field: Field, value: string, data: Data): Data {
    var on := ToBool(value) != field.inverted;
    var written := if field.defaultValue == "" then on
                   else (if on then field.trueValue else field.falseValue) != field.defaultValue;
    var own := if on then data[field.key := field.trueValue]
               else if field.falseValue != "" && written then data[field.key := field.falseValue]
               else data - {field.key};
    if on then own + field.alsoSet else own - field.alsoSet.Keys
  }

  function ChoiceKeys(field: Field): set<string> {
    set choice | choice in field.choices && choice != ""
  }

  function WriteChoice(field: Field, value: string, data: Data): Data {
    if field.exclusiveKeys then
      var cleared := data - ChoiceKeys(field);
      if value == "" then cleared else cleared[value := "yes"]
    else if value == field.defaultValue then data - {field.key}
    else Put(data, field.key, value)
  }

  function WritePassword(field: Field, flags: nat, data: Data): Data {
    var flagged := data[field.key + "-flags" := Decimal(flags)];
    if field.legacyTypeKey == "" then flagged else flagged[field.legacyTypeKey := LegacyType(flags)]
  }

  // What a field may change.
  function Owned(field: Field): set<string> {
    match field.kind
    case Bool => {field.key} + field.alsoSet.Keys
    case Choice => if field.exclusiveKeys then ChoiceKeys(field) else {field.key}
    case Password => {field.key + "-flags"} + if field.legacyTypeKey == "" then {} else {field.legacyTypeKey}
    case _ => {field.key}
  }

  // The input of a form: text per key, and where passwords go.
  datatype Input = Input(values: Data, storage: map<string, nat>, shared: bool) {
    function FlagsFor(key: string): nat {
      if key in storage then storage[key] else if shared then 0 else 1
    }

    function TextOf(field: Field): string {
      Trimmed(ValueIn(values, field.key))
    }
  }

  function Written(field: Field, input: Input, data: Data): Data {
    match field.kind
    case Bool => WriteBool(field, ValueIn(input.values, field.key), data)
    case Choice => WriteChoice(field, input.TextOf(field), data)
    case Password => WritePassword(field, input.FlagsFor(field.key), data)
    case _ => Put(data, field.key, input.TextOf(field))
  }

  // What the form is to show again.
  function Meant(field: Field, input: Input): Shown {
    match field.kind
    case Bool => Checked(ToBool(ValueIn(input.values, field.key)))
    case Choice =>
      Value(if input.TextOf(field) == "" && !field.exclusiveKeys then field.defaultValue else input.TextOf(field))
    case Password => Storage(input.FlagsFor(field.key))
    case _ => Value(input.TextOf(field))
  }

  // A field of a table: a true value that is not the false one, and a key apart from those it sets.
  predicate IsField(field: Field) {
    && (field.kind.Bool? ==>
          field.trueValue != "" && field.trueValue != field.falseValue && !field.exclusiveKeys
            && field.key !in field.alsoSet)
    && (field.kind.Password? ==> field.legacyTypeKey != field.key + "-flags")
  }

  // A switch that is on by default needs a value to say that it is off; a choice among keys
  // is one of those.
  predicate Fits(field: Field, input: Input) {
    match field.kind
    case Bool =>
      (ToBool(ValueIn(input.values, field.key)) != field.inverted) || field.falseValue != ""
        || field.defaultValue != field.trueValue
    case Choice => field.exclusiveKeys ==> input.TextOf(field) == "" || input.TextOf(field) in field.choices
    case _ => true
  }

  // ----- What is written -----

  /** A switch that is on sets its own value and all the others it stands for; off, it sets none of
      them, and its own value only where there is one for that and it is not what nothing means. */
  lemma SwitchWritten(field: Field, input: Input, data: Data)
    requires field.kind.Bool? && IsField(field)
    ensures var on := ToBool(ValueIn(input.values, field.key)) != field.inverted;
            var now := Written(field, input, data);
            && (on ==> field.key in now && now[field.key] == field.trueValue)
            && (on ==> forall key :: key in field.alsoSet ==> key in now && now[key] == field.alsoSet[key])
            && (!on ==> forall key :: key in field.alsoSet ==> key !in now)
            && (!on ==> (field.key in now <==> field.falseValue != "" && field.defaultValue !in {"", field.falseValue}))
            && (!on && field.key in now ==> now[field.key] == field.falseValue)
  {
    hide ToBool;
  }

  /** A choice among keys sets the one that was chosen to yes and no other; any other choice is stored
      unless it is what nothing means. Text without the blanks around it is stored unless it is empty. */
  lemma TextWritten(field: Field, input: Input, data: Data, key: string)
    requires field.kind in {Choice, Numeric, Text}
    ensures var now, text := Written(field, input, data), input.TextOf(field);
            if field.kind.Choice? && field.exclusiveKeys then
              if key == text != "" then key in now && now[key] == "yes"
              else if key in field.choices && key != "" then key !in now
              else (key in now <==> key in data) && (key in data ==> now[key] == data[key])
            else
              key == field.key ==>
                && (key in now <==> text != "" && (field.kind.Choice? ==> text != field.defaultValue))
                && (key in now ==> now[key] == text)
  {
    hide Trimmed;
  }

  /** Where the user says nothing, passwords are kept for the system if the profile is shared, and else
      by the user's agent; the older key says in a word whether they are asked for, not needed, or kept. */
  lemma PasswordWritten(field: Field, input: Input, data: Data)
    requires field.kind.Password? && IsField(field)
    ensures var now := Written(field, input, data);
            && field.key + "-flags" in now
            && (field.key !in input.storage ==> now[field.key + "-flags"] == if input.shared then "0" else "1")
            && (field.key in input.storage ==>
                  AllDigits(now[field.key + "-flags"]) && Number(now[field.key + "-flags"]) == input.storage[field.key])
            && (field.legacyTypeKey != "" ==>
                  && field.legacyTypeKey in now
                  && var flags := if field.key in input.storage then input.storage[field.key] else 0;
                     now[field.legacyTypeKey] ==
                       if flags % 8 >= 4 then "unused" else if flags % 8 >= 2 then "ask" else "save")
  {
    var flags := input.FlagsFor(field.key);
    NumberOfDecimal(flags);
    assert Decimal(0) == "0" && Decimal(1) == "1";
    FlagsMean(flags);
  }

  // The second bit of the flags says that a password is not saved, the third that none is needed.
  lemma FlagsMean(flags: nat)
    ensures Refuses(flags) <==> flags % 8 >= 2
    ensures LegacyType(flags) == if flags % 8 >= 4 then "unused" else if flags % 8 >= 2 then "ask" else "save"
  {
    var bits := flags % 8;
    assert flags / 4 % 2 == bits / 4;
    assert flags / 2 % 2 == bits / 2 % 2;
  }

  // ----- One field -----

  lemma {:induction false} ChosenIs(choices: seq<string>, data: Data, value: string)
    requires forall key :: key in choices && key != "" && key != value ==> key !in data
    requires value != "" ==> value in data && data[value] == "yes"
    ensures Chosen(choices, data) == if value in choices then value else ""
  {
    if choices != [] {
      var n := |choices| - 1;
      assert choices == choices[..n] + [choices[n]];
      ChosenIs(choices[..n], data, value);
    }
  }

  lemma ChoiceReadsBack(field: Field, value: string, data: Data)
    requires field.kind.Choice?
    ensures Read(field, WriteChoice(field, value, data)) ==
            Value(if value == "" && !field.exclusiveKeys then field.defaultValue else value)
            <==> (field.exclusiveKeys ==> value == "" || value in field.choices)
  {
    if field.exclusiveKeys {
      ChosenIs(field.choices, WriteChoice(field, value, data), value);
    }
  }

  /** A field reads back as it was written just when it fits. */
  lemma FieldReadsBack(field: Field, input: Input, data: Data)
    requires IsField(field)
    ensures Read(field, Written(field, input, data)) == Meant(field, input) <==> Fits(field, input)
  {
    match field.kind {
      case Bool =>
      case Choice => ChoiceReadsBack(field, input.TextOf(field), data);
      case Password =>
        NumberOfDecimal(input.FlagsFor(field.key));
      case _ =>
    }
  }

  // PAP and CHAP of SSTP are refused unless the profile says otherwise, and there is no value for that.
  function RefusedByDefault(key: string): Field {
    Field(key, Bool, false, [], "yes", "", "yes", "", true, map[], false, "", 0, 0)
  }

  /** Allowed by the user, either of them reads back as refused. */
  lemma AllowedIsLost(key: string, data: Data)
    requires key in {"refuse-pap", "refuse-chap"}
    ensures var field, input := RefusedByDefault(key), Input(map[key := "true"], map[], false);
            IsField(field) && !Fits(field, input) && Meant(field, input) == Checked(true)
              && Read(field, Written(field, input, data)) == Checked(false)
  {
    var field, input := RefusedByDefault(key), Input(map[key := "true"], map[], false);
    assert "true"[0] != "false"[0];
    assert ToBool(ValueIn(input.values, key));
  }

  // A field changes nothing but what it owns; a choice, where it fits.
  lemma FieldLeavesRest(field: Field, input: Input, data: Data, key: string)
    requires (field.kind.Choice? ==> Fits(field, input)) && key !in Owned(field)
    ensures var now := Written(field, input, data);
            (key in now <==> key in data) && (key in data ==> now[key] == data[key])
  {
    hide Trimmed, ToBool;
  }

  // What a field shows depends on nothing but what it owns.
  lemma {:induction false} ChosenSame(choices: seq<string>, a: Data, b: Data)
    requires forall key :: key in choices && key != "" ==> ValueIn(a, key) == ValueIn(b, key)
    ensures Chosen(choices, a) == Chosen(choices, b)
  {
    if choices != [] {
      var n := |choices| - 1;
      assert choices == choices[..n] + [choices[n]];
      ChosenSame(choices[..n], a, b);
    }
  }

  lemma ReadSame(field: Field, a: Data, b: Data)
    requires forall key :: key in Owned(field) ==> ValueIn(a, key) == ValueIn(b, key)
    ensures Read(field, a) == Read(field, b)
  {
    if field.kind.Choice? && field.exclusiveKeys {
      ChosenSame(field.choices, a, b);
    }
  }

  // ----- All fields -----

  ghost predicate Apart(fields: seq<Field>) {
    forall i, j :: 0 <= i < j < |fields| ==> Owned(fields[i]) !! Owned(fields[j]) && fields[i].key != fields[j].key
  }

  // Nothing required is missing, and a number is one, within its bounds.
  predicate Acceptable(field: Field, input: Input) {
    match field.kind
    case Text => input.TextOf(field) != "" || !field.required
    case Numeric => if input.TextOf(field) == "" then !field.required else InRange(field, input.TextOf(field))
    case _ => true
  }

  /** A number is an optional sign and digits, at most 32 bits wide with its sign, and within the field's
      bounds if it has any; nothing else is accepted but nothing itself, where nothing is required. */
  lemma NumbersAccepted(field: Field, input: Input, sign: string, digits: string)
    requires field.kind.Numeric? && input.TextOf(field) == sign + digits && sign in {"", "-", "+"} && AllDigits(digits)
    ensures var n: int := if sign == "-" then 0 - Number(digits) else Number(digits);
            Acceptable(field, input) <==>
            -2147483648 <= n <= 2147483647 && (field.minimum < field.maximum ==> field.minimum <= n <= field.maximum)
  {
    var text := sign + digits;
    assert text != "" && (sign == "" ==> text == digits && IsDigit(text[0]));
    assert sign != "" ==> text[0] == sign[0] && text[1..] == digits;
  }

  lemma OthersRefused(field: Field, input: Input)
    requires field.kind.Numeric? || field.kind.Text?
    requires input.TextOf(field) == "" || field.kind.Numeric?
    requires forall sign, digits ::
               input.TextOf(field) == sign + digits && sign in {"", "-", "+"} ==> !AllDigits(digits)
    ensures Acceptable(field, input) <==> input.TextOf(field) == "" && !field.required
  {
    var text := input.TextOf(field);
    if text != "" {
      assert text == "" + text && text == text[..1] + text[1..];
      assert text[..1] == [text[0]];
    }
  }

  predicate Refuses(flags: nat) {
    flags / NOT_REQUIRED % 2 == 1 || flags / NOT_SAVED % 2 == 1
  }

  // A password is kept only where it may be, and a new one only if it was typed.
  function WithSecret(field: Field, input: Input, typed: Data, secrets: Data): Data {
    if !field.kind.Password? then secrets
    else if Refuses(input.FlagsFor(field.key)) then secrets - {field.key}
    else if ValueIn(typed, field.key) != "" then secrets[field.key := typed[field.key]]
    else secrets
  }

  // What the data is after the first fields were written.
  function After(fields: seq<Field>, n: nat, input: Input, data: Data): Data
    requires n <= |fields|
  {
    if n == 0 then data
    else
      var before := After(fields, n - 1, input, data);
      if IsShown(fields[n - 1], fields, input.values) then Written(fields[n - 1], input, before) else before
  }

  // What the field is asked to write is its own to write.
  predicate KeepsToItself(field: Field, fields: seq<Field>, input: Input) {
    IsShown(field, fields, input.values) && field.kind.Choice? ==> Fits(field, input)
  }

  // A key that none of the fields written so far owns is as it was.
  lemma {:induction false} OthersStay(fields: seq<Field>, n: nat, m: nat, input: Input, data: Data, key: string)
    requires n <= m <= |fields| && forall k :: n <= k < m ==> KeepsToItself(fields[k], fields, input)
    requires forall k :: n <= k < m && IsShown(fields[k], fields, input.values) ==> key !in Owned(fields[k])
    ensures ValueIn(After(fields, m, input, data), key) == ValueIn(After(fields, n, input, data), key)
    ensures key in After(fields, m, input, data) <==> key in After(fields, n, input, data)
    decreases m
  {
    hide Owned, Written, IsShown, Fits, IsField;
    if m > n {
      OthersStay(fields, n, m - 1, input, data, key);
      if IsShown(fields[m - 1], fields, input.values) {
        FieldLeavesRest(fields[m - 1], input, After(fields, m - 1, input, data), key);
      }
    }
  }

  /** Written all together, each field that is shown reads back as it was meant just when it fits,
      and each one that is hidden stays as the profile had it, whatever the other fields are asked
      to write, as long as choices among keys are among their own. */
  lemma FormReadsBack(fields: seq<Field>, input: Input, data: Data, i: nat)
    requires Apart(fields) && i < |fields| && IsField(fields[i])
    requires forall k :: 0 <= k < |fields| && k != i ==> KeepsToItself(fields[k], fields, input)
    ensures var shown := Read(fields[i], After(fields, |fields|, input, data));
            if IsShown(fields[i], fields, input.values)
            then shown == Meant(fields[i], input) <==> Fits(fields[i], input)
            else shown == Read(fields[i], data)
  {
    hide Owned, Written, IsShown, Read, Meant, IsField, KeepsToItself;
    var before, now := After(fields, i, input, data), After(fields, i + 1, input, data);
    var last := After(fields, |fields|, input, data);
    forall key | key in Owned(fields[i])
      ensures ValueIn(last, key) == ValueIn(now, key) && ValueIn(before, key) == ValueIn(data, key)
    {
      OthersStay(fields, i + 1, |fields|, input, data, key);
      OthersStay(fields, 0, i, input, data, key);
    }
    ReadSame(fields[i], last, now);
    ReadSame(fields[i], before, data);
    FieldReadsBack(fields[i], input, before);
  }

  // The password is gone where it may not be kept, is the one that was typed, or stays if none was.
  ghost predicate IsKept(key: string, input: Input, typed: Data, secrets: Data, now: Data) {
    if input.FlagsFor(key) % 8 >= 2 then key !in now
    else if ValueIn(typed, key) != "" then key in now && now[key] == typed[key]
    else SameAt(secrets, now, key)
  }

  // All passwords of the first fields that are shown are kept, and every other secret stays.
  ghost predicate SecretsKept(fields: seq<Field>, n: nat, input: Input, typed: Data, secrets: Data, now: Data)
    requires n <= |fields|
  {
    && (forall k :: 0 <= k < n && fields[k].kind.Password? && IsShown(fields[k], fields, input.values) ==>
          IsKept(fields[k].key, input, typed, secrets, now))
    && (forall key :: NotShown(fields, n, input, key) ==> SameAt(secrets, now, key))
  }

  // None of the first fields is a password with the key that is shown.
  ghost predicate NotShown(fields: seq<Field>, n: nat, input: Input, key: string)
    requires n <= |fields|
  {
    forall k :: 0 <= k < n && fields[k].kind.Password? && IsShown(fields[k], fields, input.values) ==>
      fields[k].key != key
  }

  ghost predicate SameAt(before: Data, now: Data, key: string) {
    (key in before <==> key in now) && (key in now ==> before[key] == now[key])
  }

  lemma SecretKept(field: Field, input: Input, typed: Data, secrets: Data, now: Data)
    requires field.kind.Password? && SameAt(secrets, now, field.key)
    ensures IsKept(field.key, input, typed, secrets, WithSecret(field, input, typed, now))
  {
    FlagsMean(input.FlagsFor(field.key));
  }

  lemma KeptStill(key: string, input: Input, typed: Data, secrets: Data, now: Data, next: Data)
    requires IsKept(key, input, typed, secrets, now) && SameAt(now, next, key)
    ensures IsKept(key, input, typed, secrets, next)
  {
  }

  lemma NextSecret(fields: seq<Field>, i: nat, input: Input, typed: Data, secrets: Data, now: Data, next: Data)
    requires Apart(fields) && i < |fields| && SecretsKept(fields, i, input, typed, secrets, now)
    requires next == if IsShown(fields[i], fields, input.values) then WithSecret(fields[i], input, typed, now) else now
    ensures SecretsKept(fields, i + 1, input, typed, secrets, next)
  {
    hide IsShown, Owned;
    var field := fields[i];
    forall k | 0 <= k < i
      ensures fields[k].key != field.key
    {
      assert Owned(fields[k]) !! Owned(fields[i]) && fields[k].key != fields[i].key;
    }
    assert NotShown(fields, i, input, field.key);
    if field.kind.Password? {
      SecretKept(field, input, typed, secrets, now);
    }
    assert forall key :: key != field.key ==> SameAt(now, next, key);
    assert !field.kind.Password? ==> next == now;
    hide Refuses, WithSecret, IsKept;
    forall key | NotShown(fields, i + 1, input, key)
      ensures SameAt(secrets, next, key)
    {
      assert NotShown(fields, i, input, key);
      assert key == field.key ==> next == now;
    }
    forall k | 0 <= k < i && fields[k].kind.Password? && IsShown(fields[k], fields, input.values)
      ensures IsKept(fields[k].key, input, typed, secrets, next)
    {
      KeptStill(fields[k].key, input, typed, secrets, now, next);
    }
  }

  lemma NothingKept(fields: seq<Field>, input: Input, typed: Data, secrets: Data)
    ensures SecretsKept(fields, 0, input, typed, secrets, secrets)
  {
  }

  /** Writes the fields one after the other, and stops at the first that cannot be taken. */
  method Apply(fields: seq<Field>, input: Input, typed: Data, data: Data, secrets: Data)
    returns (ok: bool, newData: Data, newSecrets: Data)
    requires Apart(fields)
    ensures ok <==> fields != [] && forall k :: 0 <= k < |fields| && IsShown(fields[k], fields, input.values) ==>
            Acceptable(fields[k], input)
    ensures ok ==> newData == After(fields, |fields|, input, data)
    ensures ok ==> SecretsKept(fields, |fields|, input, typed, secrets, newSecrets)
  {
    hide Owned, Written, IsShown, Acceptable, WithSecret, SecretsKept;
    newData, newSecrets := data, secrets;
    if fields == [] {
      return false, newData, newSecrets;
    }
    assert SecretsKept(fields, 0, input, typed, secrets, newSecrets) by { NothingKept(fields, input, typed, secrets); }
    var i := 0;
    while i < |fields|
      invariant i <= |fields| && newData == After(fields, i, input, data)
      invariant forall k :: 0 <= k < i && IsShown(fields[k], fields, input.values) ==> Acceptable(fields[k], input)
      invariant SecretsKept(fields, i, input, typed, secrets, newSecrets)
    {
      var field := fields[i];
      ghost var before := newSecrets;
      if IsShown(field, fields, input.values) {
        if !Acceptable(field, input) {
          return false, newData, newSecrets;
        }
        newData := Written(field, input, newData);
        newSecrets := WithSecret(field, input, typed, newSecrets);
      }
      NextSecret(fields, i, input, typed, secrets, before, newSecrets);
      i := i + 1;
    }
    return true, newData, newSecrets;
  }
}
