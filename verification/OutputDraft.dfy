/** A draft of the display settings: its rows, the setters that change them and the layout
    that a changed draft asks for. */
module OutputDraft {
  import opened DisplayLayout

  datatype Logical = Logical(destinations: seq<string>, x: int, y: int, scale120: nat, rotation: nat, primary: bool)

  datatype State = State(physical: seq<Physical>, logical: seq<Logical>, placements: seq<Placement>)

  // ----- Rows -----

  ghost predicate UniqueIds(es: seq<Entry>) {
    forall i, j :: 0 <= i < j < |es| ==> Id(es[i]) != Id(es[j])
  }

  ghost predicate NoSelfMirror(es: seq<Entry>) {
    forall k :: 0 <= k < |es| && es[k].mirrorSource != "" ==> es[k].mirrorSource != Id(es[k])
  }

  ghost predicate OnePrimaryAtMost(es: seq<Entry>) {
    forall i, j :: 0 <= i < j < |es| ==> !(es[i].primary && es[j].primary)
  }

  ghost predicate HasPrimary(es: seq<Entry>) {
    exists k :: 0 <= k < |es| && es[k].primary
  }

  ghost predicate SomeEnabled(es: seq<Entry>) {
    exists k :: 0 <= k < |es| && es[k].enabled
  }

  function EnabledCount(es: seq<Entry>): (n: nat)
    ensures n > 0 <==> SomeEnabled(es)
  {
    if es == [] then 0
    else
      var last := es[|es| - 1];
      assert forall k :: 0 <= k < |es| - 1 ==> es[k] == es[..|es| - 1][k];
      EnabledCount(es[..|es| - 1]) + if last.enabled then 1 else 0
  }

  lemma {:induction false} TwoEnabled(es: seq<Entry>, row: nat)
    requires row < |es| && es[row].enabled && EnabledCount(es) > 1
    ensures exists k :: 0 <= k < |es| && k != row && es[k].enabled
    decreases |es|
  {
    var last := |es| - 1;
    assert forall k :: 0 <= k < last ==> es[k] == es[..last][k];
    if row == last {
      assert SomeEnabled(es[..last]);
    } else if !es[last].enabled {
      TwoEnabled(es[..last], row);
    }
  }

  // The first display of the list that shows content of its own, if any.
  function FirstShowing(es: seq<Entry>, from: nat): (k: nat)
    requires from <= |es|
    ensures from <= k <= |es|
    ensures forall j :: from <= j < k ==> !(es[j].enabled && es[j].mirrorSource == "")
    ensures k < |es| ==> es[k].enabled && es[k].mirrorSource == ""
    decreases |es| - from
  {
    if from == |es| || (es[from].enabled && es[from].mirrorSource == "") then from else FirstShowing(es, from + 1)
  }

  // Displays that mirrored `source` show `replacement` instead; `source` itself would mirror nothing.
  function Remirror(e: Entry, source: string, replacement: string): Entry {
    if e.mirrorSource != source then e
    else e.(mirrorSource := if Id(e) == replacement then "" else replacement)
  }

  function RemirrorAll(es: seq<Entry>, source: string, replacement: string): seq<Entry> {
    seq(|es|, k requires 0 <= k < |es| => Remirror(es[k], source, replacement))
  }

  // The primary passes from one row to another; to none when there is no heir.
  function HandOver(es: seq<Entry>, row: nat, heir: nat): (r: seq<Entry>)
    requires row < |es| && heir <= |es|
    ensures |r| == |es|
  {
    var demoted := es[row := es[row].(primary := false)];
    if heir < |es| then demoted[heir := demoted[heir].(primary := true)] else demoted
  }

  // ----- What each edit makes of the rows -----

  function Disabled(es: seq<Entry>, row: nat): (r: seq<Entry>)
    requires row < |es|
    ensures |r| == |es|
  {
    var freed := RemirrorAll(es[row := es[row].(enabled := false)], Id(es[row]), "");
    if es[row].primary then HandOver(freed, row, FirstShowing(freed, 0)) else freed
  }

  function WithPrimary(es: seq<Entry>, row: nat): seq<Entry> {
    seq(|es|, k requires 0 <= k < |es| => es[k].(primary := k == row))
  }

  // The id the n-th choice of a row mirrors: choice 0 extends, the others list the other rows.
  function SourceChoice(es: seq<Entry>, own: string, index: int): string {
    if es == [] then ""
    else if Id(es[0]) == own then SourceChoice(es[1..], own, index)
    else if index == 1 then Id(es[0])
    else SourceChoice(es[1..], own, index - 1)
  }

  // The first enabled display of that id that shows content of its own.
  function FirstSource(es: seq<Entry>, id: string, from: nat): (k: nat)
    requires from <= |es|
    ensures from <= k <= |es|
    ensures forall j :: from <= j < k ==> !(Id(es[j]) == id && es[j].enabled && es[j].mirrorSource == "")
    ensures k < |es| ==> Id(es[k]) == id && es[k].enabled && es[k].mirrorSource == ""
    decreases |es| - from
  {
    if from == |es| || (Id(es[from]) == id && es[from].enabled && es[from].mirrorSource == "") then from
    else FirstSource(es, id, from + 1)
  }

  function Mirroring(es: seq<Entry>, row: nat, source: string): (r: seq<Entry>)
    requires row < |es|
    ensures |r| == |es|
  {
    var chosen := es[row := es[row].(mirrorSource := source)];
    if source == "" then chosen
    else
      var moved := RemirrorAll(chosen, Id(es[row]), source);
      var heir := FirstSource(moved, source, 0);
      if es[row].primary && heir < |es| then HandOver(moved, row, heir) else moved
  }

  // ----- What the edits keep -----

  // Rows that differ in neither id, order nor enabled flag.
  ghost predicate SameDisplays(es: seq<Entry>, r: seq<Entry>) {
    |r| == |es| && forall k :: 0 <= k < |es| ==> Id(r[k]) == Id(es[k]) && r[k].enabled == es[k].enabled
  }

  ghost predicate SamePrimary(es: seq<Entry>, r: seq<Entry>) {
    |r| == |es| && forall k :: 0 <= k < |es| ==> r[k].primary == es[k].primary
  }

  ghost predicate NoneMirrors(es: seq<Entry>, id: string) {
    forall k :: 0 <= k < |es| ==> es[k].mirrorSource != id
  }

  lemma SamePrimaryKeeps(es: seq<Entry>, r: seq<Entry>)
    requires SamePrimary(es, r)
    ensures OnePrimaryAtMost(es) <==> OnePrimaryAtMost(r)
    ensures HasPrimary(es) <==> HasPrimary(r)
  {
  }

  lemma RemirrorAllIsSafe(es: seq<Entry>, source: string, replacement: string)
    requires NoSelfMirror(es)
    ensures var r := RemirrorAll(es, source, replacement);
            && SameDisplays(es, r) && SamePrimary(es, r) && NoSelfMirror(r)
            && (source != "" && source != replacement ==> NoneMirrors(r, source))
  {
  }

  lemma HandOverIsSafe(es: seq<Entry>, row: nat, heir: nat)
    requires row < |es| && heir <= |es| && es[row].primary
    ensures var r := HandOver(es, row, heir);
            && SameDisplays(es, r)
            && (forall k :: 0 <= k < |es| ==> r[k].mirrorSource == es[k].mirrorSource)
            && (heir < |es| ==> r[heir].primary)
            && (OnePrimaryAtMost(es) ==>
                  OnePrimaryAtMost(r) && forall k :: 0 <= k < |es| && k != heir ==> !r[k].primary)
  {
  }

  lemma MirrorsStay(es: seq<Entry>, r: seq<Entry>, id: string)
    requires SameDisplays(es, r) && forall k :: 0 <= k < |es| ==> r[k].mirrorSource == es[k].mirrorSource
    ensures NoSelfMirror(es) ==> NoSelfMirror(r)
    ensures NoneMirrors(es, id) ==> NoneMirrors(r, id)
  {
  }

  lemma SwitchedOff(es: seq<Entry>, row: nat)
    requires row < |es| && es[row].enabled && EnabledCount(es) > 1
    ensures var off := es[row := es[row].(enabled := false)];
            SamePrimary(es, off) && SomeEnabled(off) && (NoSelfMirror(es) ==> NoSelfMirror(off))
  {
    TwoEnabled(es, row);
    var k :| 0 <= k < |es| && k != row && es[k].enabled;
    assert es[row := es[row].(enabled := false)][k].enabled;
  }

  lemma SameDisplaysEnabled(es: seq<Entry>, r: seq<Entry>)
    requires SameDisplays(es, r) && SomeEnabled(es)
    ensures SomeEnabled(r)
  {
    var k :| 0 <= k < |es| && es[k].enabled;
    assert r[k].enabled;
  }

  /** Disabling a display never leaves all displays off when two were on, and leaves
      nothing mirroring the disabled one. */
  lemma DisablingIsSafe(es: seq<Entry>, row: nat)
    requires row < |es| && es[row].enabled && EnabledCount(es) > 1 && NoSelfMirror(es)
    ensures var r := Disabled(es, row);
            && SameDisplays(es[row := es[row].(enabled := false)], r) && SomeEnabled(r)
            && (Id(es[row]) != "" ==> NoneMirrors(r, Id(es[row])))
            && (OnePrimaryAtMost(es) ==> OnePrimaryAtMost(r))
            && NoSelfMirror(r)
  {
    hide RemirrorAll, HandOver, FirstShowing, EnabledCount, OnePrimaryAtMost, SomeEnabled, NoSelfMirror, NoneMirrors,
         SamePrimary;
    var off := es[row := es[row].(enabled := false)];
    SwitchedOff(es, row);
    RemirrorAllIsSafe(off, Id(es[row]), "");
    var freed := RemirrorAll(off, Id(es[row]), "");
    SamePrimaryKeeps(es, freed);
    if es[row].primary {
      HandOverIsSafe(freed, row, FirstShowing(freed, 0));
      MirrorsStay(freed, Disabled(es, row), Id(es[row]));
    }
    SameDisplaysEnabled(off, Disabled(es, row));
  }

  /** Disabling the primary display leaves a primary exactly when another enabled display
      shows content of its own, or mirrored the disabled one. */
  lemma PrimarySurvives(es: seq<Entry>, row: nat)
    requires row < |es| && es[row].primary && OnePrimaryAtMost(es) && NoSelfMirror(es)
    ensures HasPrimary(Disabled(es, row)) <==>
            exists k :: 0 <= k < |es| && k != row && es[k].enabled
                        && (es[k].mirrorSource == "" || es[k].mirrorSource == Id(es[row]))
  {
    hide HandOver;
    var freed := RemirrorAll(es[row := es[row].(enabled := false)], Id(es[row]), "");
    var heir := FirstShowing(freed, 0);
    HandOverIsSafe(freed, row, heir);
    if heir < |es| {
      assert heir != row && es[heir].enabled;
    }
    forall k | 0 <= k < |es| && k != row && es[k].enabled
      && (es[k].mirrorSource == "" || es[k].mirrorSource == Id(es[row]))
      ensures heir < |es|
    {
      assert freed[k].enabled && freed[k].mirrorSource == "";
    }
  }

  /** Disabling a display changes no other row but those that mirrored it, which mirror nothing
      now, and the first row that then shows content of its own, which takes the primary over. */
  lemma DisablingRows(es: seq<Entry>, row: nat, k: nat)
    requires row < |es| && k < |es|
    ensures var r := Disabled(es, row);
            var shows := r[k].enabled && r[k].mirrorSource == "";
            && r[k] == es[k].(enabled := es[k].enabled && k != row, primary := r[k].primary,
                              mirrorSource := if es[k].mirrorSource == Id(es[row]) then "" else es[k].mirrorSource)
            && (es[row].primary ==>
                  (r[k].primary <==>
                   || (es[k].primary && k != row)
                   || (shows && forall j :: 0 <= j < k ==> !(r[j].enabled && r[j].mirrorSource == ""))))
            && (!es[row].primary ==> r[k].primary == es[k].primary)
  {
    var freed := RemirrorAll(es[row := es[row].(enabled := false)], Id(es[row]), "");
    var heir := FirstShowing(freed, 0);
    hide FirstShowing;
    var r := Disabled(es, row);
    assert forall j :: 0 <= j < |es| ==> r[j].enabled == freed[j].enabled && r[j].mirrorSource == freed[j].mirrorSource;
    assert forall j :: 0 <= j < heir ==> !(freed[j].enabled && freed[j].mirrorSource == "");
    if heir < k {
      assert r[heir].enabled && r[heir].mirrorSource == "";
    }
  }

  /** Where the only other enabled display mirrors a third one that is off, disabling the primary
      leaves none. */
  lemma PrimaryIsLost()
    ensures var first := Entry(Physical("a", []), true, true, 0, 0, 120, 0, 0, "");
            var mirror := Entry(Physical("b", []), true, false, 0, 0, 120, 0, 0, "c");
            var off := Entry(Physical("c", []), false, false, 0, 0, 120, 0, 0, "");
            UniqueIds([first, mirror, off]) && OnePrimaryAtMost([first, mirror, off])
              && NoSelfMirror([first, mirror, off]) && !HasPrimary(Disabled([first, mirror, off], 0))
  {
    var first := Entry(Physical("a", []), true, true, 0, 0, 120, 0, 0, "");
    var mirror := Entry(Physical("b", []), true, false, 0, 0, 120, 0, 0, "c");
    var off := Entry(Physical("c", []), false, false, 0, 0, 120, 0, 0, "");
    PrimarySurvives([first, mirror, off], 0);
  }

  /** Making a display primary takes it from every other one. */
  lemma PrimaryIsUnique(es: seq<Entry>, row: nat)
    requires row < |es|
    ensures var r := WithPrimary(es, row);
            OnePrimaryAtMost(r) && r[row].primary
            && forall k :: 0 <= k < |es| ==> Id(r[k]) == Id(es[k]) && r[k].enabled == es[k].enabled
                                             && r[k].mirrorSource == es[k].mirrorSource
  {
  }

  lemma {:induction false} ChoiceIsOther(es: seq<Entry>, own: string, index: int)
    ensures var s := SourceChoice(es, own, index);
            s == "" || (s != own && exists k :: 0 <= k < |es| && Id(es[k]) == s)
  {
    if es != [] {
      var rest := es[1..];
      var next := if Id(es[0]) == own then index else index - 1;
      ChoiceIsOther(rest, own, next);
      var s := SourceChoice(rest, own, next);
      if s != "" {
        var k :| 0 <= k < |rest| && Id(rest[k]) == s;
        assert es[k + 1] == rest[k];
      }
    }
  }

  /** The choices of a row are none and then all other rows in order. */
  lemma {:induction false} ChoicesAreOthers(es: seq<Entry>, row: nat, index: int)
    requires UniqueIds(es) && row < |es|
    ensures SourceChoice(es, Id(es[row]), index) ==
            if 1 <= index <= row then Id(es[index - 1])
            else if row < index < |es| then Id(es[index])
            else ""
    decreases |es|
  {
    if row == 0 {
      ChoicesFrom(es[1..], Id(es[0]), index);
    } else {
      ChoicesAreOthers(es[1..], row - 1, index - 1);
    }
  }

  lemma {:induction false} ChoicesFrom(es: seq<Entry>, own: string, index: int)
    requires forall k :: 0 <= k < |es| ==> Id(es[k]) != own
    ensures SourceChoice(es, own, index) == if 1 <= index <= |es| then Id(es[index - 1]) else ""
    decreases |es|
  {
    if es != [] {
      ChoicesFrom(es[1..], own, index - 1);
    }
  }

  /** A display that starts to mirror another one is the source of none, nothing mirrors
      itself, and the primary, if it moves, moves to the source. */
  lemma MirroringIsSafe(es: seq<Entry>, row: nat, source: string)
    requires row < |es| && source != "" && source != Id(es[row]) && Id(es[row]) != ""
    requires NoSelfMirror(es)
    ensures var r := Mirroring(es, row, source);
            && r[row].mirrorSource == source && SameDisplays(es, r)
            && NoneMirrors(r, Id(es[row])) && NoSelfMirror(r)
            && (OnePrimaryAtMost(es) ==> OnePrimaryAtMost(r))
            && (HasPrimary(es) ==> HasPrimary(r))
  {
    hide HandOver, FirstSource, OnePrimaryAtMost;
    var chosen := es[row := es[row].(mirrorSource := source)];
    RemirrorAllIsSafe(chosen, Id(es[row]), source);
    var moved := RemirrorAll(chosen, Id(es[row]), source);
    SamePrimaryKeeps(es, moved);
    var r := Mirroring(es, row, source);
    var heir := FirstSource(moved, source, 0);
    if es[row].primary && heir < |es| {
      HandOverIsSafe(moved, row, heir);
    }
    if HasPrimary(es) {
      var p :| 0 <= p < |es| && es[p].primary;
      assert r[if es[row].primary && heir < |es| then heir else p].primary;
    }
  }

  /** Mirroring a display changes the row itself; those that mirrored it, which follow it to its
      source; and the first row of the source that shows content of its own, which takes the
      primary over. */
  lemma MirroringRows(es: seq<Entry>, row: nat, source: string, k: nat)
    requires row < |es| && k < |es| && source != "" && source != Id(es[row])
    ensures var r := Mirroring(es, row, source);
            && r[k] == es[k].(primary := r[k].primary,
                              mirrorSource := if k == row then source
                                              else if es[k].mirrorSource != Id(es[row]) then es[k].mirrorSource
                                              else if Id(es[k]) == source then "" else source)
            && (r[k].primary <==>
                  if es[row].primary && Heir(r, source, k) then true
                  else es[k].primary && !(k == row && exists j :: 0 <= j < |es| && Heir(r, source, j)))
  {
    var chosen := es[row := es[row].(mirrorSource := source)];
    var moved := RemirrorAll(chosen, Id(es[row]), source);
    var heir := FirstSource(moved, source, 0);
    hide FirstSource;
    var r := Mirroring(es, row, source);
    assert |r| == |moved|;
    assert forall j :: 0 <= j < |r| ==> r[j] == moved[j].(primary := r[j].primary);
    if heir < |es| {
      assert Heir(r, source, heir);
    }
    forall j | 0 <= j < |es| && Heir(r, source, j)
      ensures j == heir
    {
      assert !(Id(moved[heir]) == source && heir < j) || heir == j;
    }
  }

  // The first row of the id that is on and shows content of its own.
  ghost predicate Heir(es: seq<Entry>, id: string, k: nat) {
    && k < |es| && IsShowing(es[k], id)
    && forall j :: 0 <= j < k ==> !IsShowing(es[j], id)
  }

  predicate IsShowing(e: Entry, id: string) {
    Id(e) == id && e.enabled && e.mirrorSource == ""
  }

  // ----- The layout of a draft -----

  function PrimaryId(es: seq<Entry>): string {
    if es == [] then "" else if es[0].primary then Id(es[0]) else PrimaryId(es[1..])
  }

  // The entries that get a place of their own beside the root, in order.
  function Shown(es: seq<Entry>, root: string): (shown: seq<Entry>)
    ensures forall e :: e in shown ==> e in es && e.enabled && Id(e) != root && e.mirrorSource == ""
    ensures forall e :: e in es && e.enabled && Id(e) != root && e.mirrorSource == "" ==> e in shown
    ensures Scales(es) ==> Scales(shown)
  {
    if es == [] then []
    else
      var last := es[|es| - 1];
      var earlier := Shown(es[..|es| - 1], root);
      assert es == es[..|es| - 1] + [last];
      if last.enabled && Id(last) != root && last.mirrorSource == "" then earlier + [last] else earlier
  }

  // The last row with the root's id.
  function RootRow(es: seq<Entry>, root: string): (row: int)
    ensures -1 <= row < |es|
    ensures row >= 0 ==> Id(es[row]) == root
    ensures row < 0 ==> forall k :: 0 <= k < |es| ==> Id(es[k]) != root
  {
    if es == [] then -1
    else if Id(es[|es| - 1]) == root then |es| - 1
    else RootRow(es[..|es| - 1], root)
  }

  ghost function DraftLayout(es: seq<Entry>): seq<Placement>
    requires Scales(es)
  {
    var root := PrimaryId(es);
    var row := RootRow(es, root);
    if row < 0 then [] else Arrange(ItemOf(es[row]), ItemsOf(Shown(es, root))).placements
  }

  lemma {:induction false} ShownIsDistinct(es: seq<Entry>, root: string)
    requires Scales(es) && UniqueIds(es)
    ensures DistinctItems(ItemsOf(Shown(es, root)))
    decreases |es|
  {
    if es != [] {
      var last := |es| - 1;
      ShownIsDistinct(es[..last], root);
      var earlier := Shown(es[..last], root);
      forall k | 0 <= k < |earlier|
        ensures Id(earlier[k]) != Id(es[last])
      {
        assert earlier[k] in es[..last];
      }
    }
  }

  // The display has a rectangle of the size it shows.
  ghost predicate HasItsSize(e: Entry, resolved: map<string, Rect>) {
    Id(e) in resolved && Shows(e, resolved[Id(e)].width, resolved[Id(e)].height)
  }

  // And it is where the draft has it.
  ghost predicate Stays(e: Entry, resolved: map<string, Rect>) {
    HasItsSize(e, resolved) && resolved[Id(e)].x == e.x && resolved[Id(e)].y == e.y
  }

  lemma ItemShows(e: Entry, items: seq<Item>, k: nat, p: nat)
    requires e.scale120 > 0 && Compact(items, p) && k < |items| && items[k] == ItemOf(e)
    ensures Shows(e, items[k].size.width, items[k].size.height)
    ensures items[k].id == Id(e) && items[k].x == e.x && items[k].y == e.y
  {
    hide Shows, LogicalSize;
    assert Positive(items[k]);
    SizeIsShown(e);
  }

  lemma AttachedAt(root: Item, shown: seq<Item>, l: Layout, k: nat)
    requires k < |shown| == |l.placements| && AllAttached(root, shown, l.resolved, l.placements, |shown|)
    ensures shown[k].id in l.resolved
    ensures l.resolved[shown[k].id].width == shown[k].size.width
    ensures l.resolved[shown[k].id].height == shown[k].size.height
  {
    assert Attaches([root] + shown[..k], l.resolved, shown[k], l.placements[k]);
  }

  /** The displays are placed in the order of their rows. */
  lemma {:induction false} ShownInOrder(es: seq<Entry>, root: string, i: nat, j: nat)
    requires i < j < |Shown(es, root)|
    ensures exists a, b :: 0 <= a < b < |es| && es[a] == Shown(es, root)[i] && es[b] == Shown(es, root)[j]
    decreases |es|
  {
    var last := |es| - 1;
    var earlier := Shown(es[..last], root);
    if j < |earlier| {
      ShownInOrder(es[..last], root, i, j);
      var a, b :| 0 <= a < b < last && es[..last][a] == earlier[i] && es[..last][b] == earlier[j];
      assert es[a] == earlier[i] && es[b] == earlier[j];
    } else {
      assert earlier[i] in es[..last];
      var a :| 0 <= a < last && es[..last][a] == earlier[i];
      assert es[a] == Shown(es, root)[i] && es[last] == Shown(es, root)[j];
    }
  }

  /** A changed draft with a primary gives every enabled display that mirrors nothing
      exactly one placement, against the primary or an earlier one, touching and without
      overlap, each of them at the size it shows and the primary where the draft has it, whenever
      its sizes are positive and its coordinates leave room in an int. */
  lemma DraftLayoutIsComplete(es: seq<Entry>, p: nat)
    requires Scales(es) && UniqueIds(es) && HasPrimary(es)
    requires var root := PrimaryId(es); var row := RootRow(es, root);
             row >= 0 ==> Compact([ItemOf(es[row])] + ItemsOf(Shown(es, root)), p)
    ensures var root := PrimaryId(es);
            var row := RootRow(es, root);
            && row >= 0 && es[row].primary
            && var top := ItemOf(es[row]);
               var shown := ItemsOf(Shown(es, root));
               var l := Arrange(top, shown);
               && DraftLayout(es) == l.placements
               && AllAttached(top, shown, l.resolved, l.placements, |shown|)
               && Disjoint(l.resolved)
               && (forall k :: 0 <= k < |shown| ==> SearchInInt(Arrange(top, shown[..k]), shown[k]))
               && Stays(es[row], l.resolved)
               && forall k :: 0 <= k < |shown| ==> HasItsSize(Shown(es, root)[k], l.resolved)
  {
    hide Compact, Arrange, AllAttached, Disjoint, SearchInInt, LogicalSize, PrimaryId, RootRow, Shown, Shows;
    PrimaryIdIsPrimary(es);
    var root := PrimaryId(es);
    var row := RootRow(es, root);
    var top := ItemOf(es[row]);
    var shown := ItemsOf(Shown(es, root));
    ShownIsDistinct(es, root);
    var items := [top] + shown;
    forall i, j | 0 <= i < j < |items|
      ensures items[i].id != items[j].id
    {
      assert items[j] == shown[j - 1];
      assert Shown(es, root)[j - 1] in Shown(es, root);
      if i > 0 {
        assert items[i] == shown[i - 1];
      }
    }
    EveryDisplayIsAttached(top, shown, p);
    LayoutIsDisjoint(top, shown);
    forall k | 0 <= k < |shown|
      ensures SearchInInt(Arrange(top, shown[..k]), shown[k])
    {
      EverySearchFits(top, shown, p, k);
    }
    RootStays(top, shown);
    ItemShows(es[row], items, 0, p);
    forall k | 0 <= k < |shown|
      ensures HasItsSize(Shown(es, root)[k], Arrange(top, shown).resolved)
    {
      ItemShows(Shown(es, root)[k], items, k + 1, p);
      AttachedAt(top, shown, Arrange(top, shown), k);
    }
  }

  lemma {:induction false} PrimaryIdIsPrimary(es: seq<Entry>)
    requires UniqueIds(es) && HasPrimary(es)
    ensures var row := RootRow(es, PrimaryId(es));
            row >= 0 && es[row].primary
  {
    var k := FirstPrimary(es);
    var row := RootRow(es, PrimaryId(es));
    assert row == k by {
      assert Id(es[k]) == PrimaryId(es);
    }
  }

  lemma {:induction false} FirstPrimary(es: seq<Entry>) returns (k: nat)
    requires HasPrimary(es)
    ensures k < |es| && es[k].primary && Id(es[k]) == PrimaryId(es)
  {
    if es[0].primary {
      k := 0;
    } else {
      var p :| 0 <= p < |es| && es[p].primary;
      assert es[1..][p - 1].primary;
      k := FirstPrimary(es[1..]);
      k := k + 1;
    }
  }

  // ----- Rows of a new state -----

  // A row as a new state has it; where it is off, it keeps its position, scale and rotation.
  function Refreshed(row: Entry, physical: Physical, logical: seq<Logical>): Entry {
    var mode := FirstCurrent(physical.modes, 0);
    var idle := row.(physical := physical, enabled := false, primary := false, mirrorSource := "",
                     modeIndex := if mode < |physical.modes| then mode else row.modeIndex);
    var l := FirstShowingId(logical, physical.sessionId, 0);
    if l == |logical| then idle
    else
      var front := logical[l].destinations[0];
      idle.(enabled := true,
            primary := logical[l].primary && front == physical.sessionId,
            x := logical[l].x, y := logical[l].y,
            scale120 := logical[l].scale120, rotation := logical[l].rotation,
            mirrorSource := if front != physical.sessionId then front else "")
  }

  function FirstCurrent(modes: seq<Mode>, from: nat): (k: nat)
    requires from <= |modes|
    ensures from <= k <= |modes|
    ensures k < |modes| ==> modes[k].current
    ensures forall j :: from <= j < k ==> !modes[j].current
    decreases |modes| - from
  {
    if from == |modes| || modes[from].current then from else FirstCurrent(modes, from + 1)
  }

  function FirstShowingId(logical: seq<Logical>, id: string, from: nat): (k: nat)
    requires from <= |logical|
    ensures from <= k <= |logical|
    ensures k < |logical| ==> id in logical[k].destinations
    ensures forall j :: from <= j < k ==> id !in logical[j].destinations
    decreases |logical| - from
  {
    if from == |logical| || id in logical[from].destinations then from else FirstShowingId(logical, id, from + 1)
  }

  const NEW_ENTRY := Entry(Physical("", []), false, false, 0, 0, 120, 0, 0, "")

  function RowOfId(es: seq<Entry>, id: string): (k: nat)
    ensures k <= |es|
    ensures k < |es| ==> Id(es[k]) == id
    ensures forall j :: 0 <= j < k ==> Id(es[j]) != id
  {
    if es == [] || Id(es[0]) == id then 0 else 1 + RowOfId(es[1..], id)
  }

  function AddOrRefresh(es: seq<Entry>, physical: Physical, logical: seq<Logical>): seq<Entry> {
    var k := RowOfId(es, physical.sessionId);
    if k == |es| then es + [Refreshed(NEW_ENTRY, physical, logical)]
    else es[k := Refreshed(es[k], physical, logical)]
  }

  function RefreshAll(es: seq<Entry>, physical: seq<Physical>, logical: seq<Logical>): seq<Entry> {
    if physical == [] then es
    else AddOrRefresh(RefreshAll(es, physical[..|physical| - 1], logical), physical[|physical| - 1], logical)
  }

  function Connected(physical: seq<Physical>): set<string> {
    set k | 0 <= k < |physical| :: physical[k].sessionId
  }

  function OnlyConnected(es: seq<Entry>, ids: set<string>): (r: seq<Entry>)
    ensures forall e :: e in r <==> e in es && Id(e) in ids
  {
    if es == [] then []
    else
      var last := es[|es| - 1];
      assert es == es[..|es| - 1] + [last];
      OnlyConnected(es[..|es| - 1], ids) + if Id(last) in ids then [last] else []
  }

  lemma {:induction false} OnlyConnectedKeepsUnique(es: seq<Entry>, ids: set<string>)
    requires UniqueIds(es)
    ensures UniqueIds(OnlyConnected(es, ids))
    decreases |es|
  {
    if es != [] {
      var last := |es| - 1;
      OnlyConnectedKeepsUnique(es[..last], ids);
      var kept := OnlyConnected(es[..last], ids);
      forall k | 0 <= k < |kept|
        ensures Id(kept[k]) != Id(es[last])
      {
        assert kept[k] in es[..last];
      }
    }
  }

  // The first desktop area that shows the display.
  ghost predicate FirstShows(logical: seq<Logical>, id: string, l: int) {
    && 0 <= l < |logical| && id in logical[l].destinations
    && forall j :: 0 <= j < l ==> id !in logical[j].destinations
  }

  // What a row refreshed from a state says of it: the display is on where some area shows it, and is
  // as the first of those says; an area shows its first display's content on all the others.
  ghost predicate FromState(e: Entry, logical: seq<Logical>) {
    && (e.enabled <==> exists l :: 0 <= l < |logical| && Id(e) in logical[l].destinations)
    && (!e.enabled ==> !e.primary && e.mirrorSource == "")
    && (forall l :: FirstShows(logical, Id(e), l) ==>
          var area, front := logical[l], logical[l].destinations[0];
          && e.x == area.x && e.y == area.y && e.scale120 == area.scale120 && e.rotation == area.rotation
          && (e.primary <==> area.primary && front == Id(e))
          && e.mirrorSource == (if front == Id(e) then "" else front))
    && (forall m :: FirstCurrentMode(e.physical.modes, m) ==> e.modeIndex == m)
  }

  ghost predicate FirstCurrentMode(modes: seq<Mode>, m: int) {
    && 0 <= m < |modes| && modes[m].current
    && forall j :: 0 <= j < m ==> !modes[j].current
  }

  lemma RefreshedIsFromState(row: Entry, physical: Physical, logical: seq<Logical>)
    ensures FromState(Refreshed(row, physical, logical), logical)
  {
    var e := Refreshed(row, physical, logical);
    var m, at := FirstCurrent(physical.modes, 0), FirstShowingId(logical, physical.sessionId, 0);
    hide FirstCurrent, FirstShowingId;
    assert e.physical == physical && Id(e) == physical.sessionId;
    if at < |logical| {
      assert Id(e) in logical[at].destinations;
    }
    forall l | FirstShows(logical, Id(e), l)
      ensures l == at
    {
      assert Id(e) in logical[l].destinations;
    }
    forall n | FirstCurrentMode(e.physical.modes, n)
      ensures n == m
    {
      assert physical.modes[n].current;
    }
  }

  // What matters of it when rows are compared.
  lemma FromStateMeans(e: Entry, logical: seq<Logical>)
    requires FromState(e, logical)
    ensures e.primary ==> exists l :: 0 <= l < |logical| && logical[l].primary && logical[l].destinations != []
                                      && logical[l].destinations[0] == Id(e)
    ensures e.mirrorSource != "" ==> e.mirrorSource != Id(e)
  {
    var l := FirstShowingId(logical, Id(e), 0);
    if l < |logical| {
      assert FirstShows(logical, Id(e), l);
    }
  }

  // Every row of a connected display is as the state says.
  ghost predicate AllFromState(es: seq<Entry>, ids: set<string>, logical: seq<Logical>) {
    forall k :: 0 <= k < |es| && Id(es[k]) in ids ==> FromState(es[k], logical)
  }

  // Every connected display has a row.
  ghost predicate HaveRows(es: seq<Entry>, physical: seq<Physical>) {
    forall i :: 0 <= i < |physical| ==> exists k :: 0 <= k < |es| && Id(es[k]) == physical[i].sessionId
  }

  ghost predicate KnownOrOld(es: seq<Entry>, ids: set<string>, before: seq<Entry>) {
    forall k :: 0 <= k < |es| ==> Id(es[k]) in ids || es[k] in before
  }

  /** After a new state there is one row for each connected display and no other, every row
      is as the state shows it, and rows are unique. */
  lemma {:induction false} RefreshedRows(es: seq<Entry>, physical: seq<Physical>, logical: seq<Logical>, n: nat)
    requires UniqueIds(es) && n <= |physical|
    ensures var r := RefreshAll(es, physical[..n], logical);
            && UniqueIds(r) && KnownOrOld(r, Connected(physical[..n]), es)
            && AllFromState(r, Connected(physical[..n]), logical) && HaveRows(r, physical[..n])
  {
    hide UniqueIds, KnownOrOld, AllFromState, HaveRows, Connected, AddOrRefresh;
    if n == 0 {
      RefreshedNone(es, logical);
      assert physical[..0] == [];
    } else {
      RefreshedRows(es, physical, logical, n - 1);
      assert physical[..n][..n - 1] == physical[..n - 1];
      RefreshStep(es, RefreshAll(es, physical[..n - 1], logical), physical, logical, n);
    }
  }

  lemma RefreshedNone(es: seq<Entry>, logical: seq<Logical>)
    ensures KnownOrOld(es, Connected([]), es) && AllFromState(es, Connected([]), logical) && HaveRows(es, [])
  {
  }

  lemma RefreshStep(es: seq<Entry>, before: seq<Entry>, physical: seq<Physical>, logical: seq<Logical>, n: nat)
    requires 0 < n <= |physical| && UniqueIds(before)
    requires KnownOrOld(before, Connected(physical[..n - 1]), es) && HaveRows(before, physical[..n - 1])
    requires AllFromState(before, Connected(physical[..n - 1]), logical)
    ensures var r := AddOrRefresh(before, physical[n - 1], logical);
            && UniqueIds(r) && KnownOrOld(r, Connected(physical[..n]), es)
            && AllFromState(r, Connected(physical[..n]), logical) && HaveRows(r, physical[..n])
  {
    hide FromState, RowOfId, Refreshed;
    var id := physical[n - 1].sessionId;
    var at := RowOfId(before, id);
    var r := AddOrRefresh(before, physical[n - 1], logical);
    var base := if at == |before| then NEW_ENTRY else before[at];
    RefreshedIsFromState(base, physical[n - 1], logical);
    RefreshedId(base, physical[n - 1], logical);
    assert r[at] == Refreshed(base, physical[n - 1], logical) && Id(r[at]) == id;
    assert forall k :: 0 <= k < |before| && k != at ==> r[k] == before[k];
    ConnectedMore(physical, n);
    hide AddOrRefresh, Connected;
    forall i | 0 <= i < n
      ensures exists k :: 0 <= k < |r| && Id(r[k]) == physical[..n][i].sessionId
    {
      if i == n - 1 {
        assert Id(r[at]) == id;
      } else {
        assert physical[..n - 1][i] == physical[..n][i];
        var k :| 0 <= k < |before| && Id(before[k]) == physical[..n - 1][i].sessionId;
        assert Id(r[k]) == physical[..n][i].sessionId;
      }
    }
  }

  lemma RefreshedId(row: Entry, physical: Physical, logical: seq<Logical>)
    ensures Refreshed(row, physical, logical).physical == physical
  {
  }

  lemma ConnectedMore(physical: seq<Physical>, n: nat)
    requires 0 < n <= |physical|
    ensures Connected(physical[..n]) == Connected(physical[..n - 1]) + {physical[n - 1].sessionId}
  {
    assert forall k :: 0 <= k < n - 1 ==> physical[..n][k] == physical[..n - 1][k];
    assert physical[..n][n - 1].sessionId in Connected(physical[..n]);
  }

  // Two rows agree on what no state changes of a display that is off.
  predicate SamePlace(a: Entry, b: Entry) {
    Id(a) == Id(b) && a.x == b.x && a.y == b.y && a.scale120 == b.scale120 && a.rotation == b.rotation
  }

  /** The rows there were stay in their order, the new ones come after them; and a row that no area
      shows keeps its position, scale and rotation. */
  lemma {:induction false} RowsStay(es: seq<Entry>, physical: seq<Physical>, logical: seq<Logical>, k: nat)
    requires k < |es|
    ensures var r := RefreshAll(es, physical, logical);
            && |es| <= |r| && Id(r[k]) == Id(es[k])
            && ((forall l :: 0 <= l < |logical| ==> Id(es[k]) !in logical[l].destinations) ==> SamePlace(r[k], es[k]))
    decreases |physical|
  {
    if physical != [] {
      RowsStay(es, physical[..|physical| - 1], logical, k);
    }
  }

  ghost function StateRows(es: seq<Entry>, state: State): seq<Entry> {
    RefreshAll(OnlyConnected(es, Connected(state.physical)), state.physical, state.logical)
  }

  lemma PrimaryOnce(r: seq<Entry>, logical: seq<Logical>)
    requires UniqueIds(r) && forall k :: 0 <= k < |r| ==> FromState(r[k], logical)
    requires forall i, j :: 0 <= i < j < |logical| ==> !(logical[i].primary && logical[j].primary)
    ensures OnePrimaryAtMost(r)
  {
    forall k | 0 <= k < |r|
      ensures r[k].primary ==> exists l :: 0 <= l < |logical| && logical[l].primary && logical[l].destinations != []
                                           && logical[l].destinations[0] == Id(r[k])
    {
      FromStateMeans(r[k], logical);
    }
    hide FromState;
  }

  /** A state with one primary desktop at most gives the rows one primary at most. */
  lemma StateRowsAreSound(es: seq<Entry>, state: State)
    requires UniqueIds(es)
    ensures var r := StateRows(es, state);
            && UniqueIds(r) && NoSelfMirror(r)
            && (forall id :: id in Connected(state.physical) <==> exists k :: 0 <= k < |r| && Id(r[k]) == id)
            && (forall k :: 0 <= k < |r| ==> FromState(r[k], state.logical))
            && ((forall i, j :: 0 <= i < j < |state.logical| ==>
               !(state.logical[i].primary && state.logical[j].primary))
                ==> OnePrimaryAtMost(r))
  {
    hide RefreshAll, OnlyConnected;
    var kept := OnlyConnected(es, Connected(state.physical));
    OnlyConnectedKeepsUnique(es, Connected(state.physical));
    var n := |state.physical|;
    assert state.physical[..n] == state.physical;
    RefreshedRows(kept, state.physical, state.logical, n);
    var r := StateRows(es, state);
    assert forall k :: 0 <= k < |r| ==> Id(r[k]) in Connected(state.physical);
    forall k | 0 <= k < |r|
      ensures r[k].mirrorSource != "" ==> r[k].mirrorSource != Id(r[k])
    {
      FromStateMeans(r[k], state.logical);
    }
    hide FromState;
    if forall i, j :: 0 <= i < j < |state.logical| ==> !(state.logical[i].primary && state.logical[j].primary) {
      PrimaryOnce(r, state.logical);
    }
  }

  // ----- The model -----

  // The layout after one more row: the same, or with that row placed.
  lemma ArrangeNext(top: Item, es: seq<Entry>, i: nat, root: string)
    requires Scales(es) && i < |es|
    ensures var before := Arrange(top, ItemsOf(Shown(es[..i], root)));
            Arrange(top, ItemsOf(Shown(es[..i + 1], root))) ==
            if es[i].enabled && Id(es[i]) != root && es[i].mirrorSource == "" then Place(before, ItemOf(es[i]))
              else before
  {
    hide LogicalSize, Place;
    assert es[..i + 1][..i] == es[..i];
    var shown := ItemsOf(Shown(es[..i + 1], root));
    if es[i].enabled && Id(es[i]) != root && es[i].mirrorSource == "" {
      assert shown[..|shown| - 1] == ItemsOf(Shown(es[..i], root)) && shown[|shown| - 1] == ItemOf(es[i]);
    }
  }

  lemma ArrangeNone(top: Item, es: seq<Entry>, root: string)
    requires Scales(es)
    ensures Arrange(top, ItemsOf(Shown(es[..0], root))) == Start(top)
  {
    assert es[..0] == [];
  }

  // ----- Every sequence of edits -----

  // What the compositor sends: displays have ids, and one desktop at most is the primary.
  ghost predicate Sane(state: State) {
    && (forall k :: 0 <= k < |state.physical| ==> state.physical[k].sessionId != "")
    && (forall i, j :: 0 <= i < j < |state.logical| ==> !(state.logical[i].primary && state.logical[j].primary))
  }

  ghost predicate HaveIds(es: seq<Entry>) {
    forall k :: 0 <= k < |es| ==> Id(es[k]) != ""
  }

  // The rows stand for different displays; from a sane state none mirrors itself and one at most
  // is the primary.
  ghost predicate Sound(es: seq<Entry>, state: State) {
    UniqueIds(es) && (Sane(state) ==> HaveIds(es) && NoSelfMirror(es) && OnePrimaryAtMost(es))
  }

  ghost predicate SameIds(es: seq<Entry>, r: seq<Entry>) {
    |r| == |es| && forall k :: 0 <= k < |es| ==> Id(r[k]) == Id(es[k])
  }

  lemma RemirrorIds(es: seq<Entry>, source: string, replacement: string)
    ensures SameIds(es, RemirrorAll(es, source, replacement))
  {
  }

  lemma HandOverIds(es: seq<Entry>, row: nat, heir: nat)
    requires row < |es| && heir <= |es|
    ensures SameIds(es, HandOver(es, row, heir))
  {
  }

  lemma DisabledIds(es: seq<Entry>, row: nat)
    requires row < |es|
    ensures SameIds(es, Disabled(es, row))
  {
    hide RemirrorAll, HandOver;
    var off := es[row := es[row].(enabled := false)];
    var freed := RemirrorAll(off, Id(es[row]), "");
    RemirrorIds(off, Id(es[row]), "");
    HandOverIds(freed, row, FirstShowing(freed, 0));
  }

  lemma MirroringIds(es: seq<Entry>, row: nat, source: string)
    requires row < |es|
    ensures SameIds(es, Mirroring(es, row, source))
  {
    hide RemirrorAll, HandOver;
    var chosen := es[row := es[row].(mirrorSource := source)];
    var moved := RemirrorAll(chosen, Id(es[row]), source);
    RemirrorIds(chosen, Id(es[row]), source);
    HandOverIds(moved, row, FirstSource(moved, source, 0));
  }

  lemma SameIdsKeep(es: seq<Entry>, r: seq<Entry>)
    requires SameIds(es, r)
    ensures UniqueIds(es) <==> UniqueIds(r)
    ensures HaveIds(es) <==> HaveIds(r)
  {
  }

  lemma DisabledIsSound(es: seq<Entry>, row: nat, state: State)
    requires Sound(es, state) && row < |es| && es[row].enabled && EnabledCount(es) > 1
    ensures Sound(Disabled(es, row), state) && (Sane(state) ==> SomeEnabled(Disabled(es, row)))
  {
    hide Disabled, Mirroring, WithPrimary, EnabledCount;
    DisabledIds(es, row);
    SameIdsKeep(es, Disabled(es, row));
    if Sane(state) {
      DisablingIsSafe(es, row);
    }
  }

  lemma EnabledIsSound(es: seq<Entry>, row: nat, state: State)
    requires Sound(es, state) && row < |es|
    ensures var r := es[row := es[row].(enabled := true)];
            Sound(r, state) && SomeEnabled(r)
  {
    var r := es[row := es[row].(enabled := true)];
    assert r[row].enabled && SamePrimary(es, r);
    SamePrimaryKeeps(es, r);
  }

  lemma PrimaryIsSound(es: seq<Entry>, row: nat, state: State)
    requires Sound(es, state) && row < |es|
    ensures Sound(WithPrimary(es, row), state) && (SomeEnabled(es) ==> SomeEnabled(WithPrimary(es, row)))
  {
    PrimaryIsUnique(es, row);
    hide WithPrimary;
    var r := WithPrimary(es, row);
    SameIdsKeep(es, r);
    if k :| 0 <= k < |es| && es[k].enabled {
      assert r[k].enabled;
    }
  }

  lemma MirroringIsSound(es: seq<Entry>, row: nat, source: string, state: State)
    requires Sound(es, state) && row < |es| && (source == "" || source != Id(es[row]))
    ensures Sound(Mirroring(es, row, source), state)
    ensures Sane(state) && SomeEnabled(es) ==> SomeEnabled(Mirroring(es, row, source))
  {
    MirroringIds(es, row, source);
    SameIdsKeep(es, Mirroring(es, row, source));
    if Sane(state) && source != "" {
      MirroringIsSafe(es, row, source);
      hide Disabled, Mirroring, WithPrimary;
      if SomeEnabled(es) {
        SameDisplaysEnabled(es, Mirroring(es, row, source));
      }
    } else if source == "" && SomeEnabled(es) {
      var k :| 0 <= k < |es| && es[k].enabled;
      assert Mirroring(es, row, source)[k].enabled;
    }
  }

  lemma StateIsSound(es: seq<Entry>, state: State)
    requires UniqueIds(es)
    ensures Sound(StateRows(es, state), state)
  {
    hide StateRows;
    StateRowsAreSound(es, state);
    var r := StateRows(es, state);
    if Sane(state) {
      forall k | 0 <= k < |r|
        ensures Id(r[k]) != ""
      {
        assert Id(r[k]) in Connected(state.physical);
      }
    }
  }

  class OutputModel {
    var entries: seq<Entry>
    var applied: State
    var dirty: bool
    var layoutDirty: bool

    constructor ()
      ensures Valid() && entries == [] && applied == State([], [], []) && !dirty && !layoutDirty
    {
      entries, applied, dirty, layoutDirty := [], State([], [], []), false, false;
    }

    ghost predicate Valid()
      reads this
    {
      Sound(entries, applied)
    }

    predicate IsRow(row: int)
      reads this
    {
      0 <= row < |entries|
    }

    // Does nothing without such a row, to the only enabled display, and where it is as asked already.
    method SetEnabled(row: int, enabled: bool) returns (ok: bool)
      requires Valid()
      modifies this
      ensures Valid() && (Sane(applied) && SomeEnabled(old(entries)) ==> SomeEnabled(entries))
      ensures ok == (old(IsRow(row)) && (enabled || EnabledCount(old(entries)) > 1)
              && old(entries)[row].enabled != enabled)
      ensures applied == old(applied)
      ensures !ok ==> entries == old(entries) && dirty == old(dirty) && layoutDirty == old(layoutDirty)
      ensures ok ==> dirty && layoutDirty
      ensures ok && enabled ==> entries == old(entries)[row := old(entries)[row].(enabled := true)]
      ensures ok && !enabled ==> entries == Disabled(old(entries), row)
    {
      hide FirstShowing, EnabledCount, Sound, Sane;
      if !IsRow(row) || (!enabled && EnabledCount(entries) <= 1) || entries[row].enabled == enabled {
        return false;
      }
      if !enabled {
        DisabledIsSound(entries, row, applied);
      } else {
        EnabledIsSound(entries, row, applied);
      }
      entries := entries[row := entries[row].(enabled := enabled)];
      layoutDirty := true;
      if !enabled {
        var es := Remirrored(entries, Id(entries[row]), "");
        if es[row].primary {
          var heir := FirstShowing(es, 0);
          es := es[row := es[row].(primary := false)];
          if heir < |es| {
            es := es[heir := es[heir].(primary := true)];
          }
        }
        entries := es;
      }
      dirty := true;
      return true;
    }

    method SetPrimary(row: int) returns (ok: bool)
      requires Valid()
      modifies this
      ensures Valid() && (Sane(applied) && SomeEnabled(old(entries)) ==> SomeEnabled(entries))
      ensures ok == (old(IsRow(row)) && old(entries)[row].enabled && !old(entries)[row].primary)
      ensures applied == old(applied) && layoutDirty == old(layoutDirty)
      ensures !ok ==> entries == old(entries) && dirty == old(dirty)
      ensures ok ==> dirty && entries == WithPrimary(old(entries), row)
    {
      if !IsRow(row) || !entries[row].enabled || entries[row].primary {
        return false;
      }
      hide Sound, SomeEnabled;
      PrimaryIsSound(entries, row, applied);
      for k := 0 to |entries|
        modifies this`entries
        invariant |entries| == |old(entries)|
        invariant forall j :: 0 <= j < k ==> entries[j] == old(entries)[j].(primary := false)
        invariant forall j :: k <= j < |entries| ==> entries[j] == old(entries)[j]
      {
        entries := entries[k := entries[k].(primary := false)];
      }
      entries := entries[row := entries[row].(primary := true)];
      assert entries == WithPrimary(old(entries), row);
      dirty := true;
      return true;
    }

    // The id that choice `index` of the row stands for.
    method ChosenSource(row: int, index: int) returns (source: string)
      requires IsRow(row)
      ensures source == SourceChoice(entries, Id(entries[row]), index)
    {
      var own := Id(entries[row]);
      var n := 1;
      for k := 0 to |entries|
        invariant SourceChoice(entries, own, index) == SourceChoice(entries[k..], own, index - n + 1)
      {
        assert entries[k..][1..] == entries[k + 1..];
        if Id(entries[k]) != own {
          if n == index {
            return Id(entries[k]);
          }
          n := n + 1;
        }
      }
      return "";
    }

    method SetReplicationSourceIndex(row: int, index: int) returns (ok: bool)
      requires Valid()
      modifies this
      ensures Valid() && (Sane(applied) && SomeEnabled(old(entries)) ==> SomeEnabled(entries))
      ensures ok ==> old(IsRow(row))
      ensures old(IsRow(row)) ==>
                var source := SourceChoice(old(entries), Id(old(entries)[row]), index);
                && ok == (old(entries)[row].mirrorSource != source)
                && (ok ==> dirty && layoutDirty && entries == Mirroring(old(entries), row, source))
      ensures applied == old(applied)
      ensures !ok ==> entries == old(entries) && dirty == old(dirty) && layoutDirty == old(layoutDirty)
    {
      if !IsRow(row) {
        return false;
      }
      var source := ChosenSource(row, index);
      if entries[row].mirrorSource == source {
        return false;
      }
      ChoiceIsOther(entries, Id(entries[row]), index);
      var id := Id(entries[row]);
      hide FirstSource, SourceChoice, Sound;
      MirroringIsSound(entries, row, source, applied);
      entries := entries[row := entries[row].(mirrorSource := source)];
      layoutDirty := true;
      if source != "" {
        entries := Remirrored(entries, id, source);
        if entries[row].primary && entries[row].mirrorSource != "" {
          var heir := FirstSource(entries, entries[row].mirrorSource, 0);
          if heir < |entries| {
            entries := entries[row := entries[row].(primary := false)];
            entries := entries[heir := entries[heir].(primary := true)];
          }
        }
      }
      dirty := true;
      return true;
    }

    method SetState(state: State)
      requires Valid()
      modifies this
      ensures Valid()
      ensures applied == state && !dirty && !layoutDirty
      ensures entries == StateRows(old(entries), state)
    {
      StateIsSound(entries, state);
      hide Sound;
      applied := state;
      dirty, layoutDirty := false, false;
      var physical := state.physical;
      entries := OnlyConnected(entries, Connected(physical));
      ghost var kept := entries;
      for i := 0 to |physical|
        invariant entries == RefreshAll(kept, physical[..i], state.logical)
        invariant applied == state && !dirty && !layoutDirty
      {
        assert physical[..i + 1][..i] == physical[..i];
        var k := RowOfId(entries, physical[i].sessionId);
        if k == |entries| {
          entries := entries + [Refreshed(NEW_ENTRY, physical[i], state.logical)];
        } else {
          entries := entries[k := Refreshed(entries[k], physical[i], state.logical)];
        }
      }
      assert physical[..|physical|] == physical;
    }

    // The placements last applied, or those of a changed draft.
    method Placements() returns (result: seq<Placement>)
      requires layoutDirty ==> Scales(entries)
      ensures result == if layoutDirty then DraftLayout(entries) else applied.placements
    {
      if !layoutDirty {
        return applied.placements;
      }
      result := DraftPlacements(entries);
    }
  }

  // A draft of three displays, the first one primary.
  ghost predicate ThreeWith(es: seq<Entry>, third: bool, source: string) {
    && |es| == 3 && UniqueIds(es) && HaveIds(es)
    && es[0].enabled && es[0].primary && es[0].mirrorSource == ""
    && es[1].enabled && !es[1].primary && es[1].mirrorSource == source
    && es[2].enabled == third && !es[2].primary && es[2].mirrorSource == ""
  }

  lemma ThreeCounted(es: seq<Entry>)
    requires |es| == 3 && es[0].enabled && es[1].enabled
    ensures EnabledCount(es) > 1
  {
    assert es[..2][..1] == es[..1] && es[..1][..0] == [];
    assert EnabledCount(es[..1]) == 1 && EnabledCount(es[..2]) == 2;
  }

  lemma ThirdOff(es: seq<Entry>)
    requires ThreeWith(es, true, "")
    ensures ThreeWith(Disabled(es, 2), false, "")
  {
  }

  lemma SecondMirrors(es: seq<Entry>)
    requires ThreeWith(es, false, "")
    ensures SourceChoice(es, Id(es[1]), 2) == Id(es[2]) != ""
    ensures ThreeWith(Mirroring(es, 1, Id(es[2])), false, Id(es[2]))
    ensures Id(Mirroring(es, 1, Id(es[2]))[2]) == Id(es[2])
  {
    assert es[1..][1..] == es[2..] && es[2..][0] == es[2];
    assert SourceChoice(es[2..], Id(es[1]), 1) == Id(es[2]);
    assert SourceChoice(es[1..], Id(es[1]), 1) == Id(es[2]);
  }

  lemma FirstOff(es: seq<Entry>)
    requires |es| == 3 && ThreeWith(es, false, Id(es[2]))
    ensures var r := Disabled(es, 0); SomeEnabled(r) && !HasPrimary(r)
  {
    var r := Disabled(es, 0);
    assert r[1].enabled && |r| == 3;
    assert !r[0].primary && !r[1].primary && !r[2].primary;
  }

  /** Three edits lead there from any draft of three displays that are on and mirror nothing: the
      third goes off, the second mirrors it, and the first, which is the primary, goes off. */
  method LosePrimary(model: OutputModel)
    requires model.Valid() && ThreeWith(model.entries, true, "")
    modifies model
    ensures model.Valid() && SomeEnabled(model.entries) && !HasPrimary(model.entries)
  {
    hide Sound, Sane, EnabledCount, Disabled, Mirroring, SourceChoice, SomeEnabled, HasPrimary;
    ThreeCounted(model.entries);
    ThirdOff(model.entries);
    var done := model.SetEnabled(2, false);
    SecondMirrors(model.entries);
    done := model.SetReplicationSourceIndex(1, 2);
    ThreeCounted(model.entries);
    FirstOff(model.entries);
    done := model.SetEnabled(0, false);
  }

  // The layout search over the rows of a changed draft.
  method DraftPlacements(es: seq<Entry>) returns (result: seq<Placement>)
    requires Scales(es)
    ensures result == DraftLayout(es)
  {
    hide LogicalSize, Nearest, Slots, Shown, Arrange, RootRow, PrimaryId;
    result := [];
    var root := PrimaryId(es);
    var row := RootRow(es, root);
    if row < 0 {
      return;
    }
    var parent := es[row];
    var placed := [parent];
    var rootSize := LogicalSize(parent);
    var resolved := map[root := Rect(parent.x, parent.y, rootSize.width, rootSize.height)];
    ghost var top := ItemOf(parent);
    ArrangeNone(top, es, root);
    assert ItemsOf(placed) == [top];
    ghost var l := Start(top);
    for i := 0 to |es|
      invariant Scales(placed)
      invariant l == Arrange(top, ItemsOf(Shown(es[..i], root)))
      invariant l == Layout(result, ItemsOf(placed), resolved)
    {
      var entry := es[i];
      ArrangeNext(top, es, i, root);
      if entry.enabled && Id(entry) != root && entry.mirrorSource == "" {
        var best := NearestSlot(entry, placed, resolved);
        l := Place(l, ItemOf(entry));
        assert ItemsOf(placed + [entry]) == ItemsOf(placed) + [ItemOf(entry)];
        result, placed, resolved := result + [best.placement], placed + [entry], resolved[Id(entry) := best.bounds];
      }
    }
    assert es[..|es|] == es;
  }

  method Remirrored(es: seq<Entry>, source: string, replacement: string) returns (r: seq<Entry>)
    ensures r == RemirrorAll(es, source, replacement)
  {
    r := es;
    for k := 0 to |es|
      invariant |r| == |es|
      invariant forall j :: 0 <= j < k ==> r[j] == Remirror(es[j], source, replacement)
      invariant forall j :: k <= j < |es| ==> r[j] == es[j]
    {
      if r[k].mirrorSource == source {
        r := r[k := r[k].(mirrorSource := if Id(r[k]) == replacement then "" else replacement)];
      }
    }
  }

  // One slot of the search, as it computes it.
  method SlotAgainst(entry: Entry, childSize: Size, candidate: Entry, parentSize: Size, parentRect: Rect, edge: nat)
    returns (slot: Slot)
    requires entry.scale120 > 0 && candidate.scale120 > 0 && edge < 4
    requires childSize == LogicalSize(entry) && parentSize == LogicalSize(candidate)
    ensures slot == SlotAt(ItemOf(entry), ItemOf(candidate), parentRect, edge)
  {
    hide LogicalSize, Min, Bound, Abs;
    var deltaX, deltaY := entry.x - parentRect.x, entry.y - parentRect.y;
    var horizontal := edge % 2 == 1;
    var childExtent := if horizontal then childSize.height else childSize.width;
    var parentExtent := if horizontal then parentSize.height else parentSize.width;
    var overlap := Min(32, Min(childExtent, parentExtent));
    var cross := if horizontal then deltaY else deltaX;
    var offset := Bound(-childExtent + overlap, cross, parentExtent - overlap);
    var normal := if edge == 0 then -childSize.height
                  else if edge == 1 then parentSize.width
                  else if edge == 2 then parentSize.height
                  else -childSize.width;
    var distance := Abs((if horizontal then deltaX else deltaY) - normal) + Abs(cross - offset);
    var bounds := Rect(parentRect.x + (if horizontal then normal else offset),
                       parentRect.y + (if horizontal then offset else normal),
                       childSize.width, childSize.height);
    slot := Slot(distance, Placement(Id(entry), Id(candidate), edge, offset), bounds);
  }

  // The nearest free slot for one display against those placed so far.
  method NearestSlot(entry: Entry, placed: seq<Entry>, resolved: map<string, Rect>) returns (best: Slot)
    requires entry.scale120 > 0 && Scales(placed)
    ensures best == Nearest(Slots(ItemOf(entry), ItemsOf(placed), resolved), resolved)
  {
    hide LogicalSize, SlotAt, Free, EdgeSlots;
    ghost var child := ItemOf(entry);
    ghost var items := ItemsOf(placed);
    var childSize := LogicalSize(entry);
    best := NO_SLOT;
    for j := 0 to |placed|
      invariant best == Nearest(Slots(child, items[..j], resolved), resolved)
    {
      ghost var seen := Slots(child, items[..j], resolved);
      best := NearestAgainst(entry, childSize, placed[j], RectOf(resolved, Id(placed[j])), resolved, seen, best);
      assert items[..j + 1][..j] == items[..j];
    }
    assert items[..|placed|] == items;
  }

  // The search over the edges of one more display.
  method NearestAgainst(entry: Entry, childSize: Size, candidate: Entry, parentRect: Rect,
                        resolved: map<string, Rect>, ghost seen: seq<Slot>, soFar: Slot) returns (best: Slot)
    requires entry.scale120 > 0 && candidate.scale120 > 0 && childSize == LogicalSize(entry)
    requires soFar == Nearest(seen, resolved)
    ensures best == Nearest(seen + EdgeSlots(ItemOf(entry), ItemOf(candidate), parentRect), resolved)
  {
    hide LogicalSize, SlotAt, Free, EdgeSlots;
    var parentSize := LogicalSize(candidate);
    ghost var edges := EdgeSlots(ItemOf(entry), ItemOf(candidate), parentRect);
    best := soFar;
    assert seen + edges[..0] == seen;
    for edge := 0 to 4
      invariant best == Nearest(seen + edges[..edge], resolved)
    {
      var slot := SlotAgainst(entry, childSize, candidate, parentSize, parentRect, edge);
      ghost var now := seen + edges[..edge + 1];
      assert now[..|now| - 1] == seen + edges[..edge] && now[|now| - 1] == slot;
      var overlaps := OverlapsAny(resolved, slot.bounds);
      if !overlaps && slot.distance < best.distance {
        best := slot;
      }
    }
    assert edges[..4] == edges;
  }

  method OverlapsAny(resolved: map<string, Rect>, bounds: Rect) returns (overlaps: bool)
    ensures overlaps <==> !Free(resolved, bounds)
  {
    overlaps := false;
    var left := resolved.Keys;
    while left != {}
      invariant left <= resolved.Keys
      invariant overlaps <==> exists id :: id in resolved && id !in left && resolved[id].Intersects(bounds)
      decreases left
    {
      var id :| id in left;
      overlaps := overlaps || resolved[id].Intersects(bounds);
      left := left - {id};
    }
  }
}
