/** The layout search of the display settings: every enabled display that mirrors no
    other one is put against an edge of a display placed before it, as near to where
    the user dragged it as free room allows. */
module DisplayLayout {

  // Coordinates are mathematical integers. `SearchInInt` says that all values of a search are
  // those of 32-bit arithmetic as well, and `EverySearchFits` where they are.

  const INT_MIN: int := -0x8000_0000
  const INT_MAX: int := 0x7fff_ffff

  datatype Mode = Mode(width: int, height: int, current: bool)

  datatype Physical = Physical(sessionId: string, modes: seq<Mode>)

  // `mirrorSource` is empty for a display that shows content of its own.
  datatype Entry = Entry(physical: Physical, enabled: bool, primary: bool, x: int, y: int,
                         scale120: nat, rotation: nat, modeIndex: int, mirrorSource: string)

  datatype Placement = Placement(displayId: string, parentId: string, edge: nat, offset: int)

  datatype Size = Size(width: int, height: int)

  datatype Rect = Rect(x: int, y: int, width: int, height: int) {

    predicate IsEmpty() {
      width <= 0 || height <= 0
    }

    predicate Intersects(other: Rect) {
      && !IsEmpty() && !other.IsEmpty()
      && x < other.x + other.width && other.x < x + width
      && y < other.y + other.height && other.y < y + height
    }

    // The pixels of the rectangle.
    predicate Covers(px: int, py: int) {
      x <= px < x + width && y <= py < y + height
    }
  }

  /** `Intersects` is what its name says: some pixel lies in both rectangles. */
  lemma IntersectsMeansCommonPixel(a: Rect, b: Rect)
    ensures a.Intersects(b) <==> exists px, py :: a.Covers(px, py) && b.Covers(px, py)
  {
    if a.Intersects(b) {
      var px := if a.x < b.x then b.x else a.x;
      var py := if a.y < b.y then b.y else a.y;
      assert a.Covers(px, py) && b.Covers(px, py);
    }
  }

  function Id(e: Entry): string {
    e.physical.sessionId
  }

  function Abs(n: int): nat {
    if n < 0 then -n else n
  }

  function Min(a: int, b: int): int {
    if a <= b then a else b
  }

  function Max(a: int, b: int): int {
    if a >= b then a else b
  }

  // A value brought between two limits; the lower one decides where they contradict.
  function Bound(minimum: int, value: int, maximum: int): int {
    Max(minimum, Min(maximum, value))
  }

  // Division that rounds toward zero.
  function Quotient(a: int, b: int): int
    requires b > 0
  {
    if a >= 0 then a / b else -(-a / b)
  }

  // A length in pixels of a mode, in the desktop's units.
  function Scaled(pixels: int, scale120: nat): int
    requires scale120 > 0
  {
    Quotient(pixels * 120 + scale120 - 1, scale120)
  }

  function LogicalSize(e: Entry): Size
    requires e.scale120 > 0
  {
    if 0 <= e.modeIndex < |e.physical.modes| then
      var mode := e.physical.modes[e.modeIndex];
      if e.rotation % 2 == 1
      then Size(Scaled(mode.height, e.scale120), Scaled(mode.width, e.scale120))
      else Size(Scaled(mode.width, e.scale120), Scaled(mode.height, e.scale120))
    else
      Size(1, 1)
  }

  // The fewest units of the desktop that hold so many pixels: at scale 120 a unit is a pixel.
  ghost predicate FewestUnits(units: int, pixels: int, scale120: nat) {
    (units - 1) * scale120 < pixels * 120 <= units * scale120
  }

  lemma RoundedUp(a: int, b: nat)
    requires a >= 0 && b > 0
    ensures ((a + b - 1) / b - 1) * b < a <= (a + b - 1) / b * b
  {
    var q := (a + b - 1) / b;
    assert a + b - 1 == b * q + (a + b - 1) % b;
    assert (q - 1) * b == b * q - b && q * b == b * q;
  }

  lemma ScaledIsFewest(pixels: int, scale120: nat)
    requires scale120 > 0 && (pixels >= 0 || Scaled(pixels, scale120) > 0)
    ensures FewestUnits(Scaled(pixels, scale120), pixels, scale120)
  {
    var all := pixels * 120 + scale120 - 1;
    if pixels >= 0 {
      RoundedUp(pixels * 120, scale120);
    } else {
      NoUnits(all, scale120);
    }
  }

  lemma NoUnits(all: int, b: nat)
    requires b > 0 && all < b
    ensures Quotient(all, b) <= 0
  {
    if all >= 0 {
      assert all / b == 0;
    } else {
      assert -all / b >= 0;
    }
  }

  // The size of a display: its selected mode as the display is turned, scaled; one unit without a mode.
  ghost predicate Shows(e: Entry, width: int, height: int) {
    if 0 <= e.modeIndex < |e.physical.modes| then
      var mode, turned := e.physical.modes[e.modeIndex], e.rotation % 2 == 1;
      && FewestUnits(width, if turned then mode.height else mode.width, e.scale120)
      && FewestUnits(height, if turned then mode.width else mode.height, e.scale120)
    else width == 1 && height == 1
  }

  /** Every display has the size that it shows, if that is any size at all. */
  lemma SizeIsShown(e: Entry)
    requires e.scale120 > 0 && LogicalSize(e).width > 0 && LogicalSize(e).height > 0
    ensures Shows(e, LogicalSize(e).width, LogicalSize(e).height)
  {
    hide FewestUnits, Scaled;
    if 0 <= e.modeIndex < |e.physical.modes| {
      ScaledIsFewest(e.physical.modes[e.modeIndex].width, e.scale120);
      ScaledIsFewest(e.physical.modes[e.modeIndex].height, e.scale120);
    }
  }

  // A place against a parent's edge: how far it is from where the child was dragged,
  // the offset along the edge, and the child's rectangle there.
  datatype Slot = Slot(distance: int, placement: Placement, bounds: Rect)

  const NO_SLOT := Slot(INT_MAX, Placement("", "", 0, 0), Rect(0, 0, 0, 0))

  ghost predicate Scales(es: seq<Entry>) {
    forall k :: 0 <= k < |es| ==> es[k].scale120 > 0
  }

  // A display as the search sees it.
  datatype Item = Item(id: string, x: int, y: int, size: Size)

  function ItemOf(e: Entry): Item
    requires e.scale120 > 0
  {
    Item(Id(e), e.x, e.y, LogicalSize(e))
  }

  function ItemsOf(es: seq<Entry>): (items: seq<Item>)
    requires Scales(es)
    ensures |items| == |es|
    ensures forall k :: 0 <= k < |es| ==> items[k] == ItemOf(es[k])
  {
    seq(|es|, k requires 0 <= k < |es| => ItemOf(es[k]))
  }

  // Where along an edge the child goes, so that it keeps at least 32 units of it.
  function OffsetAlong(childExtent: int, parentExtent: int, cross: int): int {
    var overlap := Min(32, Min(childExtent, parentExtent));
    Bound(-childExtent + overlap, cross, parentExtent - overlap)
  }

  datatype Spot = Spot(distance: int, offset: int, bounds: Rect)

  // How far a child against an edge lies from the parent's corner, across that edge.
  function NormalOf(childSize: Size, parentSize: Size, edge: nat): int {
    if edge == 0 then -childSize.height
    else if edge == 1 then parentSize.width
    else if edge == 2 then parentSize.height
    else -childSize.width
  }

  // Edges: 0 above, 1 right, 2 below, 3 left.
  function SpotAt(x: int, y: int, childSize: Size, parentSize: Size, parentRect: Rect, edge: nat): Spot {
    var deltaX := x - parentRect.x;
    var deltaY := y - parentRect.y;
    var horizontal := edge % 2 == 1;
    var childExtent := if horizontal then childSize.height else childSize.width;
    var parentExtent := if horizontal then parentSize.height else parentSize.width;
    var cross := if horizontal then deltaY else deltaX;
    var offset := OffsetAlong(childExtent, parentExtent, cross);
    var normal := NormalOf(childSize, parentSize, edge);
    Spot(Abs((if horizontal then deltaX else deltaY) - normal) + Abs(cross - offset),
         offset,
         Rect(parentRect.x + (if horizontal then normal else offset),
              parentRect.y + (if horizontal then offset else normal),
              childSize.width, childSize.height))
  }

  function SlotAt(child: Item, parent: Item, parentRect: Rect, edge: nat): Slot
  {
    var spot := SpotAt(child.x, child.y, child.size, parent.size, parentRect, edge);
    Slot(spot.distance, Placement(child.id, parent.id, edge, spot.offset), spot.bounds)
  }

  predicate Free(resolved: map<string, Rect>, bounds: Rect) {
    forall id :: id in resolved ==> !resolved[id].Intersects(bounds)
  }

  // A display without a rectangle yet has an empty one.
  function RectOf(resolved: map<string, Rect>, id: string): Rect {
    if id in resolved then resolved[id] else Rect(0, 0, 0, 0)
  }

  // The slots against one parent, in the order of its edges.
  ghost function EdgeSlots(child: Item, parent: Item, parentRect: Rect): (slots: seq<Slot>)
    ensures |slots| == 4
    ensures forall edge :: 0 <= edge < 4 ==> slots[edge] == SlotAt(child, parent, parentRect, edge)
  {
    [SlotAt(child, parent, parentRect, 0), SlotAt(child, parent, parentRect, 1),
     SlotAt(child, parent, parentRect, 2), SlotAt(child, parent, parentRect, 3)]
  }

  // All slots, in the order the search visits them.
  ghost function Slots(child: Item, placed: seq<Item>, resolved: map<string, Rect>): (slots: seq<Slot>)
    ensures |slots| == 4 * |placed|
  {
    if placed == [] then []
    else
      var parent := placed[|placed| - 1];
      Slots(child, placed[..|placed| - 1], resolved) + EdgeSlots(child, parent, RectOf(resolved, parent.id))
  }

  lemma {:induction false} SlotsAt(child: Item, placed: seq<Item>, resolved: map<string, Rect>, k: nat, edge: nat)
    requires k < |placed| && edge < 4
    ensures Slots(child, placed, resolved)[4 * k + edge] ==
            SlotAt(child, placed[k], RectOf(resolved, placed[k].id), edge)
  {
    if k < |placed| - 1 {
      SlotsAt(child, placed[..|placed| - 1], resolved, k, edge);
    }
  }

  // What the search holds after the slots seen so far.
  ghost function Nearest(slots: seq<Slot>, resolved: map<string, Rect>): Slot {
    if slots == [] then NO_SLOT
    else
      var best := Nearest(slots[..|slots| - 1], resolved);
      var slot := slots[|slots| - 1];
      if Free(resolved, slot.bounds) && slot.distance < best.distance then slot else best
  }

  // Slot k is free, no free slot is nearer, and no earlier free slot is as near.
  ghost predicate FirstNearest(slots: seq<Slot>, resolved: map<string, Rect>, k: nat)
    requires k < |slots|
  {
    && Free(resolved, slots[k].bounds)
    && forall j :: 0 <= j < |slots| && Free(resolved, slots[j].bounds) ==>
         slots[k].distance <= slots[j].distance && (j < k ==> slots[k].distance < slots[j].distance)
  }

  /** The search ends without a slot exactly when no free slot is nearer than INT_MAX;
      otherwise it holds the first of the nearest free slots. */
  lemma {:induction false} NearestIsFirstNearest(slots: seq<Slot>, resolved: map<string, Rect>)
    ensures var best := Nearest(slots, resolved);
            if forall j :: 0 <= j < |slots| && Free(resolved, slots[j].bounds) ==> slots[j].distance >= INT_MAX
            then best == NO_SLOT
            else best.distance < INT_MAX
                 && exists k :: 0 <= k < |slots| && best == slots[k] && FirstNearest(slots, resolved, k)
  {
    if slots != [] {
      var last := |slots| - 1;
      NearestIsFirstNearest(slots[..last], resolved);
      var before := Nearest(slots[..last], resolved);
      if Free(resolved, slots[last].bounds) && slots[last].distance < before.distance {
        assert FirstNearest(slots, resolved, last);
      } else if before.distance < INT_MAX {
        var k :| 0 <= k < last && before == slots[..last][k] && FirstNearest(slots[..last], resolved, k);
        assert FirstNearest(slots, resolved, k);
      }
    }
  }

  // ----- The whole layout -----

  datatype Layout = Layout(placements: seq<Placement>, placed: seq<Item>, resolved: map<string, Rect>)

  function Start(root: Item): Layout {
    Layout([], [root], map[root.id := Rect(root.x, root.y, root.size.width, root.size.height)])
  }

  ghost function Best(l: Layout, child: Item): Slot {
    Nearest(Slots(child, l.placed, l.resolved), l.resolved)
  }

  ghost function Place(l: Layout, child: Item): Layout {
    var best := Best(l, child);
    Layout(l.placements + [best.placement], l.placed + [child], l.resolved[child.id := best.bounds])
  }

  // The layout once every display of `shown` has its place, in that order.
  ghost function Arrange(root: Item, shown: seq<Item>): (l: Layout)
    ensures |l.placements| == |shown|
    decreases |shown|
  {
    if shown == [] then Start(root)
    else Place(Arrange(root, shown[..|shown| - 1]), shown[|shown| - 1])
  }

  // Every placed display has a rectangle, and no other display has one.
  ghost predicate Consistent(l: Layout) {
    && (forall k :: 0 <= k < |l.placed| ==> l.placed[k].id in l.resolved)
    && forall id :: id in l.resolved ==> exists k :: 0 <= k < |l.placed| && id == l.placed[k].id
  }

  lemma PlaceKeepsConsistent(l: Layout, child: Item)
    requires Consistent(l)
    ensures Consistent(Place(l, child))
  {
    var placed := Place(l, child).placed;
    assert placed[|l.placed|] == child;
    assert forall k :: 0 <= k < |l.placed| ==> placed[k] == l.placed[k];
  }

  lemma {:induction false} ArrangeIsConsistent(root: Item, shown: seq<Item>)
    ensures var l := Arrange(root, shown);
            Consistent(l) && l.placed == [root] + shown && |l.placements| == |shown|
    decreases |shown|
  {
    hide Best;
    if shown == [] {
      assert Start(root).placed[0] == root;
    } else {
      ArrangeIsConsistent(root, shown[..|shown| - 1]);
      PlaceKeepsConsistent(Arrange(root, shown[..|shown| - 1]), shown[|shown| - 1]);
    }
  }

  ghost predicate Disjoint(resolved: map<string, Rect>) {
    forall a, b :: a in resolved && b in resolved && a != b ==> !resolved[a].Intersects(resolved[b])
  }

  /** No two displays of a layout share a pixel, whatever the sizes and positions. */
  lemma {:induction false} LayoutIsDisjoint(root: Item, shown: seq<Item>)
    ensures Disjoint(Arrange(root, shown).resolved)
    decreases |shown|
  {
    if shown != [] {
      LayoutIsDisjoint(root, shown[..|shown| - 1]);
      PlaceKeepsDisjoint(Arrange(root, shown[..|shown| - 1]), shown[|shown| - 1]);
    }
  }

  lemma AddKeepsDisjoint(resolved: map<string, Rect>, id: string, bounds: Rect)
    requires Disjoint(resolved) && Free(resolved, bounds)
    ensures Disjoint(resolved[id := bounds])
  {
    assert forall r: Rect :: r.Intersects(bounds) <==> bounds.Intersects(r);
  }

  lemma BestIsFree(l: Layout, child: Item)
    ensures Free(l.resolved, Best(l, child).bounds)
  {
    NearestIsFirstNearest(Slots(child, l.placed, l.resolved), l.resolved);
  }

  lemma PlaceKeepsDisjoint(l: Layout, child: Item)
    requires Disjoint(l.resolved)
    ensures Disjoint(Place(l, child).resolved)
  {
    BestIsFree(l, child);
    AddKeepsDisjoint(l.resolved, child.id, Best(l, child).bounds);
  }

  // ----- The slot that is always free -----

  // A placed display that none of the others reaches above.
  lemma TopmostExists(l: Layout) returns (top: nat)
    requires Consistent(l) && l.placed != []
    ensures top < |l.placed|
    ensures forall id :: id in l.resolved ==> RectOf(l.resolved, l.placed[top].id).y <= l.resolved[id].y
  {
    top := 0;
    for k := 1 to |l.placed|
      invariant top < |l.placed|
      invariant forall j :: 0 <= j < k ==>
                  RectOf(l.resolved, l.placed[top].id).y <= RectOf(l.resolved, l.placed[j].id).y
    {
      if RectOf(l.resolved, l.placed[k].id).y < RectOf(l.resolved, l.placed[top].id).y {
        top := k;
      }
    }
  }

  // The slot above the topmost display is free: everything else starts below it.
  lemma AboveTopmostIsFree(l: Layout, child: Item, top: nat)
    requires Consistent(l) && top < |l.placed|
    requires forall id :: id in l.resolved ==> RectOf(l.resolved, l.placed[top].id).y <= l.resolved[id].y
    ensures var slots := Slots(child, l.placed, l.resolved);
            && Free(l.resolved, slots[4 * top].bounds)
            && slots[4 * top] == SlotAt(child, l.placed[top], RectOf(l.resolved, l.placed[top].id), 0)
  {
    SlotsAt(child, l.placed, l.resolved, top, 0);
  }

  // ----- Drafts with room in an int: every display finds its slot -----

  predicate Positive(item: Item) {
    item.size.width > 0 && item.size.height > 0
  }

  function Extent(item: Item): int {
    item.size.width + item.size.height
  }

  function TotalExtent(items: seq<Item>): int {
    if items == [] then 0 else TotalExtent(items[..|items| - 1]) + Extent(items[|items| - 1])
  }

  ghost predicate DraggedWithin(items: seq<Item>, p: nat) {
    forall k :: 0 <= k < |items| ==> Abs(items[k].x) <= p && Abs(items[k].y) <= p
  }

  // Positions up to p and these sizes keep every value of the search inside an int.
  ghost predicate Compact(items: seq<Item>, p: nat) {
    && (forall k :: 0 <= k < |items| ==> Positive(items[k]))
    && DraggedWithin(items, p)
    && 4 * p + 2 * TotalExtent(items) < INT_MAX
  }

  // The rectangle has the size of its display and stays within `reach` of the origin.
  ghost predicate Within(r: Rect, size: Size, reach: int) {
    && r.width == size.width > 0 && r.height == size.height > 0
    && -reach <= r.x && r.x + r.width <= reach
    && -reach <= r.y && r.y + r.height <= reach
  }

  // A display touches the parent's edge, over at least 32 units or all of the shorter one.
  ghost predicate Touches(bounds: Rect, parent: Rect, edge: nat) {
    var across := if edge % 2 == 1
                  then Min(bounds.y + bounds.height, parent.y + parent.height) - Max(bounds.y, parent.y)
                  else Min(bounds.x + bounds.width, parent.x + parent.width) - Max(bounds.x, parent.x);
    var least := if edge % 2 == 1 then Min(bounds.height, parent.height) else Min(bounds.width, parent.width);
    && across >= Min(32, least)
    && match edge
       case 0 => bounds.y + bounds.height == parent.y
       case 1 => bounds.x == parent.x + parent.width
       case 2 => bounds.y == parent.y + parent.height
       case _ => bounds.x + bounds.width == parent.x
  }

  // The offset keeps the least overlap, measured along the edge from the parent's start.
  lemma OffsetOverlaps(childExtent: int, parentExtent: int, cross: int)
    requires childExtent > 0 && parentExtent > 0
    ensures var offset := OffsetAlong(childExtent, parentExtent, cross);
            && -childExtent < offset < parentExtent
            && Min(offset + childExtent, parentExtent) - Max(offset, 0) >= Min(32, Min(childExtent, parentExtent))
            && Abs(cross - offset) <= Abs(cross) + Max(childExtent, parentExtent)
  {
  }

  /** No offset that keeps the overlap is nearer to where the child was dragged. */
  lemma OffsetIsNearest(childExtent: int, parentExtent: int, cross: int, offset: int)
    requires childExtent > 0 && parentExtent > 0
    requires Min(offset + childExtent, parentExtent) - Max(offset, 0) >= Min(32, Min(childExtent, parentExtent))
    ensures Abs(cross - OffsetAlong(childExtent, parentExtent, cross)) <= Abs(cross - offset)
  {
  }

  lemma SpotTouches(x: int, y: int, childSize: Size, parentSize: Size, r: Rect, edge: nat)
    requires edge < 4 && childSize.width > 0 && childSize.height > 0
    requires r.width == parentSize.width > 0 && r.height == parentSize.height > 0
    ensures Touches(SpotAt(x, y, childSize, parentSize, r, edge).bounds, r, edge)
  {
    OffsetOverlaps(childSize.height, parentSize.height, y - r.y);
    OffsetOverlaps(childSize.width, parentSize.width, x - r.x);
  }

  // A spot stays in the room that both displays need.
  lemma SpotWithin(x: int, y: int, childSize: Size, parentSize: Size, r: Rect, edge: nat, reach: int)
    requires edge < 4 && childSize.width > 0 && childSize.height > 0
    requires Within(r, parentSize, reach)
    ensures Within(SpotAt(x, y, childSize, parentSize, r, edge).bounds, childSize,
            reach + childSize.width + childSize.height)
  {
    OffsetOverlaps(childSize.height, parentSize.height, y - r.y);
    OffsetOverlaps(childSize.width, parentSize.width, x - r.x);
  }

  // The distance is the way from where the display was to where the spot puts it.
  lemma SpotDistanceIs(x: int, y: int, childSize: Size, parentSize: Size, r: Rect, edge: nat)
    ensures var spot := SpotAt(x, y, childSize, parentSize, r, edge);
            spot.distance == Abs(x - spot.bounds.x) + Abs(y - spot.bounds.y)
  {
  }

  lemma SpotStarts(x: int, y: int, childSize: Size, parentSize: Size, r: Rect, edge: nat, reach: int)
    requires edge < 4 && childSize.width > 0 && childSize.height > 0
    requires Within(r, parentSize, reach)
    ensures var bounds := SpotAt(x, y, childSize, parentSize, r, edge).bounds;
            -reach - childSize.width <= bounds.x <= reach && -reach - childSize.height <= bounds.y <= reach
  {
    OffsetOverlaps(childSize.height, parentSize.height, y - r.y);
    OffsetOverlaps(childSize.width, parentSize.width, x - r.x);
  }

  lemma WayBound(a: int, b: int, p: nat, reach: int, extent: int)
    requires Abs(a) <= p && -reach - extent <= b <= reach && extent > 0
    ensures Abs(a - b) <= p + reach + extent
  {
  }

  lemma SpotDistance(x: int, y: int, childSize: Size, parentSize: Size, r: Rect, edge: nat, p: nat, reach: int)
    requires edge < 4 && childSize.width > 0 && childSize.height > 0
    requires Within(r, parentSize, reach)
    requires Abs(x) <= p && Abs(y) <= p
    ensures 0 <= SpotAt(x, y, childSize, parentSize, r, edge).distance
              <= 2 * (p + reach) + childSize.width + childSize.height
  {
    SpotDistanceIs(x, y, childSize, parentSize, r, edge);
    SpotStarts(x, y, childSize, parentSize, r, edge, reach);
    var bounds := SpotAt(x, y, childSize, parentSize, r, edge).bounds;
    hide SpotAt, Within;
    WayBound(x, bounds.x, p, reach, childSize.width);
    WayBound(y, bounds.y, p, reach, childSize.height);
  }

  lemma DeltaBound(a: int, b: int, p: nat, reach: int)
    requires Abs(a) <= p && -reach <= b <= reach
    ensures Abs(a - b) <= p + reach
  {
  }

  // Every rectangle has its display's size and lies within reach of the origin.
  ghost predicate Fits(l: Layout, reach: int) {
    forall k :: 0 <= k < |l.placed| ==>
      Within(RectOf(l.resolved, l.placed[k].id), l.placed[k].size, reach) && Extent(l.placed[k]) <= reach
  }

  // Where a placement puts a display, given the rectangle of its parent.
  function Attached(parent: Rect, size: Size, edge: nat, offset: int): Rect {
    match edge
    case 0 => Rect(parent.x + offset, parent.y - size.height, size.width, size.height)
    case 1 => Rect(parent.x + parent.width, parent.y + offset, size.width, size.height)
    case 2 => Rect(parent.x + offset, parent.y + parent.height, size.width, size.height)
    case _ => Rect(parent.x - size.width, parent.y + offset, size.width, size.height)
  }

  // Placement p is that of the display `child`, against one of the displays before it.
  ghost predicate Attaches(placed: seq<Item>, resolved: map<string, Rect>, child: Item, p: Placement) {
    && p.displayId == child.id && p.edge < 4
    && (exists j :: 0 <= j < |placed| && p.parentId == placed[j].id)
    && p.parentId in resolved && child.id in resolved
    && resolved[child.id] == Attached(resolved[p.parentId], child.size, p.edge, p.offset)
    && Touches(resolved[child.id], resolved[p.parentId], p.edge)
  }

  // A free slot nearer than INT_MAX keeps the search from ending without one.
  lemma SomeSlotIsNearest(slots: seq<Slot>, resolved: map<string, Rect>, m: nat) returns (n: nat)
    requires m < |slots| && Free(resolved, slots[m].bounds) && slots[m].distance < INT_MAX
    ensures n < |slots| && Nearest(slots, resolved) == slots[n]
  {
    NearestIsFirstNearest(slots, resolved);
    n :| n < |slots| && Nearest(slots, resolved) == slots[n];
  }

  // With room in an int, the search ends with a slot against a placed display.
  lemma BestIsASlot(l: Layout, child: Item, p: nat, reach: int) returns (j: nat, edge: nat)
    requires Positive(child) && Abs(child.x) <= p && Abs(child.y) <= p
    requires Consistent(l) && l.placed != [] && Fits(l, reach)
    requires 2 * p + 2 * reach + Extent(child) < INT_MAX
    ensures j < |l.placed| && edge < 4
    ensures Best(l, child) == SlotAt(child, l.placed[j], RectOf(l.resolved, l.placed[j].id), edge)
  {
    hide SpotAt, Slots, Nearest, Abs, Free;
    var top := TopmostExists(l);
    AboveTopmostIsFree(l, child, top);
    SpotDistance(child.x, child.y, child.size, l.placed[top].size, RectOf(l.resolved, l.placed[top].id), 0, p, reach);
    var n := SomeSlotIsNearest(Slots(child, l.placed, l.resolved), l.resolved, 4 * top);
    j, edge := n / 4, n % 4;
    SlotsAt(child, l.placed, l.resolved, j, edge);
  }

  lemma SlotIsAttached(child: Item, parent: Item, r: Rect, edge: nat)
    requires edge < 4 && r.width == parent.size.width && r.height == parent.size.height
    ensures var slot := SlotAt(child, parent, r, edge);
            slot.bounds == Attached(r, child.size, edge, slot.placement.offset)
  {
  }

  /** One step: with room in an int, the new display finds a free slot and keeps to it. */
  lemma PlaceAttaches(l: Layout, child: Item, p: nat, reach: int)
    requires Positive(child) && Abs(child.x) <= p && Abs(child.y) <= p
    requires Consistent(l) && l.placed != [] && Fits(l, reach)
    requires child.id !in l.resolved
    requires 2 * p + 2 * reach + Extent(child) < INT_MAX
    ensures var r := Place(l, child);
            Fits(r, reach + Extent(child)) && Attaches(l.placed, r.resolved, child, r.placements[|l.placements|])
  {
    hide Best, SpotAt, Touches, Attached;
    var j, edge := BestIsASlot(l, child, p, reach);
    var parent := l.placed[j];
    var parentRect := RectOf(l.resolved, parent.id);
    SpotTouches(child.x, child.y, child.size, parent.size, parentRect, edge);
    SpotWithin(child.x, child.y, child.size, parent.size, parentRect, edge, reach);
    SlotIsAttached(child, parent, parentRect, edge);
  }

  // ----- Main results -----

  ghost predicate DistinctItems(items: seq<Item>) {
    forall i, j :: 0 <= i < j < |items| ==> items[i].id != items[j].id
  }

  lemma {:induction false} TotalExtentGrows(items: seq<Item>, k: nat)
    requires forall i :: 0 <= i < |items| ==> Positive(items[i])
    requires k <= |items|
    ensures 0 <= TotalExtent(items[..k]) <= TotalExtent(items)
    decreases |items|
  {
    if k < |items| {
      assert items[..|items| - 1][..k] == items[..k];
      TotalExtentGrows(items[..|items| - 1], k);
    } else {
      assert items[..k] == items;
      if items != [] {
        TotalExtentGrows(items[..|items| - 1], |items| - 1);
      }
    }
  }

  // A display added later moves none of those before it.
  lemma AttachesStays(placed: seq<Item>, resolved: map<string, Rect>, child: Item, p: Placement, id: string,
      bounds: Rect)
    requires Attaches(placed, resolved, child, p)
    requires id != child.id && id != p.parentId
    ensures Attaches(placed, resolved[id := bounds], child, p)
  {
  }

  // The first n displays of the list are attached.
  ghost predicate AllAttached(root: Item, shown: seq<Item>, resolved: map<string, Rect>, placements: seq<Placement>,
      n: nat)
    requires n <= |shown| && n <= |placements|
  {
    forall k :: 0 <= k < n ==> Attaches([root] + shown[..k], resolved, shown[k], placements[k])
  }

  lemma AllAttachedStays(root: Item, shown: seq<Item>, l: Layout, best: Slot)
    requires shown != [] && DistinctItems([root] + shown)
    requires |l.placements| == |shown| - 1
    requires AllAttached(root, shown[..|shown| - 1], l.resolved, l.placements, |shown| - 1)
    ensures AllAttached(root, shown, l.resolved[shown[|shown| - 1].id := best.bounds],
                        l.placements + [best.placement], |shown| - 1)
  {
    hide Touches, Attached;
    var last := |shown| - 1;
    var items := [root] + shown;
    forall k | 0 <= k < last
      ensures Attaches([root] + shown[..k], l.resolved[shown[last].id := best.bounds], shown[k],
              (l.placements + [best.placement])[k])
    {
      var before := [root] + shown[..k];
      assert shown[..last][..k] == shown[..k];
      assert items[last + 1] == shown[last] && items[k + 1] == shown[k];
      assert forall j :: 0 <= j < |before| ==> before[j] == items[j];
      AttachesStays(before, l.resolved, shown[k], l.placements[k], shown[last].id, best.bounds);
    }
  }

  lemma LastIsNew(root: Item, shown: seq<Item>)
    requires shown != [] && DistinctItems([root] + shown)
    ensures shown[|shown| - 1].id !in Arrange(root, shown[..|shown| - 1]).resolved
  {
    hide Best;
    var earlier := shown[..|shown| - 1];
    var items := [root] + shown;
    ArrangeIsConsistent(root, earlier);
    assert items[|shown|] == shown[|shown| - 1];
    assert forall j :: 0 <= j < |[root] + earlier| ==> ([root] + earlier)[j] == items[j];
  }

  lemma CompactStep(items: seq<Item>, p: nat)
    requires Compact(items, p) && |items| > 1
    ensures var before, child := items[..|items| - 1], items[|items| - 1];
            && Compact(before, p) && Positive(child) && Abs(child.x) <= p && Abs(child.y) <= p
            && p + TotalExtent(before) + Extent(child) == p + TotalExtent(items)
            && 2 * p + 2 * (p + TotalExtent(before)) + Extent(child) < INT_MAX
  {
    TotalExtentGrows(items, |items| - 1);
    TotalExtentGrows(items, 0);
  }

  lemma StartFits(root: Item, p: nat)
    requires Compact([root], p)
    ensures Fits(Start(root), p + TotalExtent([root]))
  {
    assert [root][..0] == [] && TotalExtent([root]) == Extent(root);
  }

  /** The search never fails: with distinct ids and room in an int, every display is put
      against the edge of the root or of a display shown before it, and touches that edge
      over at least 32 units or the whole of the shorter of the two. */
  lemma {:induction false} EveryDisplayIsAttached(root: Item, shown: seq<Item>, p: nat)
    requires Compact([root] + shown, p) && DistinctItems([root] + shown)
    ensures var l := Arrange(root, shown);
            && Fits(l, p + TotalExtent([root] + shown))
            && AllAttached(root, shown, l.resolved, l.placements, |shown|)
    decreases |shown|
  {
    hide Best, Fits, Attaches, Compact, TotalExtent, Extent, Consistent, Positive;
    var items := [root] + shown;
    if shown == [] {
      assert items == [root];
      StartFits(root, p);
    } else {
      var last := |shown| - 1;
      var earlier, child := shown[..last], shown[last];
      assert items[..|items| - 1] == [root] + earlier && items[|items| - 1] == child;
      CompactStep(items, p);
      EveryDisplayIsAttached(root, earlier, p);
      ArrangeIsConsistent(root, earlier);
      LastIsNew(root, shown);
      var l := Arrange(root, earlier);
      var reach := p + TotalExtent([root] + earlier);
      PlaceAttaches(l, child, p, reach);
      assert Arrange(root, shown) == Place(l, child);
      assert reach + Extent(child) == p + TotalExtent(items);
      AllAttachedStays(root, shown, l, Best(l, child));
    }
  }

  /** The root stays where it is. */
  lemma {:induction false} RootStays(root: Item, shown: seq<Item>)
    requires DistinctItems([root] + shown)
    ensures root.id in Arrange(root, shown).resolved
    ensures Arrange(root, shown).resolved[root.id] == Rect(root.x, root.y, root.size.width, root.size.height)
    decreases |shown|
  {
    hide Best;
    if shown != [] {
      var last := |shown| - 1;
      PrefixIsDistinct(root, shown, last);
      assert ([root] + shown)[0] == root && ([root] + shown)[last + 1] == shown[last];
      RootStays(root, shown[..last]);
    }
  }

  lemma {:induction false} ArrangedStepByStep(root: Item, shown: seq<Item>, k: nat)
    requires k < |shown|
    ensures Arrange(root, shown).placements[k] == Best(Arrange(root, shown[..k]), shown[k]).placement
    decreases |shown|
  {
    hide Best;
    var last := |shown| - 1;
    if k < last {
      ArrangedStepByStep(root, shown[..last], k);
      assert shown[..last][..k] == shown[..k];
    }
  }

  /** The placement of each display is the first of the nearest slots that the displays
      before it leave free; it is missing only when all of those are INT_MAX away. */
  lemma EveryDisplayIsNearest(root: Item, shown: seq<Item>, k: nat)
    requires k < |shown|
    ensures var before := Arrange(root, shown[..k]);
            var slots := Slots(shown[k], before.placed, before.resolved);
            var placement := Arrange(root, shown).placements[k];
            if exists j :: 0 <= j < |slots| && Free(before.resolved, slots[j].bounds) && slots[j].distance < INT_MAX
            then exists n ::
                   0 <= n < |slots| && placement == slots[n].placement && FirstNearest(slots, before.resolved, n)
            else placement == NO_SLOT.placement
  {
    ArrangedStepByStep(root, shown, k);
    var before := Arrange(root, shown[..k]);
    NearestIsFirstNearest(Slots(shown[k], before.placed, before.resolved), before.resolved);
  }

  // ----- The search in 32-bit integers -----

  predicate InInt(n: int) {
    INT_MIN <= n <= INT_MAX
  }

  // The clamp along an edge, and how far it moves the child.
  predicate ClampInInt(childExtent: int, parentExtent: int, cross: int) {
    var overlap := Min(32, Min(childExtent, parentExtent));
    var offset := OffsetAlong(childExtent, parentExtent, cross);
    && InInt(cross) && InInt(-childExtent) && InInt(-childExtent + overlap) && InInt(parentExtent - overlap)
    && InInt(cross - offset) && InInt(Abs(cross - offset))
  }

  // How far the child is moved across the edge.
  predicate AcrossInInt(along: int, normal: int) {
    InInt(along) && InInt(normal) && InInt(along - normal) && InInt(Abs(along - normal))
  }

  // All that is computed for a slot, with the far corner that the test for overlaps needs.
  ghost predicate SlotInInt(child: Item, parent: Item, r: Rect, edge: nat) {
    var deltaX, deltaY := child.x - r.x, child.y - r.y;
    var normal := NormalOf(child.size, parent.size, edge);
    var spot := SpotAt(child.x, child.y, child.size, parent.size, r, edge);
    && InInt(spot.distance) && RectInInt(spot.bounds)
    && if edge % 2 == 1
       then ClampInInt(child.size.height, parent.size.height, deltaY) && AcrossInInt(deltaX, normal)
       else ClampInInt(child.size.width, parent.size.width, deltaX) && AcrossInInt(deltaY, normal)
  }

  predicate RectInInt(r: Rect) {
    InInt(r.x) && InInt(r.y) && InInt(r.x + r.width) && InInt(r.y + r.height)
  }

  // No slot of the search for one more display leaves the 32-bit integers.
  ghost predicate SearchInInt(l: Layout, child: Item) {
    && (forall id :: id in l.resolved ==> RectInInt(l.resolved[id]))
    && forall k, edge :: 0 <= k < |l.placed| && 0 <= edge < 4 ==>
         SlotInInt(child, l.placed[k], RectOf(l.resolved, l.placed[k].id), edge)
  }

  lemma ClampFits(childExtent: int, parentExtent: int, cross: int)
    requires childExtent > 0 && parentExtent > 0 && Abs(cross) + childExtent + parentExtent <= INT_MAX
    ensures ClampInInt(childExtent, parentExtent, cross)
  {
  }

  lemma AcrossFits(along: int, childSize: Size, parentSize: Size, edge: nat)
    requires edge < 4 && childSize.width > 0 && childSize.height > 0 && parentSize.width > 0 && parentSize.height > 0
    requires Abs(along) + childSize.width + childSize.height + parentSize.width + parentSize.height <= INT_MAX
    ensures AcrossInInt(along, NormalOf(childSize, parentSize, edge))
  {
  }

  lemma WithinFits(r: Rect, size: Size, reach: int)
    requires Within(r, size, reach) && 0 <= reach <= INT_MAX
    ensures RectInInt(r)
  {
  }

  lemma SlotFits(child: Item, parent: Item, r: Rect, edge: nat, p: nat, reach: int)
    requires edge < 4 && Positive(child) && Abs(child.x) <= p && Abs(child.y) <= p
    requires Within(r, parent.size, reach) && Extent(parent) <= reach
    requires 2 * p + 2 * reach + Extent(child) < INT_MAX
    ensures SlotInInt(child, parent, r, edge)
    ensures SlotAt(child, parent, r, edge).distance < INT_MAX
  {
    var c, q := child.size, parent.size;
    hide SpotAt, OffsetAlong, NormalOf, Abs, Min, ClampInInt, AcrossInInt, RectInInt;
    SpotDistance(child.x, child.y, c, q, r, edge, p, reach);
    SpotWithin(child.x, child.y, c, q, r, edge, reach);
    WithinFits(SpotAt(child.x, child.y, c, q, r, edge).bounds, c, reach + Extent(child));
    DeltaBound(child.x, r.x, p, reach);
    DeltaBound(child.y, r.y, p, reach);
    if edge % 2 == 1 {
      ClampFits(c.height, q.height, child.y - r.y);
      AcrossFits(child.x - r.x, c, q, edge);
    } else {
      ClampFits(c.width, q.width, child.x - r.x);
      AcrossFits(child.y - r.y, c, q, edge);
    }
  }

  lemma SearchFits(l: Layout, child: Item, p: nat, reach: int)
    requires Consistent(l) && Fits(l, reach)
    requires Positive(child) && Abs(child.x) <= p && Abs(child.y) <= p
    requires 2 * p + 2 * reach + Extent(child) < INT_MAX
    ensures SearchInInt(l, child)
  {
    hide SlotInInt, Abs, Positive;
    forall k, edge | 0 <= k < |l.placed| && 0 <= edge < 4
      ensures SlotInInt(child, l.placed[k], RectOf(l.resolved, l.placed[k].id), edge)
    {
      SlotFits(child, l.placed[k], RectOf(l.resolved, l.placed[k].id), edge, p, reach);
    }
    forall id | id in l.resolved
      ensures RectInInt(l.resolved[id])
    {
      var k :| 0 <= k < |l.placed| && id == l.placed[k].id;
      assert Within(RectOf(l.resolved, l.placed[k].id), l.placed[k].size, reach);
      assert Extent(child) > 0 by {
        PositiveExtent(child);
      }
    }
  }

  lemma PositiveExtent(item: Item)
    requires Positive(item)
    ensures Extent(item) > 0
  {
  }

  // The first displays of a list that has room have room.
  lemma {:induction false} CompactPrefix(items: seq<Item>, p: nat, n: nat)
    requires Compact(items, p) && 0 < n <= |items|
    ensures Compact(items[..n], p)
    decreases |items|
  {
    if n < |items| {
      CompactStep(items, p);
      CompactPrefix(items[..|items| - 1], p, n);
      assert items[..|items| - 1][..n] == items[..n];
    } else {
      assert items[..n] == items;
    }
  }

  // What is known when the display k of the list is placed.
  lemma RoomBefore(root: Item, shown: seq<Item>, p: nat, k: nat) returns (reach: int)
    requires Compact([root] + shown, p) && DistinctItems([root] + shown) && k < |shown|
    ensures var l := Arrange(root, shown[..k]);
            Consistent(l) && l.placed != [] && Fits(l, reach)
    ensures Positive(shown[k]) && Abs(shown[k].x) <= p && Abs(shown[k].y) <= p
    ensures 2 * p + 2 * reach + Extent(shown[k]) < INT_MAX
  {
    hide *;
    PrefixHasRoom(root, shown, p, k);
    PrefixIsDistinct(root, shown, k);
    EveryDisplayIsAttached(root, shown[..k], p);
    ArrangeIsConsistent(root, shown[..k]);
    reach := p + TotalExtent([root] + shown[..k]);
  }

  lemma PrefixHasRoom(root: Item, shown: seq<Item>, p: nat, k: nat)
    requires Compact([root] + shown, p) && k < |shown|
    ensures Compact([root] + shown[..k], p)
    ensures Positive(shown[k]) && Abs(shown[k].x) <= p && Abs(shown[k].y) <= p
    ensures 2 * p + 2 * (p + TotalExtent([root] + shown[..k])) + Extent(shown[k]) < INT_MAX
  {
    hide Compact, TotalExtent, Extent, Positive;
    var items := [root] + shown;
    CompactPrefix(items, p, k + 2);
    CompactStep(items[..k + 2], p);
    assert items[..k + 2][..k + 1] == [root] + shown[..k] && items[..k + 2][k + 1] == shown[k];
  }

  lemma PrefixIsDistinct(root: Item, shown: seq<Item>, k: nat)
    requires DistinctItems([root] + shown) && k <= |shown|
    ensures DistinctItems([root] + shown[..k])
  {
    var items, less := [root] + shown, [root] + shown[..k];
    assert forall i :: 0 <= i < |less| ==> less[i] == items[i];
  }

  /** With room in an int nothing overflows: each search computes in 32-bit integers what it
      computes here, and ends with the first of the nearest free slots. */
  lemma EverySearchFits(root: Item, shown: seq<Item>, p: nat, k: nat)
    requires Compact([root] + shown, p) && DistinctItems([root] + shown) && k < |shown|
    ensures var before := Arrange(root, shown[..k]);
            var slots := Slots(shown[k], before.placed, before.resolved);
            && SearchInInt(before, shown[k])
            && exists n :: 0 <= n < |slots| && Arrange(root, shown).placements[k] == slots[n].placement
                           && FirstNearest(slots, before.resolved, n)
  {
    hide SearchInInt, Fits, Compact, Abs, Positive, SpotAt, Best, Free;
    var before, child := Arrange(root, shown[..k]), shown[k];
    var reach := RoomBefore(root, shown, p, k);
    SearchFits(before, child, p, reach);
    var top := TopmostExists(before);
    AboveTopmostIsFree(before, child, top);
    TopIsNear(before, child, top, p, reach);
    EveryDisplayIsNearest(root, shown, k);
  }

  lemma TopIsNear(l: Layout, child: Item, top: nat, p: nat, reach: int)
    requires Consistent(l) && Fits(l, reach) && top < |l.placed|
    requires Positive(child) && Abs(child.x) <= p && Abs(child.y) <= p
    requires 2 * p + 2 * reach + Extent(child) < INT_MAX
    ensures Slots(child, l.placed, l.resolved)[4 * top].distance < INT_MAX
  {
    hide SpotAt, Slots, Abs, Positive, SlotInInt;
    SlotsAt(child, l.placed, l.resolved, top, 0);
    SlotFits(child, l.placed[top], RectOf(l.resolved, l.placed[top].id), 0, p, reach);
  }

  // Two displays of one unit, dragged p away from the origin in opposite directions.
  function Corner(id: string, p: int): Item {
    Item(id, p, p, Size(1, 1))
  }

  /** The room is needed, up to the displays' own extents: with two such displays the search stays
      within 32-bit integers exactly while the distance of the slot on the far side, 4 * p + 1, is
      one, and there is room exactly while 4 * p + 8 is less than the largest. */
  lemma OppositeCorners(p: int)
    requires p >= 0
    ensures SearchInInt(Start(Corner("a", -p)), Corner("b", p)) <==> InInt(4 * p + 1)
    ensures Compact([Corner("a", -p), Corner("b", p)], p) <==> 4 * p + 8 < INT_MAX
  {
    hide SearchInInt, Compact;
    CornersSearched(p);
    CornersCompact(p);
  }

  lemma CornersSearched(p: int)
    requires p >= 0
    ensures SearchInInt(Start(Corner("a", -p)), Corner("b", p)) <==> InInt(4 * p + 1)
  {
    hide SlotInInt, SpotAt;
    var root, child := Corner("a", -p), Corner("b", p);
    var l := Start(root);
    assert l.placed == [root] && RectOf(l.resolved, root.id) == Rect(-p, -p, 1, 1);
    CornerSlot(p, 0);
    CornerSlot(p, 1);
    CornerSlot(p, 2);
    CornerSlot(p, 3);
    assert SearchInInt(l, child) ==> SlotInInt(child, l.placed[0], RectOf(l.resolved, l.placed[0].id), 3);
  }

  lemma CornersCompact(p: int)
    requires p >= 0
    ensures Compact([Corner("a", -p), Corner("b", p)], p) <==> 4 * p + 8 < INT_MAX
  {
    var root, child := Corner("a", -p), Corner("b", p);
    assert [root, child][..1] == [root] && [root][..0] == [];
    assert TotalExtent([root]) == 2 && TotalExtent([root, child]) == 4;
    assert [root, child][0] == root && [root, child][1] == child;
  }

  lemma CornerSlot(p: int, edge: nat)
    requires p >= 0 && edge < 4
    ensures InInt(4 * p + 1) ==> SlotInInt(Corner("b", p), Corner("a", -p), Rect(-p, -p, 1, 1), edge)
    ensures edge == 3 && SlotInInt(Corner("b", p), Corner("a", -p), Rect(-p, -p, 1, 1), edge) ==> InInt(4 * p + 1)
  {
  }
}
