/**
 * The insertion resolver of the draggable card list (`updateInsertionPoint`):
 * from the pointer's Y coordinate and one frame's measurements it picks the
 * list under the pointer, the gap in that list nearest the pointer, and where
 * the indicator line is drawn.
 *
 * `Resolve` and the functions under it are the reference definition; the
 * methods `FindClosest`, `PlaceIndicator` and `ComputeInsertionPoint` are the
 * component's loops, proved to compute it; the lemmas state what the
 * definition guarantees.
 */
module InsertionResolver {
  import opened Wrappers
  import opened CardModel

  /** Room left for a group's header above its first card. */
  const GroupHeaderOffset: real := 40.0
  /** Indent of the indicator line from the list's left edge. */
  const IndicatorPadding: real := 20.0
  /** Width taken off a list's box when no card lends the indicator its width. */
  const WidthInset: real := 40.0
  /** Gap between the indicator and the card edge it hugs. */
  const EdgeGap: real := 1.0

  function Abs(r: real): (a: real)
    ensures a >= 0.0 && (a == r || a == -r)
  {
    if r < 0.0 then -r else r
  }

  /** How far the pointer is from a card's vertical midpoint. */
  function Distance(y: real, card: Rect): real {
    Abs(y - card.Middle())
  }

  /** Insert before card `i` when the pointer is above its midpoint, after it otherwise. */
  function SideIndex(y: real, card: Rect, i: nat): nat {
    if y < card.Middle() then i else i + 1
  }

  /** Card `i` of the list has a measured rectangle. */
  predicate Measured(items: seq<Item>, cards: map<string, Rect>, i: int) {
    0 <= i < |items| && items[i].id in cards
  }

  function CardAt(items: seq<Item>, cards: map<string, Rect>, i: int): Rect
    requires Measured(items, cards, i)
  {
    cards[items[i].id]
  }

  /** No card among the first `k` is measured. */
  predicate NoneMeasured(items: seq<Item>, cards: map<string, Rect>, k: nat) {
    forall i :: 0 <= i < k ==> !Measured(items, cards, i)
  }

  /**
   * The nearest-card search's locals after some prefix of the list:
   * `closestIndex`, `closestDistance` (None stands for positive infinity),
   * `insertionTop` and the rectangle of `targetRef`.
   */
  datatype Scan = Scan(index: nat, distance: Option<real>, top: real, target: Option<Rect>)

  /** One iteration of the `forEach` over the list, for card `i`. */
  function ScanStep(items: seq<Item>, cards: map<string, Rect>, y: real, containerTop: real, s: Scan, i: nat): (r: Scan)
    requires i < |items|
    ensures r != s ==> && items[i].id in cards
                       && r.distance == Some(Distance(y, cards[items[i].id]))
                       && (s.distance.Some? ==> r.distance.value < s.distance.value)
                       && (r.index == i || r.index == i + 1)
    ensures s.index <= i ==> r.index <= i + 1
  {
    if items[i].id !in cards then s
    else
      var card := cards[items[i].id];
      var d := Distance(y, card);
      if s.distance.Some? && d >= s.distance.value then s
      else if y < card.Middle() then Scan(i, Some(d), card.top - containerTop - EdgeGap, Some(card))
      else if i == |items| - 1 then Scan(i + 1, Some(d), card.bottom - containerTop + EdgeGap, Some(card))
      else Scan(i + 1, Some(d), s.top, s.target)
  }

  /** The search's locals after the first `k` cards. */
  function ScanCards(items: seq<Item>, cards: map<string, Rect>, y: real, containerTop: real, initialTop: real, k: nat): (r: Scan)
    requires k <= |items|
    ensures r.index <= k
  {
    if k == 0 then Scan(0, None, initialTop, None)
    else ScanStep(items, cards, y, containerTop, ScanCards(items, cards, y, containerTop, initialTop, k - 1), k - 1)
  }

  /**
   * Card `j` is, among the first `k` cards, a measured one whose midpoint is
   * nearest the pointer, and the earliest such: every earlier measured card is
   * strictly farther, every later one at least as far.
   */
  ghost predicate NearestAmong(items: seq<Item>, cards: map<string, Rect>, y: real, k: nat, j: int) {
    && j < k
    && Measured(items, cards, j)
    && (forall i :: 0 <= i < j && Measured(items, cards, i) ==>
          Distance(y, CardAt(items, cards, j)) < Distance(y, CardAt(items, cards, i)))
    && (forall i :: j < i < k && Measured(items, cards, i) ==>
          Distance(y, CardAt(items, cards, j)) <= Distance(y, CardAt(items, cards, i)))
  }

  /** The winning card moves the indicator: it is inserted before, or it is the last card. */
  predicate Records(items: seq<Item>, cards: map<string, Rect>, y: real, j: int)
    requires Measured(items, cards, j)
  {
    y < CardAt(items, cards, j).Middle() || j == |items| - 1
  }

  /** The indicator offset recorded when card `j` wins: its top edge minus the gap, or its bottom edge plus the gap. */
  function RecordedTop(items: seq<Item>, cards: map<string, Rect>, y: real, containerTop: real, j: int): real
    requires Measured(items, cards, j)
  {
    var card := CardAt(items, cards, j);
    if y < card.Middle() then card.top - containerTop - EdgeGap else card.bottom - containerTop + EdgeGap
  }

  /** What the search's locals say about the winning card `j`. */
  ghost predicate WinnerFacts(items: seq<Item>, cards: map<string, Rect>, y: real, containerTop: real, j: int, s: Scan)
    requires Measured(items, cards, j)
  {
    var card := CardAt(items, cards, j);
    && s.distance == Some(Distance(y, card))
    && s.index == SideIndex(y, card, j)
    && (Records(items, cards, y, j) ==>
          s.top == RecordedTop(items, cards, y, containerTop, j) && s.target == Some(card))
  }

  /** The search's locals after `k` cards: untouched if nothing was measured, else the earliest nearest card's. */
  ghost predicate ScanInvariant(items: seq<Item>, cards: map<string, Rect>, y: real, containerTop: real, initialTop: real, k: nat, s: Scan) {
    && (s.distance.None? <==> NoneMeasured(items, cards, k))
    && (s.distance.None? ==> s == Scan(0, None, initialTop, None))
    && (s.distance.Some? ==>
          exists j :: NearestAmong(items, cards, y, k, j) && WinnerFacts(items, cards, y, containerTop, j, s))
  }

  /** The search finds the earliest card whose midpoint is nearest the pointer, skipping unmeasured cards. */
  lemma {:induction false} ScanFindsNearest(items: seq<Item>, cards: map<string, Rect>, y: real, containerTop: real, initialTop: real, k: nat)
    requires k <= |items|
    ensures ScanInvariant(items, cards, y, containerTop, initialTop, k, ScanCards(items, cards, y, containerTop, initialTop, k))
  {
    if k > 0 {
      ScanFindsNearest(items, cards, y, containerTop, initialTop, k - 1);
      var s := ScanCards(items, cards, y, containerTop, initialTop, k - 1);
      var i := k - 1;
      if !Measured(items, cards, i) || (s.distance.Some? && Distance(y, CardAt(items, cards, i)) >= s.distance.value) {
        ScanKeepsWinner(items, cards, y, containerTop, initialTop, k, s);
      } else {
        ScanTakesNewWinner(items, cards, y, containerTop, initialTop, k, s);
      }
    }
  }

  /** A card that is unmeasured or no nearer than the current winner leaves the locals as they are. */
  lemma ScanKeepsWinner(items: seq<Item>, cards: map<string, Rect>, y: real, containerTop: real, initialTop: real, k: nat, s: Scan)
    requires 0 < k <= |items| && ScanInvariant(items, cards, y, containerTop, initialTop, k - 1, s)
    requires !Measured(items, cards, k - 1) || (s.distance.Some? && Distance(y, CardAt(items, cards, k - 1)) >= s.distance.value)
    ensures ScanStep(items, cards, y, containerTop, s, k - 1) == s
    ensures ScanInvariant(items, cards, y, containerTop, initialTop, k, s)
  {
    if s.distance.Some? {
      var j :| NearestAmong(items, cards, y, k - 1, j) && WinnerFacts(items, cards, y, containerTop, j, s);
      assert NearestAmong(items, cards, y, k, j);
    }
  }

  /** A measured card strictly nearer than the current winner (or the first measured one) becomes the winner. */
  lemma ScanTakesNewWinner(items: seq<Item>, cards: map<string, Rect>, y: real, containerTop: real, initialTop: real, k: nat, s: Scan)
    requires 0 < k <= |items| && ScanInvariant(items, cards, y, containerTop, initialTop, k - 1, s)
    requires Measured(items, cards, k - 1) && (s.distance.None? || Distance(y, CardAt(items, cards, k - 1)) < s.distance.value)
    ensures ScanInvariant(items, cards, y, containerTop, initialTop, k, ScanStep(items, cards, y, containerTop, s, k - 1))
  {
    var i := k - 1;
    var t := ScanStep(items, cards, y, containerTop, s, i);
    if s.distance.Some? {
      var j :| NearestAmong(items, cards, y, k - 1, j) && WinnerFacts(items, cards, y, containerTop, j, s);
      assert Distance(y, CardAt(items, cards, i)) < Distance(y, CardAt(items, cards, j));
    }
    assert NearestAmong(items, cards, y, k, i);
    assert WinnerFacts(items, cards, y, containerTop, i, t);
  }

  /** Ties are broken towards the earlier card, so the nearest card is unique. */
  lemma NearestIsUnique(items: seq<Item>, cards: map<string, Rect>, y: real, k: nat, j1: int, j2: int)
    requires NearestAmong(items, cards, y, k, j1) && NearestAmong(items, cards, y, k, j2)
    ensures j1 == j2
  {
  }

  /** The gap the indicator stands in, its offset and its width, for one list. */
  datatype Placement = Placement(index: nat, top: real, width: real)

  /** The gap lies strictly inside the list and both cards around it are measured. */
  predicate BetweenMeasured(items: seq<Item>, cards: map<string, Rect>, index: nat) {
    0 < index < |items| && items[index - 1].id in cards && items[index].id in cards
  }

  /**
   * Placement within one list: the nearest-card search, then, for a gap between
   * two measured cards, the indicator centred between them, and the width of
   * the reference card or the fallback width.
   */
  function PlaceInList(items: seq<Item>, cards: map<string, Rect>, y: real, containerTop: real, initialTop: real, fallbackWidth: real): (p: Placement)
    ensures p.index <= |items|
  {
    var s := ScanCards(items, cards, y, containerTop, initialTop, |items|);
    if BetweenMeasured(items, cards, s.index) then
      var prev := cards[items[s.index - 1].id];
      var next := cards[items[s.index].id];
      Placement(s.index, (prev.bottom - containerTop + (next.top - containerTop)) / 2.0, next.width)
    else
      Placement(s.index, s.top, if s.target.Some? then s.target.value.width else fallbackWidth)
  }

  /**
   * The resolved gap is a valid insertion index for the list as it stands; it is
   * 0 when no card is measured, and otherwise the earliest nearest card's
   * position when the pointer is above its midpoint and the position after it
   * when not.
   */
  lemma PlaceInListIndex(items: seq<Item>, cards: map<string, Rect>, y: real, containerTop: real, initialTop: real, fallbackWidth: real)
    ensures var p := PlaceInList(items, cards, y, containerTop, initialTop, fallbackWidth);
      && p.index <= |items|
      && (NoneMeasured(items, cards, |items|) ==> p == Placement(0, initialTop, fallbackWidth))
      && (!NoneMeasured(items, cards, |items|) ==>
            exists j :: NearestAmong(items, cards, y, |items|, j) && p.index == SideIndex(y, CardAt(items, cards, j), j))
  {
    ScanFindsNearest(items, cards, y, containerTop, initialTop, |items|);
  }

  /**
   * Where the indicator line goes: midway between the two cards around the gap
   * when both are measured; one unit above a measured card it is inserted
   * before; one unit below the last card when appending; and the width follows
   * the card used as reference.
   */
  lemma PlaceInListGeometry(items: seq<Item>, cards: map<string, Rect>, y: real, containerTop: real, initialTop: real, fallbackWidth: real)
    ensures var p := PlaceInList(items, cards, y, containerTop, initialTop, fallbackWidth);
      && (BetweenMeasured(items, cards, p.index) ==>
            var prev := CardAt(items, cards, p.index - 1);
            var next := CardAt(items, cards, p.index);
            p.top == (prev.bottom - containerTop + (next.top - containerTop)) / 2.0 && p.width == next.width)
      && (p.index == 0 && !NoneMeasured(items, cards, |items|) ==> Measured(items, cards, 0))
      && (Measured(items, cards, p.index) && !BetweenMeasured(items, cards, p.index) ==>
            var card := CardAt(items, cards, p.index);
            p.top == card.top - containerTop - EdgeGap && p.width == card.width)
      && (0 < |items| == p.index ==>
            Measured(items, cards, |items| - 1) &&
            var last := CardAt(items, cards, |items| - 1);
            y >= last.Middle() && p.top == last.bottom - containerTop + EdgeGap && p.width == last.width)
  {
    var n := |items|;
    var s := ScanCards(items, cards, y, containerTop, initialTop, n);
    var p := PlaceInList(items, cards, y, containerTop, initialTop, fallbackWidth);
    ScanFindsNearest(items, cards, y, containerTop, initialTop, n);
    assert p.index == s.index;
    if s.distance.Some? {
      var j :| NearestAmong(items, cards, y, n, j) && WinnerFacts(items, cards, y, containerTop, j, s);
      var card := CardAt(items, cards, j);
      if y < card.Middle() {
        assert s.index == j;
      } else {
        assert s.index == j + 1;
        if j + 1 < n && Measured(items, cards, j + 1) {
          assert BetweenMeasured(items, cards, p.index);
        }
      }
    }
  }

  /** The pointer is inside the ungrouped list's measured box. */
  predicate InUngroupedBox(layout: Layout, y: real) {
    layout.ungroupedBox.Some? && layout.ungroupedBox.value.ContainsY(y)
  }

  /** The pointer is inside group `g`'s measured box. */
  predicate InGroupBox(layout: Layout, g: Group, y: real) {
    g.id in layout.groupBoxes && layout.groupBoxes[g.id].ContainsY(y)
  }

  /** The target inside the ungrouped list, whose box is `box`. */
  function UngroupedTarget(y: real, container: Rect, box: Rect, cards: map<string, Rect>, ungrouped: seq<Item>): InsertionPoint {
    var p := PlaceInList(ungrouped, cards, y, container.top, box.top - container.top, container.width - WidthInset);
    InsertionPoint(None, p.index, p.top, IndicatorPadding, p.width)
  }

  /** The target inside group `g`, whose box is `box`; an empty group's indicator sits below the header. */
  function GroupTarget(y: real, container: Rect, box: Rect, cards: map<string, Rect>, g: Group): InsertionPoint {
    var p := PlaceInList(g.items, cards, y, container.top, box.top - container.top + GroupHeaderOffset, box.width - WidthInset);
    InsertionPoint(Some(g.id), p.index, p.top, box.left - container.left + IndicatorPadding, p.width)
  }

  /** The scan over the groups in order: the first whose box holds the pointer supplies the target. */
  function ResolveGroups(y: real, container: Rect, layout: Layout, groups: seq<Group>): (r: Option<InsertionPoint>)
    ensures r.Some? ==> r.value.groupId.Some?
  {
    if groups == [] then None
    else if InGroupBox(layout, groups[0], y) then
      Some(GroupTarget(y, container, layout.groupBoxes[groups[0].id], layout.cards, groups[0]))
    else ResolveGroups(y, container, layout, groups[1..])
  }

  /** The insertion point for pointer height `y`: the ungrouped list first, then the groups; None outside them all. */
  function Resolve(y: real, container: Rect, layout: Layout, groups: seq<Group>, ungrouped: seq<Item>): (r: Option<InsertionPoint>)
    ensures (r.Some? && r.value.groupId.None?) <==> InUngroupedBox(layout, y)
  {
    if InUngroupedBox(layout, y) then
      Some(UngroupedTarget(y, container, layout.ungroupedBox.value, layout.cards, ungrouped))
    else ResolveGroups(y, container, layout, groups)
  }

  /** Inside the ungrouped box the target is in the ungrouped list and the groups are never consulted. */
  lemma UngroupedCheckedFirst(y: real, container: Rect, layout: Layout, groups: seq<Group>, otherGroups: seq<Group>, ungrouped: seq<Item>)
    requires InUngroupedBox(layout, y)
    ensures var r := Resolve(y, container, layout, groups, ungrouped);
      && r == Some(UngroupedTarget(y, container, layout.ungroupedBox.value, layout.cards, ungrouped))
      && r.value.groupId == None
      && Resolve(y, container, layout, otherGroups, ungrouped) == r
  {
  }

  /**
   * Outside the ungrouped box, the first group (in declaration order) whose box
   * holds the pointer supplies the target, and the groups after it are ignored.
   */
  lemma {:induction false} FirstGroupWins(y: real, container: Rect, layout: Layout, groups: seq<Group>, ungrouped: seq<Item>, j: nat)
    requires !InUngroupedBox(layout, y)
    requires j < |groups| && InGroupBox(layout, groups[j], y)
    requires forall i :: 0 <= i < j ==> !InGroupBox(layout, groups[i], y)
    ensures Resolve(y, container, layout, groups, ungrouped)
         == Some(GroupTarget(y, container, layout.groupBoxes[groups[j].id], layout.cards, groups[j]))
    ensures Resolve(y, container, layout, groups, ungrouped) == Resolve(y, container, layout, groups[..j + 1], ungrouped)
  {
    FirstGroupMatch(y, container, layout, groups, j);
    assert groups[..j + 1][j] == groups[j];
    FirstGroupMatch(y, container, layout, groups[..j + 1], j);
  }

  lemma {:induction false} FirstGroupMatch(y: real, container: Rect, layout: Layout, groups: seq<Group>, j: nat)
    requires j < |groups| && InGroupBox(layout, groups[j], y)
    requires forall i :: 0 <= i < j ==> !InGroupBox(layout, groups[i], y)
    ensures ResolveGroups(y, container, layout, groups)
         == Some(GroupTarget(y, container, layout.groupBoxes[groups[j].id], layout.cards, groups[j]))
  {
    if j > 0 {
      assert !InGroupBox(layout, groups[0], y);
      FirstGroupMatch(y, container, layout, groups[1..], j - 1);
    }
  }

  /** There is no target exactly when the pointer is outside the ungrouped box and every measured group box. */
  lemma {:induction false} NoTargetIffOutside(y: real, container: Rect, layout: Layout, groups: seq<Group>, ungrouped: seq<Item>)
    ensures Resolve(y, container, layout, groups, ungrouped).None?
        <==> !InUngroupedBox(layout, y) && forall g :: g in groups ==> !InGroupBox(layout, g, y)
  {
    NoGroupTargetIffOutside(y, container, layout, groups);
  }

  lemma {:induction false} NoGroupTargetIffOutside(y: real, container: Rect, layout: Layout, groups: seq<Group>)
    ensures ResolveGroups(y, container, layout, groups).None? <==> forall g :: g in groups ==> !InGroupBox(layout, g, y)
  {
    if groups != [] {
      NoGroupTargetIffOutside(y, container, layout, groups[1..]);
      assert forall g :: g in groups <==> g == groups[0] || g in groups[1..];
    }
  }

  /** The list a target names exists and its index is a valid insertion index into it. */
  ghost predicate TargetInRange(ip: InsertionPoint, groups: seq<Group>, ungrouped: seq<Item>) {
    if ip.groupId.None? then ip.index <= |ungrouped|
    else exists k :: 0 <= k < |groups| && groups[k].id == ip.groupId.value && ip.index <= |groups[k].items|
  }

  /** Every resolved target names an existing list and an index within 0 ..= its length. */
  lemma {:induction false} ResolvedTargetInRange(y: real, container: Rect, layout: Layout, groups: seq<Group>, ungrouped: seq<Item>)
    ensures var r := Resolve(y, container, layout, groups, ungrouped);
      r.Some? ==> TargetInRange(r.value, groups, ungrouped)
  {
    if InUngroupedBox(layout, y) {
      var box := layout.ungroupedBox.value;
      PlaceInListIndex(ungrouped, layout.cards, y, container.top, box.top - container.top, container.width - WidthInset);
    } else {
      GroupTargetInRange(y, container, layout, groups);
    }
  }

  lemma {:induction false} GroupTargetInRange(y: real, container: Rect, layout: Layout, groups: seq<Group>)
    ensures var r := ResolveGroups(y, container, layout, groups);
      r.Some? ==> r.value.groupId.Some? && TargetInRange(r.value, groups, [])
  {
    if groups != [] {
      if InGroupBox(layout, groups[0], y) {
        var box := layout.groupBoxes[groups[0].id];
        PlaceInListIndex(groups[0].items, layout.cards, y, container.top, box.top - container.top + GroupHeaderOffset, box.width - WidthInset);
        assert groups[0].id == ResolveGroups(y, container, layout, groups).value.groupId.value;
      } else {
        GroupTargetInRange(y, container, layout, groups[1..]);
        var r := ResolveGroups(y, container, layout, groups);
        if r.Some? {
          var k :| 0 <= k < |groups[1..]| && groups[1..][k].id == r.value.groupId.value && r.value.index <= |groups[1..][k].items|;
          assert groups[k + 1] == groups[1..][k];
        }
      }
    }
  }

  /** The `forEach` over one list that looks for the card nearest the pointer. */
  method FindClosest(items: seq<Item>, cards: map<string, Rect>, y: real, containerTop: real, initialTop: real)
    returns (closestIndex: nat, closestDistance: Option<real>, insertionTop: real, targetRect: Option<Rect>)
    ensures Scan(closestIndex, closestDistance, insertionTop, targetRect) == ScanCards(items, cards, y, containerTop, initialTop, |items|)
  {
    closestIndex, closestDistance, insertionTop, targetRect := 0, None, initialTop, None;
    for index := 0 to |items|
      invariant Scan(closestIndex, closestDistance, insertionTop, targetRect) == ScanCards(items, cards, y, containerTop, initialTop, index)
    {
      var item := items[index];
      if item.id in cards {
        var cardRect := cards[item.id];
        var cardMiddle := cardRect.top + cardRect.Height() / 2.0;
        var distance := Abs(y - cardMiddle);
        if closestDistance.None? || distance < closestDistance.value {
          closestDistance := Some(distance);
          closestIndex := if y < cardMiddle then index else index + 1;
          if y < cardMiddle {
            insertionTop := cardRect.top - containerTop - EdgeGap;
            targetRect := Some(cardRect);
          } else if index == |items| - 1 {
            insertionTop := cardRect.bottom - containerTop + EdgeGap;
            targetRect := Some(cardRect);
          }
        }
      }
    }
  }

  /** The nearest-card search followed by the between-cards adjustment and the width choice, for one list. */
  method PlaceIndicator(items: seq<Item>, cards: map<string, Rect>, y: real, containerTop: real, initialTop: real, fallbackWidth: real)
    returns (p: Placement)
    ensures p == PlaceInList(items, cards, y, containerTop, initialTop, fallbackWidth)
  {
    var closestIndex, _, insertionTop, targetRect := FindClosest(items, cards, y, containerTop, initialTop);
    if 0 < closestIndex < |items| {
      var prevId, nextId := items[closestIndex - 1].id, items[closestIndex].id;
      if prevId in cards && nextId in cards {
        var prevRect, nextRect := cards[prevId], cards[nextId];
        insertionTop := (prevRect.bottom - containerTop + (nextRect.top - containerTop)) / 2.0;
        targetRect := Some(nextRect);
      }
    }
    var width := if targetRect.Some? then targetRect.value.width else fallbackWidth;
    p := Placement(closestIndex, insertionTop, width);
  }

  /** `updateInsertionPoint` once the container is measured: ungrouped list first, then each group in order. */
  method ComputeInsertionPoint(y: real, container: Rect, layout: Layout, groups: seq<Group>, ungrouped: seq<Item>)
    returns (r: Option<InsertionPoint>)
    ensures r == Resolve(y, container, layout, groups, ungrouped)
  {
    if layout.ungroupedBox.Some? {
      var box := layout.ungroupedBox.value;
      if y >= box.top && y <= box.bottom {
        var p := PlaceIndicator(ungrouped, layout.cards, y, container.top, box.top - container.top, container.width - WidthInset);
        return Some(InsertionPoint(None, p.index, p.top, IndicatorPadding, p.width));
      }
    }
    for k := 0 to |groups|
      invariant ResolveGroups(y, container, layout, groups) == ResolveGroups(y, container, layout, groups[k..])
    {
      var group := groups[k];
      assert groups[k..][0] == group && groups[k..][1..] == groups[k + 1..];
      if group.id in layout.groupBoxes {
        var box := layout.groupBoxes[group.id];
        if y >= box.top && y <= box.bottom {
          var p := PlaceIndicator(group.items, layout.cards, y, container.top, box.top - container.top + GroupHeaderOffset, box.width - WidthInset);
          return Some(InsertionPoint(Some(group.id), p.index, p.top, box.left - container.left + IndicatorPadding, p.width));
        }
      }
    }
    return None;
  }
}
