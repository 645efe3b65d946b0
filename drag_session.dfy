/**
 * The drag session of the draggable card list: the two lists it owns and the
 * four session fields (`draggedItem`, `draggedItemSource`,
 * `draggedItemGroupId`, `insertionPoint`), changed by the pointer handlers.
 * The pointer position that drives the follower card is kept too.
 */
module DragSession {
  import opened Wrappers
  import opened CardModel
  import opened InsertionResolver
  import opened Reorder

  class DraggableCardList {
    var groups: seq<Group>
    var ungroupedItems: seq<Item>
    var draggedItem: Option<Item>
    var draggedItemSource: Option<Source>
    var draggedItemGroupId: Option<string>
    var insertionPoint: Option<InsertionPoint>
    var mouseX: real
    var mouseY: real

    /** Both lists as one value. */
    function Page(): Lists
      reads this
    {
      Lists(groups, ungroupedItems)
    }

    /**
     * While a card is dragged it still sits in the list recorded as its
     * source, and a current insertion point names an existing list and an
     * index within 0 ..= that list's length.
     */
    ghost predicate Valid()
      reads this
    {
      && (draggedItem.Some? ==>
            draggedItemSource.Some? && InSource(Page(), draggedItem.value, draggedItemSource.value, draggedItemGroupId))
      && (insertionPoint.Some? ==> TargetInRange(insertionPoint.value, groups, ungroupedItems))
    }

    /** The component's initial state: the given lists and no drag in progress. */
    constructor(groups: seq<Group>, ungroupedItems: seq<Item>)
      ensures Valid()
      ensures this.groups == groups && this.ungroupedItems == ungroupedItems
      ensures draggedItem.None? && draggedItemSource.None? && draggedItemGroupId.None? && insertionPoint.None?
      ensures mouseX == 0.0 && mouseY == 0.0
    {
      this.groups := groups;
      this.ungroupedItems := ungroupedItems;
      draggedItem, draggedItemSource, draggedItemGroupId, insertionPoint := None, None, None, None;
      mouseX, mouseY := 0.0, 0.0;
    }

    /**
     * `updateInsertionPoint`: without a measured container nothing happens;
     * otherwise the insertion point becomes the resolver's answer, possibly none.
     */
    method UpdateInsertionPoint(y: real, layout: Layout)
      requires Valid()
      modifies this`insertionPoint
      ensures Valid()
      ensures insertionPoint == if layout.container.None? then old(insertionPoint)
                                else Resolve(y, layout.container.value, layout, groups, ungroupedItems)
    {
      if layout.container.None? {
        return;
      }
      var container := layout.container.value;
      insertionPoint := ComputeInsertionPoint(y, container, layout, groups, ungroupedItems);
      ResolvedTargetInRange(y, container, layout, groups, ungroupedItems);
    }

    /**
     * `handleDragStart`: records the pointer, the card, where it came from,
     * and resolves a first insertion point at once. The card handed in is the
     * one rendered in that list.
     */
    method DragStart(item: Item, source: Source, groupId: Option<string>, x: real, y: real, layout: Layout)
      requires Valid()
      requires InSource(Page(), item, source, groupId)
      modifies this
      ensures Valid()
      ensures groups == old(groups) && ungroupedItems == old(ungroupedItems)
      ensures draggedItem == Some(item) && draggedItemSource == Some(source) && draggedItemGroupId == groupId
      ensures mouseX == x && mouseY == y
      ensures insertionPoint == if layout.container.None? then old(insertionPoint)
                                else Resolve(y, layout.container.value, layout, groups, ungroupedItems)
    {
      mouseX, mouseY := x, y;
      draggedItem, draggedItemSource, draggedItemGroupId := Some(item), Some(source), groupId;
      UpdateInsertionPoint(y, layout);
    }

    /**
     * `handleMouseMove`: while a card is dragged, track the pointer and
     * re-resolve the insertion point; with no card dragged, nothing changes.
     */
    method MouseMove(x: real, y: real, layout: Layout)
      requires Valid()
      modifies this
      ensures Valid()
      ensures old(draggedItem).None? ==> unchanged(this)
      ensures groups == old(groups) && ungroupedItems == old(ungroupedItems)
      ensures draggedItem == old(draggedItem) && draggedItemSource == old(draggedItemSource)
      ensures draggedItemGroupId == old(draggedItemGroupId)
      ensures draggedItem.Some? ==>
        && mouseX == x && mouseY == y
        && insertionPoint == if layout.container.None? then old(insertionPoint)
                             else Resolve(y, layout.container.value, layout, groups, ungroupedItems)
    {
      if draggedItem.Some? {
        mouseY, mouseX := y, x;
        UpdateInsertionPoint(y, layout);
      }
    }

    /**
     * `handleDragEnd`, on mouse-up and on leaving the container alike: with a
     * dragged card and an insertion point, the card is removed from its source
     * by id and spliced in at the insertion point; then the session is
     * cleared in every case. On a well-formed page no card is lost or
     * duplicated.
     */
    method DragEnd()
      requires Valid()
      modifies this
      ensures Valid()
      ensures Page() == Commit(old(Page()), old(draggedItem), old(draggedItemSource), old(draggedItemGroupId), old(insertionPoint))
      ensures draggedItem.None? && draggedItemSource.None? && draggedItemGroupId.None? && insertionPoint.None?
      ensures mouseX == old(mouseX) && mouseY == old(mouseY)
      ensures old(WellFormed(Page())) ==>
        WellFormed(Page()) && multiset(Page().AllItems()) == old(multiset(Page().AllItems()))
    {
      var page, dragged, source, target := Page(), draggedItem, draggedItemSource, insertionPoint;
      var after := page;
      if dragged.Some? && target.Some? {
        // First updater: remove the card from its original list.
        var removed := page;
        if source.Some? {
          removed := RemoveFromSource(page, dragged.value.id, source.value, draggedItemGroupId);
        }
        // Second updater: splice it into its new list.
        after := InsertAtTarget(removed, dragged.value, target.value);
      }
      assert after == Commit(page, dragged, source, draggedItemGroupId, target);
      DropKeepsCards(page, dragged, source, draggedItemGroupId, target);
      groups, ungroupedItems := after.groups, after.ungrouped;
      draggedItem, draggedItemSource, draggedItemGroupId, insertionPoint := None, None, None, None;
    }
  }

  /** A drop from a valid session onto a well-formed page loses and duplicates no card. */
  lemma DropKeepsCards(page: Lists, dragged: Option<Item>, source: Option<Source>, groupId: Option<string>, ip: Option<InsertionPoint>)
    requires dragged.Some? ==> source.Some? && InSource(page, dragged.value, source.value, groupId)
    requires ip.Some? ==> TargetInRange(ip.value, page.groups, page.ungrouped)
    ensures var r := Commit(page, dragged, source, groupId, ip);
      WellFormed(page) ==> WellFormed(r) && multiset(r.AllItems()) == multiset(page.AllItems())
  {
    if WellFormed(page) && dragged.Some? && ip.Some? {
      var target := ip.value;
      if target.groupId.Some? {
        var k :| 0 <= k < |page.groups| && page.groups[k].id == target.groupId.value && target.index <= |page.groups[k].items|;
        assert HasGroup(page.groups, target.groupId.value);
      }
      CommitPreservesCards(page, dragged.value, source.value, groupId, target);
    }
  }

  /** Card boxes for the example: A at 0–40, B at 50–90, C at 100–140. */
  const ExampleCards: map<string, Rect> :=
    map[CardA.id := Rect(0.0, 40.0, 0.0, 100.0), CardB.id := Rect(50.0, 90.0, 0.0, 100.0), CardC.id := Rect(100.0, 140.0, 0.0, 100.0)]

  /**
   * With the pointer at 80, in B's lower half, the resolver picks index 2:
   * the gap between B and C, with the dragged card A still a candidate.
   */
  lemma ExampleResolvesBetweenBAndC()
    ensures PlaceInList([CardA, CardB, CardC], ExampleCards, 80.0, 0.0, 40.0, 60.0).index == 2
  {
    ExampleIdsDiffer();
    var items, cards := [CardA, CardB, CardC], ExampleCards;
    assert cards[CardA.id].Middle() == 20.0 && cards[CardB.id].Middle() == 70.0 && cards[CardC.id].Middle() == 120.0;
    var s0 := ScanCards(items, cards, 80.0, 0.0, 40.0, 0);
    assert s0 == Scan(0, None, 40.0, None);
    assert items[0].id in cards && items[1].id in cards && items[2].id in cards;
    assert Distance(80.0, cards[CardA.id]) == 60.0;
    assert Distance(80.0, cards[CardB.id]) == 10.0;
    assert Distance(80.0, cards[CardC.id]) == 40.0;
    var s1 := ScanCards(items, cards, 80.0, 0.0, 40.0, 1);
    assert s1 == ScanStep(items, cards, 80.0, 0.0, s0, 0);
    assert s1 == Scan(1, Some(60.0), 40.0, None);
    var s2 := ScanCards(items, cards, 80.0, 0.0, 40.0, 2);
    assert s2 == ScanStep(items, cards, 80.0, 0.0, s1, 1);
    assert s2 == Scan(2, Some(10.0), 40.0, None);
    var s3 := ScanCards(items, cards, 80.0, 0.0, 40.0, 3);
    assert s3 == ScanStep(items, cards, 80.0, 0.0, s2, 2);
    assert s3 == s2;
  }

  /** The page of the example: one group "g" holding [A, B, C], nothing ungrouped. */
  const ExamplePage := Lists([Group("g", "", [CardA, CardB, CardC])], [])

  /** Its measurements: the container and the group's box span 0–200, the cards as in `ExampleCards`. */
  const ExampleLayout := Layout(Some(Rect(0.0, 200.0, 0.0, 100.0)), None,
                                map["g" := Rect(0.0, 200.0, 0.0, 100.0)], ExampleCards)

  /**
   * The finding end to end: A is dragged from "g" and released with the
   * pointer at 80. The resolver answers index 2 of "g", the drop as written
   * leaves [B, C, A], and the corrected drop leaves [B, A, C], the gap the
   * indicator showed.
   */
  lemma ExampleDragOvershoots()
    ensures var ip := Resolve(80.0, ExampleLayout.container.value, ExampleLayout, ExamplePage.groups, ExamplePage.ungrouped);
      && ip.Some? && ip.value.groupId == Some("g") && ip.value.index == 2
      && Commit(ExamplePage, Some(CardA), Some(FromGroup), Some("g"), ip).groups[0].items == [CardB, CardC, CardA]
      && CommitIntended(ExamplePage, Some(CardA), Some(FromGroup), Some("g"), ip).groups[0].items == [CardB, CardA, CardC]
  {
    var layout, page := ExampleLayout, ExamplePage;
    var container, box := Rect(0.0, 200.0, 0.0, 100.0), Rect(0.0, 200.0, 0.0, 100.0);
    assert !InUngroupedBox(layout, 80.0) && InGroupBox(layout, page.groups[0], 80.0);
    var ip := Resolve(80.0, container, layout, page.groups, page.ungrouped);
    assert ip == Some(GroupTarget(80.0, container, box, ExampleCards, page.groups[0]));
    ExampleResolvesBetweenBAndC();
    assert ip.value.groupId == Some("g") && ip.value.index == 2;
    AsWrittenCommitOvershoots(ip.value);
    assert UniqueGroupIds(page.groups) && "g"[0] == 'g';
    CommitIntendedGroupKeepsGap(page, CardA, 0, ip.value);
    IntendedDropOfExample();
  }
}
