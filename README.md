# Draggable card list: insertion resolution, drop commit and hover reveal

This project models the core of a link-in-bio editor. The editor shows link cards
in titled groups and in one ungrouped list, and lets the user drag a card to a new
place. The model covers four parts:

- **Insertion resolution** (`updateInsertionPoint`). Given the pointer's vertical
  position and the measured boxes of the container, the ungrouped list, each group
  and each card, it picks the destination list and index. It also places the
  indicator line (top, left, width). The ungrouped list is checked first, then the
  groups in order. Inside a list, the card whose vertical midpoint is nearest to
  the pointer wins, and the earliest card wins a tie. The pointer's half of that
  card decides "before" or "after". Cards without a measured box are skipped.
  Module `InsertionResolver`: specification functions (`ScanCards`, `PlaceInList`,
  `Resolve`), the imperative scan proved equal to them, and lemmas about them.
- **Drop commit** (`handleDragEnd`). The card is removed from its source list by
  id filter and spliced into the destination list, using JavaScript's clamping
  `splice`. Then the session is cleared. Module `Reorder` holds the list updates
  as functions and proves that a drop onto a well-formed page keeps every card
  exactly once.
- **Drag session** (`handleDragStart`, `handleMouseMove`, `updateInsertionPoint`,
  `handleDragEnd`). Module `DragSession` is the class `DraggableCardList`. Its
  fields are the two lists and the four session fields. Its methods are proved
  against `Resolve` and `Commit` and keep the session invariant: the dragged card
  is in its recorded source, and the insertion point names an existing list at a
  valid index.
- **Hover reveal** (`InsertionPoint`). After the pointer rests on the "+" line, a
  timer reveals it. Leaving hides it, and dragging suppresses it. Module
  `HoverReveal` has a transition function `Step` over the component's state, the
  invariants it keeps, and the class `HoverInsertionPoint`, whose handlers are
  proved to perform `Step`.

Measurements are a `Layout` value: a missing map entry is an element that is not
mounted. Coordinates are `real`. Timers are abstract handles that may fire at any
later step while still pending.

The resolver does not exclude the dragged card from the candidates: both scans
walk every card of the list (components/draggable-card-list.tsx:161, 226). The
model follows the code. This is what causes the finding below.

## Model

| member | source | states |
|---|---|---|
| InsertionResolver.ScanStep | components/draggable-card-list.tsx:162-182 | The reference definition of one `forEach` iteration: the record changes only for a measured card strictly nearer than the recorded distance, and then it records that card's distance and the card's position or the next one. Its combined effect is proved in `ScanFindsNearest`. |
| InsertionResolver.ScanCards | components/draggable-card-list.tsx:156-184 | The reference definition of the whole scan over the first `k` cards, starting from index 0, no distance, the list's starting top and no target; the index never passes `k`. `ScanFindsNearest` and `FindClosest` are proved against it. |
| InsertionResolver.ScanFindsNearest | components/draggable-card-list.tsx:156-184 | After the per-card scan, no distance is recorded exactly when no card has a measured box, and then the index is 0 with the list's starting top. Otherwise the recorded card is the earliest one whose midpoint is strictly nearer than every earlier card's and no farther than every later card's. The index is that card's position, or the next position when the pointer is at or below its midpoint. |
| InsertionResolver.NearestIsUnique | components/draggable-card-list.tsx:168 | The strict `<` comparison makes the winning card unique: two winners are the same card. |
| InsertionResolver.FindClosest | components/draggable-card-list.tsx:156-184 | The imperative `forEach` scan returns the index, distance, top and target rectangle that the scan specification describes. |
| InsertionResolver.PlaceInList | components/draggable-card-list.tsx:186-200 | The reference definition of placement within one list (the scan, then the between-cards adjustment and the width): the index is a valid insertion index. Its properties are proved in `PlaceInListIndex` and `PlaceInListGeometry`, and `PlaceIndicator` is proved equal to it. |
| InsertionResolver.PlaceInListIndex | components/draggable-card-list.tsx:156-197 | The resolved index is at most the list's length. With no measured card it is 0, with the list's starting top and the fallback width. Otherwise it is the nearest card's own index or the index after it, depending on the pointer's half. |
| InsertionResolver.PlaceInListGeometry | components/draggable-card-list.tsx:170-200 | Between two measured neighbours, the line sits midway between the previous card's bottom and the next card's top, with the next card's width. Before a measured card it sits 1 above that card, with that card's width. After the last card it sits 1 below that card, the pointer is in that card's lower half, and the line takes its width. Index 0 with some card measured means card 0 is measured. |
| InsertionResolver.PlaceIndicator | components/draggable-card-list.tsx:156-200 | The method that computes the index, top and width returns exactly `PlaceInList`. |
| InsertionResolver.UngroupedCheckedFirst | components/draggable-card-list.tsx:150-210 | When the pointer is inside the ungrouped list's box, the result targets the ungrouped list, whatever the groups are. |
| InsertionResolver.FirstGroupWins | components/draggable-card-list.tsx:213-277 | Outside the ungrouped box, the first group in order whose box contains the pointer is the target. Groups after it have no influence. |
| InsertionResolver.FirstGroupMatch | components/draggable-card-list.tsx:214-275 | The group loop stops at the first group whose box holds the pointer and returns that group's target. |
| InsertionResolver.NoTargetIffOutside | components/draggable-card-list.tsx:150-279 | No insertion point results if and only if the pointer is outside the ungrouped box and outside every group's box. |
| InsertionResolver.NoGroupTargetIffOutside | components/draggable-card-list.tsx:213-279 | The group loop finds nothing if and only if no group's box holds the pointer. |
| InsertionResolver.ResolvedTargetInRange | components/draggable-card-list.tsx:145-280 | A resolved target names an existing list, and its index is within 0 to that list's length. |
| InsertionResolver.GroupTargetInRange | components/draggable-card-list.tsx:213-277 | A target from the group loop names one of the groups, with an index within that group's length. |
| InsertionResolver.ResolveGroups | components/draggable-card-list.tsx:214-277 | The reference definition of the group loop: a result always targets a group. Which group (the first whose measured box holds the pointer, one of the page's groups, at an index within its length) is proved in `FirstGroupWins`, `FirstGroupMatch` and `GroupTargetInRange`; its other properties are proved in `NoGroupTargetIffOutside`. |
| InsertionResolver.Resolve | components/draggable-card-list.tsx:148-279 | The reference definition of `updateInsertionPoint`'s answer: the target is in the ungrouped list exactly when the pointer is inside the ungrouped box. Its properties are proved in `UngroupedCheckedFirst`, `NoTargetIffOutside` and `ResolvedTargetInRange`, and `ComputeInsertionPoint` is proved equal to it. |
| InsertionResolver.ComputeInsertionPoint | components/draggable-card-list.tsx:148-279 | The imperative resolver, with its early returns and group loop, returns exactly `Resolve`. |
| Reorder.RemoveById | components/draggable-card-list.tsx:301 | Filtering by id keeps exactly the cards with other ids and never lengthens the list. |
| Reorder.SpliceAt | components/draggable-card-list.tsx:309 | `splice` clamps its start to the list's length: an in-range index is used unchanged, and an index past the end appends at the end. |
| Reorder.InsertAt | components/draggable-card-list.tsx:307-311 | The splice adds exactly one card at the clamped index, and removing it gives back the original list. |
| Reorder.RemoveByIdCount | components/draggable-card-list.tsx:301 | After the filter, no card has the removed id, and the count of every other id is unchanged. |
| Reorder.RemoveByIdTakesOne | components/draggable-card-list.tsx:301 | When the card's id occurs once, the filter removes exactly that one card. |
| Reorder.InsertAtCount | components/draggable-card-list.tsx:309 | The splice adds one occurrence of the inserted card's id and leaves other ids alone. |
| Reorder.RemoveFromGroups | components/draggable-card-list.tsx:288-298 | Group order, ids and titles are kept. The group with the source id loses the card's id, and every other group is untouched. |
| Reorder.InsertIntoGroups | components/draggable-card-list.tsx:314-326 | Group order, ids and titles are kept. The group with the destination id gets the card spliced in, and every other group is untouched. |
| Reorder.RemoveFromSource | components/draggable-card-list.tsx:286-302 | Removal from the ungrouped list leaves the groups alone. Removal from a group leaves the ungrouped list alone. No group changes its id or title. |
| Reorder.InsertAtTarget | components/draggable-card-list.tsx:305-327 | A null group id splices into the ungrouped list and leaves the groups alone. A group id leaves the ungrouped list alone. |
| Reorder.Commit | components/draggable-card-list.tsx:283-328 | Without a dragged card or an insertion point, the lists are unchanged. A drop never changes the groups' order, ids or titles. |
| Reorder.CommitTouchesOnlySourceAndTarget | components/draggable-card-list.tsx:283-328 | A drop changes only the source list and the destination list. Every other group, and the ungrouped list when it is neither, is unchanged. |
| Reorder.RemoveFromGroupsTakesOne | components/draggable-card-list.tsx:288-298 | When the card is in the named group and its id is unique, the group removal takes exactly that card off the page. |
| Reorder.InsertIntoGroupsAddsOne | components/draggable-card-list.tsx:314-326 | When the destination group exists and group ids are unique, the group insertion adds exactly the card to the page. |
| Reorder.InsertIntoGroupsAbsent | components/draggable-card-list.tsx:314-326 | An insertion into a group id that no group carries changes nothing. |
| Reorder.RemoveFromSourceTakesOne | components/draggable-card-list.tsx:286-302 | On a well-formed page, removal from the recorded source takes exactly the dragged card off the page. |
| Reorder.InsertAtTargetAddsOne | components/draggable-card-list.tsx:305-327 | When the destination exists, insertion adds exactly the dragged card to the page. |
| Reorder.CommitPreservesCards | components/draggable-card-list.tsx:283-328 | A drop from the card's source into an existing destination keeps the multiset of cards on the page. The page stays well-formed: unique card ids, unique non-empty group ids. |
| Reorder.CommitWithoutDestinationLosesCard | components/draggable-card-list.tsx:312-326 | If the destination group no longer exists, the drop removes the card and puts it nowhere. |
| Reorder.AsWrittenKeepsGapFromBelow | components/draggable-card-list.tsx:284-327 | When the card is not above the gap, the drop as written lands it in the gap the indicator showed. |
| Reorder.AsWrittenOvershootsDownward | components/draggable-card-list.tsx:284-327 | In [A, B, C], dropping A at index 2 (the gap between B and C) gives [B, C, A], not [B, A, C]. |
| Reorder.AsWrittenCommitOvershoots | components/draggable-card-list.tsx:284-327 | The drop as written, on a page whose one group "g" holds [A, B, C], with A dragged from "g" and any insertion point at index 2 of "g", leaves "g" holding [B, C, A]. |
| DragSession.ExampleResolvesBetweenBAndC | components/draggable-card-list.tsx:161-184 | With A at 0–40, B at 50–90, C at 100–140 and the pointer at 80, the per-card scan gives index 2, the gap between B and C, while the dragged card A is still one of the candidates. |
| DragSession.ExampleDragOvershoots | components/draggable-card-list.tsx:145-327 | End to end on one page and layout: group "g" holds A, B, C at 0–40, 50–90, 100–140, and A is dragged from "g" with the pointer at 80. `Resolve` answers index 2 of "g". The drop as written then leaves [B, C, A], while the corrected drop leaves [B, A, C]. |
| Reorder.MoveWithinListKeepsGap | components/draggable-card-list.tsx:284-327 | With the index lowered by the card's own occurrences above the gap, a same-list drop lands exactly in the indicated gap. |
| Reorder.IntendedTarget | components/draggable-card-list.tsx:305-327 | The corrected insertion point keeps the destination list and never raises the index. |
| Reorder.CommitIntended | components/draggable-card-list.tsx:283-328 | The corrected drop changes nothing without a dragged card or an insertion point, and keeps the groups' order, ids and titles. |
| Reorder.CommitIntendedPreservesCards | components/draggable-card-list.tsx:283-328 | The corrected drop keeps the multiset of cards and well-formedness, like the drop as written. |
| Reorder.CommitIntendedUngroupedKeepsGap | components/draggable-card-list.tsx:299-311 | Reordering within the ungrouped list with the corrected drop puts the card exactly into the indicated gap. |
| Reorder.CommitIntendedGroupKeepsGap | components/draggable-card-list.tsx:286-326 | Reordering within one group with the corrected drop puts the card exactly into the indicated gap. |
| DragSession.DraggableCardList.constructor | components/draggable-card-list.tsx:45-96 | The component starts with the given lists and no drag session. |
| DragSession.DraggableCardList.UpdateInsertionPoint | components/draggable-card-list.tsx:145-280 | Without a measured container, the insertion point is unchanged. Otherwise it becomes the resolver's result, possibly none. The session invariant is kept. |
| DragSession.DraggableCardList.DragStart | components/draggable-card-list.tsx:115-131 | The pointer, the card, its source and its group id are recorded, a first insertion point is resolved, and the lists are unchanged. |
| DragSession.DraggableCardList.MouseMove | components/draggable-card-list.tsx:134-142 | With no card dragged, nothing changes. While dragging, the pointer is tracked and the insertion point is re-resolved. Lists and session fields stay as they were. |
| DragSession.DraggableCardList.DragEnd | components/draggable-card-list.tsx:283-335 | The lists become `Commit` of the old lists and session, and all four session fields are cleared. On a well-formed page, no card is lost or duplicated. |
| DragSession.DropKeepsCards | components/draggable-card-list.tsx:283-328 | A drop from any state meeting the session invariant keeps the page's cards and its well-formedness. |
| HoverReveal.Initial | components/insertion-point.tsx:12-15 | A newly mounted insertion point is not hovered, not revealed and has no timer. |
| HoverReveal.ClearRef | components/insertion-point.tsx:26-28 | `clearTimeout` on the ref's handle cancels that timer and no other. |
| HoverReveal.Step | components/insertion-point.tsx:19-68 | The reference definition of how the handlers and effects process one event: an unmounted point ignores every event, handles are never reused, at most the fresh handle is added to the pending timers, and the delayed flag is only ever set by a pending timer firing. Its invariant is proved in `StepPreservesInv` and `RunPreservesInv`, and each handler of `HoverInsertionPoint` is proved to perform it. |
| HoverReveal.InitialInv | components/insertion-point.tsx:12-16 | The initial state meets the invariant. |
| HoverReveal.StepPreservesInv | components/insertion-point.tsx:19-68 | Every handler and effect keeps the invariant. At most the ref's timer is pending, handles are fresh, and nothing is hovered or pending while dragging. An unmounted point has no pending timer. A pending timer or the delayed flag implies hovering. |
| HoverReveal.RunPreservesInv | components/insertion-point.tsx:19-68 | Any sequence of events keeps the invariant. |
| HoverReveal.VisibleOnlyWhileHovering | components/insertion-point.tsx:121 | In every reachable state, the affordance is shown only while the pointer is over it and no card is dragged. |
| HoverReveal.RevealOnlyByTimer | components/insertion-point.tsx:31-33 | The affordance goes from hidden to shown only when the pending hover timer held in the ref fires. |
| HoverReveal.EnterThenFireReveals | components/insertion-point.tsx:19-34 | Entering while not dragging sets hovering and leaves exactly one fresh timer pending. Its firing shows the affordance. |
| HoverReveal.EnterWhileDraggingIgnored | components/insertion-point.tsx:21 | Entering while a card is dragged changes nothing. |
| HoverReveal.ReenterCancelsEarlierTimer | components/insertion-point.tsx:25-33 | Re-entering cancels every earlier timer and leaves exactly one new one pending. |
| HoverReveal.StaleTimerIgnored | components/insertion-point.tsx:26-28 | A cancelled or already-fired timer changes nothing. |
| HoverReveal.QuietTimersChangeNothing | components/insertion-point.tsx:42-45 | With no timer pending, no timer event changes anything. |
| HoverReveal.ShortHoverNeverReveals | components/insertion-point.tsx:19-46 | After an enter followed by a leave, the affordance stays hidden whatever timer events come later. |
| HoverReveal.LeaveHides | components/insertion-point.tsx:37-46 | Leaving hides the affordance, clears both flags, cancels the pending timer and nulls the ref. |
| HoverReveal.DragStartResets | components/insertion-point.tsx:49-59 | When `isDragging` becomes true, both flags are cleared, the timer is cancelled and the ref is nulled. |
| HoverReveal.UnmountSilences | components/insertion-point.tsx:62-68 | Unmounting leaves no timer pending, and no later event changes anything. |
| HoverReveal.UnmountedIsInert | components/insertion-point.tsx:62-68 | Events after unmount change nothing. |
| HoverReveal.HoverInsertionPoint.constructor | components/insertion-point.tsx:12-16 | The component starts in the initial state with the given `isDragging`, and the invariant holds. |
| HoverReveal.HoverInsertionPoint.ClearTimer | components/insertion-point.tsx:26-28 | Clearing cancels the ref's timer, if any. |
| HoverReveal.HoverInsertionPoint.SetTimer | components/insertion-point.tsx:31-33 | Scheduling returns a fresh handle and makes it pending. |
| HoverReveal.HoverInsertionPoint.HandleMouseEnter | components/insertion-point.tsx:19-34 | The mouse-enter handler performs `Step(MouseEnter)` and keeps the invariant. |
| HoverReveal.HoverInsertionPoint.HandleMouseLeave | components/insertion-point.tsx:37-46 | The mouse-leave handler performs `Step(MouseLeave)` and keeps the invariant. |
| HoverReveal.HoverInsertionPoint.FireTimer | components/insertion-point.tsx:31-33 | A pending timer's callback performs `Step(TimerFires)` and shows the affordance. |
| HoverReveal.HoverInsertionPoint.SetDragging | components/insertion-point.tsx:49-59 | A new `isDragging` value and its effect perform `Step(DraggingChanged)` and keep the invariant. |
| HoverReveal.HoverInsertionPoint.Unmount | components/insertion-point.tsx:62-68 | The unmount cleanup performs `Step(Unmount)` and leaves no timer pending. |
| HoverReveal.HoverInsertionPoint.IsVisible | components/insertion-point.tsx:121 | The `animate` condition is true exactly when the delayed flag is set and no card is dragged, and then the pointer is over the point. |

## Left out

- Measuring the DOM (`getBoundingClientRect` through the element refs) is an input: each call becomes a `Layout` snapshot. Stale geometry is whatever the snapshot holds.
- `updateInsertionPoint` takes the pointer's X coordinate but never reads it, so the model drops it.
- The follower card's motion values and offsets, every `framer-motion` animation, the JSX, `AnimatePresence` and `LayoutGroup` are presentation only. Only the visibility condition of the insertion point is modelled.
- The 150 ms hover delay and real timer scheduling are not modelled. A pending timer may fire at any later step, and handles are abstract naturals.
- React's render cycle is not modelled: no batching, closures or re-render timing. A handler reads the state of its render, and the two list updaters of a drop run in order.
- JavaScript numbers are modelled as exact `real`s, without floating-point rounding.
- The insertion point's click callback, the group and card components, and the page shell are not part of this model.
- InsertionResolver.PlaceInListGeometry: leaves the top and width unstated in one case. The nearest card wins by its lower half, it is not the last card, and the card after it has no measured box. The code then keeps the top and target recorded for an earlier candidate (or the list's starting top), and the lemma does not state which.
- Reorder.CommitPreservesCards: requires non-empty group ids. With an empty source group id, the code's truthiness test skips the removal, and the card would be duplicated.
- DragSession.DraggableCardList.DragEnd: follows the code as written, including the same-list overshoot in the finding below. The corrected drop is `Reorder.CommitIntended`.

## Findings

| source | as written | input that shows it | evidently intended | confidence | as-written member | corrected member |
|---|---|---|---|---|---|---|
| components/draggable-card-list.tsx:284-327 | The drop index is resolved while the dragged card is still in its list, but it is applied after the card has been removed from that list. | A group holds [A, B, C]. Drag A and release with the pointer in B's lower half (A at 0–40, B at 50–90, C at 100–140, pointer at 80), so the indicator shows index 2, between B and C. The result is [B, C, A]. | The card lands in the gap the indicator showed: [B, A, C]. | not executed | DragSession.ExampleDragOvershoots | Reorder.CommitIntendedGroupKeepsGap |
