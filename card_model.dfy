/**
 * Values shared by the drag-and-drop list: cards, groups, measured rectangles,
 * the resolved insertion point, and the snapshot of measurements the resolver reads.
 */
module Wrappers {

  /** A value that may be absent: `T | null` in the component. */
  datatype Option<+T> = None | Some(value: T)
}

module CardModel {
  import opened Wrappers

  /** A link card (`CardItemType`). Only `id` matters to the drag logic. */
  datatype Item = Item(id: string, title: string, subtitle: string, image: string, gradient: string)

  /** A titled, ordered collection of cards (`CardGroupType`). */
  datatype Group = Group(id: string, title: string, items: seq<Item>)

  /** Where a dragged card was picked up from (`"group" | "ungrouped"`). */
  datatype Source = FromGroup | FromUngrouped

  /** The part of a bounding client rectangle the resolver reads. */
  datatype Rect = Rect(top: real, bottom: real, left: real, width: real) {

    function Height(): real { bottom - top }

    /** The vertical midpoint `top + height / 2` the nearest-card search measures against. */
    function Middle(): real { top + Height() / 2.0 }

    /** The pointer lies in the rectangle's vertical band, both edges included. */
    predicate ContainsY(y: real) { top <= y && y <= bottom }
  }

  /**
   * The resolved destination (`InsertionPointPosition`): `groupId` None is the
   * ungrouped list; `top`, `left` and `width` place the indicator line relative
   * to the outer container.
   */
  datatype InsertionPoint = InsertionPoint(groupId: Option<string>, index: nat, top: real, left: real, width: real)

  /**
   * One frame's measurements, read through the element refs: the outer container,
   * the ungrouped list's box, each group's box by group id and each card's box by
   * card id. A missing entry is an element that is not mounted.
   */
  datatype Layout = Layout(
    container: Option<Rect>,
    ungroupedBox: Option<Rect>,
    groupBoxes: map<string, Rect>,
    cards: map<string, Rect>)
}
