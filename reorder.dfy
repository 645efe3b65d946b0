/**
 * The list updates of the drop (`handleDragEnd`): the dragged card is filtered
 * out of its source list by id, then spliced into the destination list at the
 * resolved index. Both updates rebuild values, so they are sequence functions.
 */
module Reorder {
  import opened Wrappers
  import opened CardModel

  /** `items.filter(item => item.id !== id)`: every card with that id goes, the rest keep their order. */
  function RemoveById(items: seq<Item>, id: string): (r: seq<Item>)
    ensures |r| <= |items|
    ensures forall x :: x in r <==> x in items && x.id != id
  {
    if items == [] then []
    else (if items[0].id == id then [] else [items[0]]) + RemoveById(items[1..], id)
  }

  /** How many cards of `items` carry `id`. */
  function CountId(items: seq<Item>, id: string): (n: nat)
    ensures n <= |items|
    ensures n == 0 <==> forall x :: x in items ==> x.id != id
  {
    if items == [] then 0
    else (if items[0].id == id then 1 else 0) + CountId(items[1..], id)
  }

  /** No two cards share an id. */
  ghost predicate UniqueIds(items: seq<Item>) {
    forall id :: CountId(items, id) <= 1
  }

  /** The position `splice` uses: an index past the end means the end. */
  function SpliceAt(index: nat, length: nat): (k: nat)
    ensures k <= length && (index <= length ==> k == index) && (length < index ==> k == length)
  {
    if index <= length then index else length
  }

  /**
   * `[...items].splice(index, 0, x)`: `x` lands at the clamped index, and
   * taking it out again gives back the list it was put into.
   */
  function InsertAt(items: seq<Item>, index: nat, x: Item): (r: seq<Item>)
    ensures |r| == |items| + 1
    ensures var k := SpliceAt(index, |items|); r[k] == x && r[..k] + r[k + 1..] == items
    ensures multiset(r) == multiset(items) + multiset{x}
  {
    var k := SpliceAt(index, |items|);
    assert items == items[..k] + items[k..];
    var r := items[..k] + [x] + items[k..];
    assert r[..k] == items[..k] && r[k + 1..] == items[k..];
    r
  }

  lemma {:induction false} CountIdAppend(a: seq<Item>, b: seq<Item>, id: string)
    ensures CountId(a + b, id) == CountId(a, id) + CountId(b, id)
  {
    if a == [] {
      assert a + b == b;
    } else {
      assert (a + b)[0] == a[0] && (a + b)[1..] == a[1..] + b;
      CountIdAppend(a[1..], b, id);
    }
  }

  lemma {:induction false} RemoveByIdAppend(a: seq<Item>, b: seq<Item>, id: string)
    ensures RemoveById(a + b, id) == RemoveById(a, id) + RemoveById(b, id)
  {
    if a == [] {
      assert a + b == b;
    } else {
      assert (a + b)[1..] == a[1..] + b;
      RemoveByIdAppend(a[1..], b, id);
    }
  }

  /** Removal by id leaves no card with that id and the count of every other id as it was. */
  lemma {:induction false} RemoveByIdCount(items: seq<Item>, id: string, other: string)
    ensures CountId(RemoveById(items, id), id) == 0
    ensures other != id ==> CountId(RemoveById(items, id), other) == CountId(items, other)
  {
    if items != [] {
      RemoveByIdCount(items[1..], id, other);
      CountIdAppend(if items[0].id == id then [] else [items[0]], RemoveById(items[1..], id), other);
    }
  }

  /** A list without the id is left as it is. */
  lemma {:induction false} RemoveByIdAbsent(items: seq<Item>, id: string)
    requires CountId(items, id) == 0
    ensures RemoveById(items, id) == items
  {
    if items != [] {
      RemoveByIdAbsent(items[1..], id);
      assert items == [items[0]] + items[1..];
    }
  }

  /** When `x` is the only card with its id, removal by that id takes out exactly `x`. */
  lemma {:induction false} RemoveByIdTakesOne(items: seq<Item>, x: Item)
    requires x in items && CountId(items, x.id) <= 1
    ensures multiset(RemoveById(items, x.id)) + multiset{x} == multiset(items)
  {
    var rest := RemoveById(items[1..], x.id);
    assert multiset(items) == multiset{items[0]} + multiset(items[1..]) by {
      assert items == [items[0]] + items[1..];
    }
    if items[0] == x {
      assert RemoveById(items, x.id) == items[1..] by {
        assert CountId(items[1..], x.id) == 0;
        RemoveByIdAbsent(items[1..], x.id);
      }
    } else {
      assert RemoveById(items, x.id) == [items[0]] + rest by {
        assert x in items[1..];
        assert CountId(items[1..], x.id) >= 1;
      }
      RemoveByIdTakesOne(items[1..], x);
    }
  }

  /** Splicing `x` in adds one to the count of its id and leaves the others. */
  lemma InsertAtCount(items: seq<Item>, index: nat, x: Item, id: string)
    ensures CountId(InsertAt(items, index, x), id) == CountId(items, id) + (if x.id == id then 1 else 0)
  {
    var k := SpliceAt(index, |items|);
    var r := InsertAt(items, index, x);
    assert r == r[..k] + ([x] + r[k + 1..]);
    CountIdAppend(r[..k], [x] + r[k + 1..], id);
    CountIdAppend([x], r[k + 1..], id);
    CountIdAppend(r[..k], r[k + 1..], id);
  }

  /** All cards of all groups, in group order. */
  function Flatten(groups: seq<Group>): seq<Item> {
    if groups == [] then [] else groups[0].items + Flatten(groups[1..])
  }

  /** The two lists of the component: `groups` and `ungroupedItems`. */
  datatype Lists = Lists(groups: seq<Group>, ungrouped: seq<Item>) {

    /** Every card on the page, grouped ones first. */
    function AllItems(): seq<Item> { Flatten(groups) + ungrouped }
  }

  /** The groups keep their ids and titles; only their cards may differ. */
  predicate SameGroupShape(before: seq<Group>, after: seq<Group>) {
    |after| == |before| && forall k :: 0 <= k < |after| ==> after[k].id == before[k].id && after[k].title == before[k].title
  }

  /** No two groups share an id. */
  predicate UniqueGroupIds(groups: seq<Group>) {
    forall i, j :: 0 <= i < j < |groups| ==> groups[i].id != groups[j].id
  }

  /** Some group carries the id `groupId`. */
  predicate HasGroup(groups: seq<Group>, groupId: string) {
    exists k :: 0 <= k < |groups| && groups[k].id == groupId
  }

  /** The removal updater over the groups: the groups with id `groupId` lose the cards with id `id`. */
  function RemoveFromGroups(groups: seq<Group>, groupId: string, id: string): (r: seq<Group>)
    ensures SameGroupShape(groups, r)
    ensures forall k :: 0 <= k < |r| && groups[k].id != groupId ==> r[k] == groups[k]
    ensures forall k :: 0 <= k < |r| && groups[k].id == groupId ==> r[k].items == RemoveById(groups[k].items, id)
  {
    if groups == [] then []
    else
      var g := groups[0];
      [if g.id == groupId then g.(items := RemoveById(g.items, id)) else g] + RemoveFromGroups(groups[1..], groupId, id)
  }

  /** The insertion updater over the groups: `x` is spliced into every group with id `groupId`. */
  function InsertIntoGroups(groups: seq<Group>, groupId: string, index: nat, x: Item): (r: seq<Group>)
    ensures SameGroupShape(groups, r)
    ensures forall k :: 0 <= k < |r| && groups[k].id != groupId ==> r[k] == groups[k]
    ensures forall k :: 0 <= k < |r| && groups[k].id == groupId ==> r[k].items == InsertAt(groups[k].items, index, x)
  {
    if groups == [] then []
    else
      var g := groups[0];
      [if g.id == groupId then g.(items := InsertAt(g.items, index, x)) else g] + InsertIntoGroups(groups[1..], groupId, index, x)
  }

  /** JavaScript truthiness of a group id: present and not the empty string. */
  predicate Truthy(groupId: Option<string>) {
    groupId.Some? && groupId.value != ""
  }

  /** First updater of the drop: take the card out of the list it came from. */
  function RemoveFromSource(lists: Lists, id: string, source: Source, groupId: Option<string>): (r: Lists)
    ensures SameGroupShape(lists.groups, r.groups)
    ensures source == FromUngrouped ==> r.groups == lists.groups
    ensures source == FromGroup ==> r.ungrouped == lists.ungrouped
  {
    if source == FromGroup && Truthy(groupId) then
      lists.(groups := RemoveFromGroups(lists.groups, groupId.value, id))
    else if source == FromUngrouped then
      lists.(ungrouped := RemoveById(lists.ungrouped, id))
    else lists
  }

  /** Second updater of the drop: splice the card into the destination list. */
  function InsertAtTarget(lists: Lists, x: Item, ip: InsertionPoint): (r: Lists)
    ensures SameGroupShape(lists.groups, r.groups)
    ensures ip.groupId.None? ==> r.groups == lists.groups && r.ungrouped == InsertAt(lists.ungrouped, ip.index, x)
    ensures ip.groupId.Some? ==> r.ungrouped == lists.ungrouped
  {
    if ip.groupId.None? then lists.(ungrouped := InsertAt(lists.ungrouped, ip.index, x))
    else lists.(groups := InsertIntoGroups(lists.groups, ip.groupId.value, ip.index, x))
  }

  /**
   * The list updates of `handleDragEnd`, applied in order: removal from the
   * source, then insertion at the target. Without a dragged card or an
   * insertion point nothing changes.
   */
  function Commit(lists: Lists, dragged: Option<Item>, source: Option<Source>, groupId: Option<string>, ip: Option<InsertionPoint>): (r: Lists)
    ensures dragged.None? || ip.None? ==> r == lists
    ensures SameGroupShape(lists.groups, r.groups)
  {
    if dragged.Some? && ip.Some? then
      var removed := if source.Some? then RemoveFromSource(lists, dragged.value.id, source.value, groupId) else lists;
      InsertAtTarget(removed, dragged.value, ip.value)
    else lists
  }

  /**
   * A drop touches only its source and its destination: every group that is
   * neither keeps its cards, and the ungrouped list is unchanged unless it is
   * one of the two.
   */
  lemma CommitTouchesOnlySourceAndTarget(lists: Lists, dragged: Option<Item>, source: Option<Source>, groupId: Option<string>, ip: Option<InsertionPoint>)
    ensures var r := Commit(lists, dragged, source, groupId, ip);
      && (forall k ::
            (0 <= k < |lists.groups| && Some(lists.groups[k].id) != groupId
             && (ip.None? || Some(lists.groups[k].id) != ip.value.groupId)) ==> r.groups[k] == lists.groups[k])
      && (source != Some(FromUngrouped) && (ip.None? || ip.value.groupId.Some?) ==> r.ungrouped == lists.ungrouped)
  {
    if dragged.Some? && ip.Some? {
      var removed := if source.Some? then RemoveFromSource(lists, dragged.value.id, source.value, groupId) else lists;
      var r := InsertAtTarget(removed, dragged.value, ip.value);
      forall k | 0 <= k < |lists.groups| && Some(lists.groups[k].id) != groupId && Some(lists.groups[k].id) != ip.value.groupId
        ensures r.groups[k] == lists.groups[k]
      {
        assert removed.groups[k] == lists.groups[k];
        assert removed.groups[k].id == lists.groups[k].id;
      }
    }
  }

  lemma {:induction false} FlattenAppend(a: seq<Group>, b: seq<Group>)
    ensures Flatten(a + b) == Flatten(a) + Flatten(b)
  {
    if a == [] {
      assert a + b == b;
    } else {
      assert (a + b)[0] == a[0] && (a + b)[1..] == a[1..] + b;
      FlattenAppend(a[1..], b);
    }
  }

  lemma {:induction false} FlattenHas(groups: seq<Group>, k: nat, x: Item)
    requires k < |groups| && x in groups[k].items
    ensures x in Flatten(groups)
  {
    if k > 0 {
      FlattenHas(groups[1..], k - 1, x);
    }
  }

  /** The removal updater, one group at a time. */
  lemma RemoveFromGroupsCons(groups: seq<Group>, groupId: string, id: string)
    requires groups != []
    ensures Flatten(RemoveFromGroups(groups, groupId, id))
         == (if groups[0].id == groupId then RemoveById(groups[0].items, id) else groups[0].items)
            + Flatten(RemoveFromGroups(groups[1..], groupId, id))
  {
    var r := RemoveFromGroups(groups, groupId, id);
    assert r[1..] == RemoveFromGroups(groups[1..], groupId, id);
  }

  /** The insertion updater, one group at a time. */
  lemma InsertIntoGroupsCons(groups: seq<Group>, groupId: string, index: nat, x: Item)
    requires groups != []
    ensures Flatten(InsertIntoGroups(groups, groupId, index, x))
         == (if groups[0].id == groupId then InsertAt(groups[0].items, index, x) else groups[0].items)
            + Flatten(InsertIntoGroups(groups[1..], groupId, index, x))
  {
    var r := InsertIntoGroups(groups, groupId, index, x);
    assert r[1..] == InsertIntoGroups(groups[1..], groupId, index, x);
  }

  /** Removing one id from groups leaves the count of every other id as it was. */
  lemma {:induction false} RemoveFromGroupsOther(groups: seq<Group>, groupId: string, id: string, other: string)
    requires other != id
    ensures CountId(Flatten(RemoveFromGroups(groups, groupId, id)), other) == CountId(Flatten(groups), other)
  {
    if groups != [] {
      var g := groups[0];
      var head := if g.id == groupId then RemoveById(g.items, id) else g.items;
      RemoveFromGroupsCons(groups, groupId, id);
      RemoveFromGroupsOther(groups[1..], groupId, id, other);
      RemoveByIdCount(g.items, id, other);
      CountIdAppend(head, Flatten(RemoveFromGroups(groups[1..], groupId, id)), other);
      CountIdAppend(g.items, Flatten(groups[1..]), other);
    }
  }

  /** Groups without the id are left as they are. */
  lemma {:induction false} RemoveFromGroupsAbsent(groups: seq<Group>, groupId: string, id: string)
    requires CountId(Flatten(groups), id) == 0
    ensures Flatten(RemoveFromGroups(groups, groupId, id)) == Flatten(groups)
  {
    if groups != [] {
      RemoveFromGroupsCons(groups, groupId, id);
      CountIdAppend(groups[0].items, Flatten(groups[1..]), id);
      RemoveByIdAbsent(groups[0].items, id);
      RemoveFromGroupsAbsent(groups[1..], groupId, id);
    }
  }

  /** `x` sits in a group with id `groupId`. */
  ghost predicate InGroup(groups: seq<Group>, groupId: string, x: Item) {
    exists k :: 0 <= k < |groups| && groups[k].id == groupId && x in groups[k].items
  }

  /**
   * When `x` is the only card with its id and it sits in group `groupId`, the
   * removal updater takes out exactly `x` and no card with its id is left.
   */
  lemma {:induction false} RemoveFromGroupsTakesOne(groups: seq<Group>, groupId: string, x: Item)
    requires CountId(Flatten(groups), x.id) <= 1 && InGroup(groups, groupId, x)
    ensures var r := Flatten(RemoveFromGroups(groups, groupId, x.id));
      multiset(r) + multiset{x} == multiset(Flatten(groups)) && CountId(r, x.id) == 0
  {
    if groups[0].id == groupId && x in groups[0].items {
      RemoveFromFirstGroup(groups, groupId, x);
    } else {
      var k :| 0 <= k < |groups| && groups[k].id == groupId && x in groups[k].items;
      assert groups[1..][k - 1] == groups[k];
      FlattenHas(groups[1..], k - 1, x);
      CountIdAppend(groups[0].items, Flatten(groups[1..]), x.id);
      RemoveFromGroupsTakesOne(groups[1..], groupId, x);
      RemoveFromLaterGroup(groups, groupId, x);
    }
  }

  /** The removal step when `x` sits in the first group. */
  lemma RemoveFromFirstGroup(groups: seq<Group>, groupId: string, x: Item)
    requires groups != [] && groups[0].id == groupId && x in groups[0].items
    requires CountId(Flatten(groups), x.id) <= 1
    ensures var r := Flatten(RemoveFromGroups(groups, groupId, x.id));
      multiset(r) + multiset{x} == multiset(Flatten(groups)) && CountId(r, x.id) == 0
  {
    var g := groups[0];
    var head := RemoveById(g.items, x.id);
    var rest := Flatten(RemoveFromGroups(groups[1..], groupId, x.id));
    var r := Flatten(RemoveFromGroups(groups, groupId, x.id));
    RemoveFromGroupsCons(groups, groupId, x.id);
    assert r == head + rest;
    assert Flatten(groups) == g.items + Flatten(groups[1..]);
    CountIdAppend(g.items, Flatten(groups[1..]), x.id);
    CountIdAppend(head, rest, x.id);
    RemoveByIdTakesOne(g.items, x);
    RemoveByIdCount(g.items, x.id, x.id);
    RemoveFromGroupsAbsent(groups[1..], groupId, x.id);
    assert rest == Flatten(groups[1..]);
  }

  /** The removal step when `x` sits in a later group: the first group has no card with its id. */
  lemma RemoveFromLaterGroup(groups: seq<Group>, groupId: string, x: Item)
    requires groups != [] && x in Flatten(groups[1..])
    requires CountId(Flatten(groups), x.id) <= 1
    requires var rest := Flatten(RemoveFromGroups(groups[1..], groupId, x.id));
      multiset(rest) + multiset{x} == multiset(Flatten(groups[1..])) && CountId(rest, x.id) == 0
    ensures var r := Flatten(RemoveFromGroups(groups, groupId, x.id));
      multiset(r) + multiset{x} == multiset(Flatten(groups)) && CountId(r, x.id) == 0
  {
    var g := groups[0];
    var rest := Flatten(RemoveFromGroups(groups[1..], groupId, x.id));
    var r := Flatten(RemoveFromGroups(groups, groupId, x.id));
    RemoveFromGroupsCons(groups, groupId, x.id);
    assert Flatten(groups) == g.items + Flatten(groups[1..]);
    CountIdAppend(g.items, Flatten(groups[1..]), x.id);
    assert CountId(g.items, x.id) == 0;
    RemoveByIdAbsent(g.items, x.id);
    assert r == g.items + rest;
    CountIdAppend(g.items, rest, x.id);
  }

  /** Inserting into groups none of which carries the id changes nothing. */
  lemma InsertIntoGroupsAbsent(groups: seq<Group>, groupId: string, index: nat, x: Item)
    requires !HasGroup(groups, groupId)
    ensures InsertIntoGroups(groups, groupId, index, x) == groups
  {
    var r := InsertIntoGroups(groups, groupId, index, x);
    assert forall k :: 0 <= k < |r| ==> r[k] == groups[k];
  }

  /**
   * When exactly one group carries the id, the insertion updater adds exactly
   * `x`: one more card with its id, every other count unchanged.
   */
  lemma {:induction false} InsertIntoGroupsAddsOne(groups: seq<Group>, groupId: string, index: nat, x: Item, id: string)
    requires UniqueGroupIds(groups) && HasGroup(groups, groupId)
    ensures var r := Flatten(InsertIntoGroups(groups, groupId, index, x));
      && multiset(r) == multiset(Flatten(groups)) + multiset{x}
      && CountId(r, id) == CountId(Flatten(groups), id) + (if x.id == id then 1 else 0)
  {
    UniqueGroupIdsTail(groups, groupId);
    if groups[0].id == groupId {
      InsertIntoFirstGroup(groups, groupId, index, x, id);
    } else {
      InsertIntoGroupsAddsOne(groups[1..], groupId, index, x, id);
      InsertIntoLaterGroup(groups, groupId, index, x, id);
    }
  }

  /** The insertion step when the first group is the destination and no later group carries its id. */
  lemma InsertIntoFirstGroup(groups: seq<Group>, groupId: string, index: nat, x: Item, id: string)
    requires groups != [] && groups[0].id == groupId && !HasGroup(groups[1..], groupId)
    ensures var r := Flatten(InsertIntoGroups(groups, groupId, index, x));
      && multiset(r) == multiset(Flatten(groups)) + multiset{x}
      && CountId(r, id) == CountId(Flatten(groups), id) + (if x.id == id then 1 else 0)
  {
    var g := groups[0];
    var head := InsertAt(g.items, index, x);
    var r := Flatten(InsertIntoGroups(groups, groupId, index, x));
    InsertIntoGroupsCons(groups, groupId, index, x);
    InsertIntoGroupsAbsent(groups[1..], groupId, index, x);
    assert r == head + Flatten(groups[1..]);
    assert Flatten(groups) == g.items + Flatten(groups[1..]);
    CountIdAppend(g.items, Flatten(groups[1..]), id);
    CountIdAppend(head, Flatten(groups[1..]), id);
    InsertAtCount(g.items, index, x, id);
  }

  /** The insertion step when a later group is the destination: the first group is kept as it is. */
  lemma InsertIntoLaterGroup(groups: seq<Group>, groupId: string, index: nat, x: Item, id: string)
    requires groups != [] && groups[0].id != groupId
    requires var rest := Flatten(InsertIntoGroups(groups[1..], groupId, index, x));
      && multiset(rest) == multiset(Flatten(groups[1..])) + multiset{x}
      && CountId(rest, id) == CountId(Flatten(groups[1..]), id) + (if x.id == id then 1 else 0)
    ensures var r := Flatten(InsertIntoGroups(groups, groupId, index, x));
      && multiset(r) == multiset(Flatten(groups)) + multiset{x}
      && CountId(r, id) == CountId(Flatten(groups), id) + (if x.id == id then 1 else 0)
  {
    var g := groups[0];
    var rest := Flatten(InsertIntoGroups(groups[1..], groupId, index, x));
    var r := Flatten(InsertIntoGroups(groups, groupId, index, x));
    InsertIntoGroupsCons(groups, groupId, index, x);
    assert r == g.items + rest;
    assert Flatten(groups) == g.items + Flatten(groups[1..]);
    CountIdAppend(g.items, Flatten(groups[1..]), id);
    CountIdAppend(g.items, rest, id);
  }

  /** The groups after the first keep their ids unique, and hold `groupId` unless the first one does. */
  lemma UniqueGroupIdsTail(groups: seq<Group>, groupId: string)
    requires groups != [] && UniqueGroupIds(groups) && HasGroup(groups, groupId)
    ensures UniqueGroupIds(groups[1..])
    ensures groups[0].id == groupId ==> !HasGroup(groups[1..], groupId)
    ensures groups[0].id != groupId ==> HasGroup(groups[1..], groupId)
  {
    var tail := groups[1..];
    assert forall i :: 0 <= i < |tail| ==> tail[i] == groups[i + 1];
    if groups[0].id != groupId {
      var k :| 0 <= k < |groups| && groups[k].id == groupId;
      assert tail[k - 1].id == groupId;
    }
  }

  /** The page's invariant: card ids are unique across all lists, group ids are unique and non-empty. */
  ghost predicate WellFormed(lists: Lists) {
    && UniqueIds(lists.AllItems())
    && UniqueGroupIds(lists.groups)
    && forall k :: 0 <= k < |lists.groups| ==> lists.groups[k].id != ""
  }

  /** The dragged card sits in the list its drag session recorded as its source. */
  ghost predicate InSource(lists: Lists, x: Item, source: Source, groupId: Option<string>) {
    match source
    case FromUngrouped => x in lists.ungrouped
    case FromGroup => groupId.Some? && InGroup(lists.groups, groupId.value, x)
  }

  /** The destination list of an insertion point exists. */
  predicate DestinationExists(groups: seq<Group>, ip: InsertionPoint) {
    ip.groupId.Some? ==> HasGroup(groups, ip.groupId.value)
  }

  lemma SameShapeKeepsGroupFacts(before: seq<Group>, after: seq<Group>, groupId: string)
    requires SameGroupShape(before, after)
    ensures UniqueGroupIds(before) ==> UniqueGroupIds(after)
    ensures HasGroup(before, groupId) ==> HasGroup(after, groupId)
    ensures (forall k :: 0 <= k < |before| ==> before[k].id != "") ==> forall k :: 0 <= k < |after| ==> after[k].id != ""
  {
    if HasGroup(before, groupId) {
      var k :| 0 <= k < |before| && before[k].id == groupId;
      assert after[k].id == groupId;
    }
  }

  /** Removing the dragged card from its source leaves the count of every other id as it was. */
  lemma RemoveFromSourceOther(lists: Lists, x: Item, source: Source, groupId: Option<string>, other: string)
    requires other != x.id
    ensures CountId(RemoveFromSource(lists, x.id, source, groupId).AllItems(), other) == CountId(lists.AllItems(), other)
  {
    var r := RemoveFromSource(lists, x.id, source, groupId);
    CountIdAppend(Flatten(lists.groups), lists.ungrouped, other);
    CountIdAppend(Flatten(r.groups), r.ungrouped, other);
    if source == FromGroup && Truthy(groupId) {
      RemoveFromGroupsOther(lists.groups, groupId.value, x.id, other);
    } else if source == FromUngrouped {
      RemoveByIdCount(lists.ungrouped, x.id, other);
    }
  }

  /**
   * Removing the dragged card from its source: with unique ids it takes out
   * exactly that card and leaves no card with its id anywhere.
   */
  lemma RemoveFromSourceTakesOne(lists: Lists, x: Item, source: Source, groupId: Option<string>)
    requires WellFormed(lists) && InSource(lists, x, source, groupId)
    ensures var r := RemoveFromSource(lists, x.id, source, groupId);
      multiset(r.AllItems()) + multiset{x} == multiset(lists.AllItems()) && CountId(r.AllItems(), x.id) == 0
  {
    assert CountId(lists.AllItems(), x.id) <= 1;
    if source == FromGroup {
      var k :| 0 <= k < |lists.groups| && lists.groups[k].id == groupId.value && x in lists.groups[k].items;
      assert groupId.value != "";
      RemoveFromGroupSource(lists, x, groupId.value);
    } else {
      RemoveFromUngroupedSource(lists, x);
    }
  }

  lemma RemoveFromGroupSource(lists: Lists, x: Item, g: string)
    requires CountId(lists.AllItems(), x.id) <= 1 && InGroup(lists.groups, g, x)
    ensures var r := lists.(groups := RemoveFromGroups(lists.groups, g, x.id));
      multiset(r.AllItems()) + multiset{x} == multiset(lists.AllItems()) && CountId(r.AllItems(), x.id) == 0
  {
    var before := Flatten(lists.groups);
    CountIdAppend(before, lists.ungrouped, x.id);
    RemoveFromGroupsTakesOne(lists.groups, g, x);
    var k :| 0 <= k < |lists.groups| && lists.groups[k].id == g && x in lists.groups[k].items;
    FlattenHas(lists.groups, k, x);
    TakeOneFromFront(before, Flatten(RemoveFromGroups(lists.groups, g, x.id)), lists.ungrouped, x);
  }

  /** Taking the only card with `x`'s id out of the front part of a concatenation. */
  lemma TakeOneFromFront(a: seq<Item>, rest: seq<Item>, b: seq<Item>, x: Item)
    requires x in a && CountId(a + b, x.id) <= 1
    requires multiset(rest) + multiset{x} == multiset(a) && CountId(rest, x.id) == 0
    ensures multiset(rest + b) + multiset{x} == multiset(a + b) && CountId(rest + b, x.id) == 0
  {
    CountIdAppend(a, b, x.id);
    CountIdAppend(rest, b, x.id);
    assert CountId(a, x.id) >= 1;
  }

  lemma RemoveFromUngroupedSource(lists: Lists, x: Item)
    requires CountId(lists.AllItems(), x.id) <= 1 && x in lists.ungrouped
    ensures var r := lists.(ungrouped := RemoveById(lists.ungrouped, x.id));
      multiset(r.AllItems()) + multiset{x} == multiset(lists.AllItems()) && CountId(r.AllItems(), x.id) == 0
  {
    var before := Flatten(lists.groups);
    var rest := RemoveById(lists.ungrouped, x.id);
    CountIdAppend(before, lists.ungrouped, x.id);
    CountIdAppend(before, rest, x.id);
    RemoveByIdTakesOne(lists.ungrouped, x);
    RemoveByIdCount(lists.ungrouped, x.id, x.id);
  }

  /** Splicing `x` into an existing destination adds exactly `x`. */
  lemma InsertAtTargetAddsOne(lists: Lists, x: Item, ip: InsertionPoint, id: string)
    requires UniqueGroupIds(lists.groups) && DestinationExists(lists.groups, ip)
    ensures var r := InsertAtTarget(lists, x, ip);
      && multiset(r.AllItems()) == multiset(lists.AllItems()) + multiset{x}
      && CountId(r.AllItems(), id) == CountId(lists.AllItems(), id) + (if x.id == id then 1 else 0)
  {
    if ip.groupId.None? {
      InsertIntoUngrouped(lists, x, ip.index, id);
    } else {
      InsertIntoGroup(lists, x, ip.groupId.value, ip.index, id);
    }
  }

  lemma InsertIntoUngrouped(lists: Lists, x: Item, index: nat, id: string)
    ensures var r := lists.(ungrouped := InsertAt(lists.ungrouped, index, x));
      && multiset(r.AllItems()) == multiset(lists.AllItems()) + multiset{x}
      && CountId(r.AllItems(), id) == CountId(lists.AllItems(), id) + (if x.id == id then 1 else 0)
  {
    var before := Flatten(lists.groups);
    CountIdAppend(before, lists.ungrouped, id);
    CountIdAppend(before, InsertAt(lists.ungrouped, index, x), id);
    InsertAtCount(lists.ungrouped, index, x, id);
  }

  lemma InsertIntoGroup(lists: Lists, x: Item, g: string, index: nat, id: string)
    requires UniqueGroupIds(lists.groups) && HasGroup(lists.groups, g)
    ensures var r := lists.(groups := InsertIntoGroups(lists.groups, g, index, x));
      && multiset(r.AllItems()) == multiset(lists.AllItems()) + multiset{x}
      && CountId(r.AllItems(), id) == CountId(lists.AllItems(), id) + (if x.id == id then 1 else 0)
  {
    var before, after := Flatten(lists.groups), Flatten(InsertIntoGroups(lists.groups, g, index, x));
    CountIdAppend(before, lists.ungrouped, id);
    CountIdAppend(after, lists.ungrouped, id);
    InsertIntoGroupsAddsOne(lists.groups, g, index, x, id);
  }

  /**
   * Exclusivity: a drop onto an existing list moves the dragged card and
   * nothing else. The cards on the page are the same multiset as before, and
   * ids stay unique, so every card is still in exactly one list.
   */
  lemma CommitPreservesCards(lists: Lists, x: Item, source: Source, groupId: Option<string>, ip: InsertionPoint)
    requires WellFormed(lists) && InSource(lists, x, source, groupId) && DestinationExists(lists.groups, ip)
    ensures var r := Commit(lists, Some(x), Some(source), groupId, Some(ip));
      multiset(r.AllItems()) == multiset(lists.AllItems()) && WellFormed(r)
  {
    var removed := RemoveFromSource(lists, x.id, source, groupId);
    var r := Commit(lists, Some(x), Some(source), groupId, Some(ip));
    assert r == InsertAtTarget(removed, x, ip);
    RemoveFromSourceTakesOne(lists, x, source, groupId);
    SameShapeKeepsGroupFacts(lists.groups, removed.groups, if ip.groupId.Some? then ip.groupId.value else "");
    SameShapeKeepsGroupFacts(lists.groups, r.groups, "");
    InsertAtTargetAddsOne(removed, x, ip, x.id);
    forall id
      ensures CountId(r.AllItems(), id) <= 1
    {
      InsertAtTargetAddsOne(removed, x, ip, id);
      if id != x.id {
        RemoveFromSourceOther(lists, x, source, groupId, id);
      }
    }
  }

  /**
   * A drop whose destination group does not exist removes the dragged card
   * and inserts it nowhere: the card is lost.
   */
  lemma CommitWithoutDestinationLosesCard(lists: Lists, x: Item, source: Source, groupId: Option<string>, ip: InsertionPoint)
    requires WellFormed(lists) && InSource(lists, x, source, groupId) && !DestinationExists(lists.groups, ip)
    ensures var r := Commit(lists, Some(x), Some(source), groupId, Some(ip));
      multiset(r.AllItems()) + multiset{x} == multiset(lists.AllItems()) && CountId(r.AllItems(), x.id) == 0
  {
    var removed := RemoveFromSource(lists, x.id, source, groupId);
    RemoveFromSourceTakesOne(lists, x, source, groupId);
    SameShapeKeepsGroupFacts(removed.groups, lists.groups, ip.groupId.value);
    InsertIntoGroupsAbsent(removed.groups, ip.groupId.value, ip.index, x);
  }

  // A same-list drop below the card's own position lands one place too far.

  /**
   * The drop as written, when source and destination are the same list: the
   * index, resolved against the list that still holds the card, is applied
   * after the card was taken out.
   */
  function MoveWithinListAsWritten(items: seq<Item>, x: Item, gap: nat): seq<Item> {
    InsertAt(RemoveById(items, x.id), gap, x)
  }

  /**
   * The intended result of dropping `x` into gap `gap` of a list: the cards
   * before the gap, then `x`, then the cards after the gap, without `x`'s id.
   */
  function DropIntoGap(items: seq<Item>, x: Item, gap: nat): seq<Item>
    requires gap <= |items|
  {
    RemoveById(items[..gap], x.id) + [x] + RemoveById(items[gap..], x.id)
  }

  /** The splice index that reaches gap `gap` once the cards with `x`'s id are gone. */
  function AdjustedIndex(items: seq<Item>, x: Item, gap: nat): (k: nat)
    requires gap <= |items|
    ensures k <= gap
  {
    gap - CountId(items[..gap], x.id)
  }

  /** The corrected same-list drop: splice at the adjusted index. */
  function MoveWithinList(items: seq<Item>, x: Item, gap: nat): seq<Item>
    requires gap <= |items|
  {
    InsertAt(RemoveById(items, x.id), AdjustedIndex(items, x, gap), x)
  }

  lemma {:induction false} RemoveByIdLength(items: seq<Item>, id: string)
    ensures |RemoveById(items, id)| == |items| - CountId(items, id)
  {
    if items != [] {
      RemoveByIdLength(items[1..], id);
    }
  }

  /** The corrected drop puts the card exactly into the gap the indicator showed, wherever the card came from. */
  lemma MoveWithinListKeepsGap(items: seq<Item>, x: Item, gap: nat)
    requires gap <= |items|
    ensures MoveWithinList(items, x, gap) == DropIntoGap(items, x, gap)
  {
    var before, after := RemoveById(items[..gap], x.id), RemoveById(items[gap..], x.id);
    assert items == items[..gap] + items[gap..];
    RemoveByIdAppend(items[..gap], items[gap..], x.id);
    RemoveByIdLength(items[..gap], x.id);
    var rest := RemoveById(items, x.id);
    assert rest == before + after;
    var k := AdjustedIndex(items, x, gap);
    assert |before| == k;
    assert rest[..k] == before && rest[k..] == after;
  }

  /**
   * The code as written keeps the gap only when the card did not come from
   * above it; a card moved down its own list overshoots.
   */
  lemma AsWrittenKeepsGapFromBelow(items: seq<Item>, x: Item, gap: nat)
    requires gap <= |items| && CountId(items[..gap], x.id) == 0
    ensures MoveWithinListAsWritten(items, x, gap) == DropIntoGap(items, x, gap)
  {
    MoveWithinListKeepsGap(items, x, gap);
  }

  /** The cards of the first group with id `groupId`, or none. */
  function GroupItems(groups: seq<Group>, groupId: string): (items: seq<Item>)
    ensures !HasGroup(groups, groupId) ==> items == []
  {
    if groups == [] then []
    else if groups[0].id == groupId then groups[0].items
    else GroupItems(groups[1..], groupId)
  }

  lemma {:induction false} GroupItemsOf(groups: seq<Group>, k: nat)
    requires k < |groups| && UniqueGroupIds(groups)
    ensures GroupItems(groups, groups[k].id) == groups[k].items
  {
    if k > 0 {
      assert groups[0].id != groups[k].id;
      assert groups[1..][k - 1] == groups[k];
      GroupItemsOf(groups[1..], k - 1);
    }
  }

  /** The insertion point with its index corrected for the dragged card's own slot above the gap. */
  function IntendedTarget(lists: Lists, x: Item, ip: InsertionPoint): (t: InsertionPoint)
    ensures t.groupId == ip.groupId && t.index <= ip.index
  {
    var dest := if ip.groupId.None? then lists.ungrouped else GroupItems(lists.groups, ip.groupId.value);
    ip.(index := AdjustedIndex(dest, x, SpliceAt(ip.index, |dest|)))
  }

  /** The corrected drop: the updates of `handleDragEnd` applied at the corrected index. */
  function CommitIntended(lists: Lists, dragged: Option<Item>, source: Option<Source>, groupId: Option<string>, ip: Option<InsertionPoint>): (r: Lists)
    ensures dragged.None? || ip.None? ==> r == lists
    ensures SameGroupShape(lists.groups, r.groups)
  {
    if dragged.Some? && ip.Some? then
      Commit(lists, dragged, source, groupId, Some(IntendedTarget(lists, dragged.value, ip.value)))
    else lists
  }

  /** The corrected drop loses and duplicates no card either. */
  lemma CommitIntendedPreservesCards(lists: Lists, x: Item, source: Source, groupId: Option<string>, ip: InsertionPoint)
    requires WellFormed(lists) && InSource(lists, x, source, groupId) && DestinationExists(lists.groups, ip)
    ensures var r := CommitIntended(lists, Some(x), Some(source), groupId, Some(ip));
      multiset(r.AllItems()) == multiset(lists.AllItems()) && WellFormed(r)
  {
    CommitPreservesCards(lists, x, source, groupId, IntendedTarget(lists, x, ip));
  }

  /** Reordering the ungrouped list with the corrected drop lands the card in the gap the indicator showed. */
  lemma CommitIntendedUngroupedKeepsGap(lists: Lists, x: Item, groupId: Option<string>, ip: InsertionPoint)
    requires ip.groupId.None? && ip.index <= |lists.ungrouped|
    ensures CommitIntended(lists, Some(x), Some(FromUngrouped), groupId, Some(ip)).ungrouped
         == DropIntoGap(lists.ungrouped, x, ip.index)
  {
    var t := IntendedTarget(lists, x, ip);
    assert t.index == AdjustedIndex(lists.ungrouped, x, ip.index);
    var removed := RemoveFromSource(lists, x.id, FromUngrouped, groupId);
    assert CommitIntended(lists, Some(x), Some(FromUngrouped), groupId, Some(ip)) == InsertAtTarget(removed, x, t);
    assert removed.ungrouped == RemoveById(lists.ungrouped, x.id);
    assert InsertAtTarget(removed, x, t).ungrouped == InsertAt(removed.ungrouped, t.index, x);
    MoveWithinListKeepsGap(lists.ungrouped, x, ip.index);
  }

  /** Reordering within one group with the corrected drop lands the card in the gap the indicator showed. */
  lemma CommitIntendedGroupKeepsGap(lists: Lists, x: Item, k: nat, ip: InsertionPoint)
    requires UniqueGroupIds(lists.groups) && k < |lists.groups| && lists.groups[k].id != ""
    requires ip.groupId == Some(lists.groups[k].id) && ip.index <= |lists.groups[k].items|
    ensures var g := lists.groups[k].id;
      CommitIntended(lists, Some(x), Some(FromGroup), Some(g), Some(ip)).groups[k].items
      == DropIntoGap(lists.groups[k].items, x, ip.index)
  {
    var g := lists.groups[k].id;
    var items := lists.groups[k].items;
    GroupItemsOf(lists.groups, k);
    var t := IntendedTarget(lists, x, ip);
    assert t.index == AdjustedIndex(items, x, ip.index);
    var removed := RemoveFromSource(lists, x.id, FromGroup, Some(g));
    assert CommitIntended(lists, Some(x), Some(FromGroup), Some(g), Some(ip)) == InsertAtTarget(removed, x, t);
    assert removed.groups[k].items == RemoveById(items, x.id);
    assert removed.groups[k].id == g;
    assert InsertAtTarget(removed, x, t).groups[k].items == InsertAt(removed.groups[k].items, t.index, x);
    MoveWithinListKeepsGap(items, x, ip.index);
  }

  /** Three cards with distinct ids, for the counterexample. */
  const CardA := Item("a", "", "", "", "")
  const CardB := Item("b", "", "", "", "")
  const CardC := Item("c", "", "", "", "")

  /** In [A, B, C], the code as written drops A, aimed at the gap between B and C (index 2), after C. */
  lemma AsWrittenOvershootsDownward()
    ensures MoveWithinListAsWritten([CardA, CardB, CardC], CardA, 2) == [CardB, CardC, CardA]
    ensures MoveWithinListAsWritten([CardA, CardB, CardC], CardA, 2) != DropIntoGap([CardA, CardB, CardC], CardA, 2)
  {
    AsWrittenDropOfExample();
    IntendedDropOfExample();
    assert [CardB, CardC, CardA][1] != [CardB, CardA, CardC][1];
  }

  /** The as-written drop of the example, step by step. */
  lemma AsWrittenDropOfExample()
    ensures MoveWithinListAsWritten([CardA, CardB, CardC], CardA, 2) == [CardB, CardC, CardA]
  {
    ExampleRemoval();
    ExampleSplice();
  }

  /** Filtering A's id out of [A, B, C] leaves [B, C]. */
  lemma ExampleRemoval()
    ensures RemoveById([CardA, CardB, CardC], CardA.id) == [CardB, CardC]
  {
    ExampleIdsDiffer();
    assert [CardA, CardB, CardC][1..] == [CardB, CardC];
    RemoveByIdAbsent([CardB, CardC], CardA.id);
  }

  /** Splicing A into [B, C] at index 2 appends it. */
  lemma ExampleSplice()
    ensures InsertAt([CardB, CardC], 2, CardA) == [CardB, CardC, CardA]
  {
    assert [CardB, CardC][..2] == [CardB, CardC] && [CardB, CardC][2..] == [];
  }

  /**
   * The same example through the drop as written: a group "g" holding
   * [A, B, C], A dragged and released at index 2 of "g", ends as [B, C, A],
   * wherever the indicator line itself was drawn.
   */
  lemma AsWrittenCommitOvershoots(ip: InsertionPoint)
    requires ip.groupId == Some("g") && ip.index == 2
    ensures Commit(Lists([Group("g", "", [CardA, CardB, CardC])], []), Some(CardA), Some(FromGroup), Some("g"), Some(ip))
              .groups[0].items
         == [CardB, CardC, CardA]
  {
    var lists := Lists([Group("g", "", [CardA, CardB, CardC])], []);
    var removed := RemoveFromSource(lists, CardA.id, FromGroup, Some("g"));
    assert Commit(lists, Some(CardA), Some(FromGroup), Some("g"), Some(ip)) == InsertAtTarget(removed, CardA, ip);
    assert removed.groups[0].items == [CardB, CardC] by {
      assert Truthy(Some("g"));
      ExampleRemoval();
    }
    assert InsertAtTarget(removed, CardA, ip).groups[0].items == [CardB, CardC, CardA] by {
      ExampleSplice();
    }
  }

  /** The example cards carry distinct ids. */
  lemma ExampleIdsDiffer()
    ensures CardA.id != CardB.id && CardA.id != CardC.id && CardB.id != CardC.id
  {
    assert CardA.id[0] != CardB.id[0] && CardA.id[0] != CardC.id[0] && CardB.id[0] != CardC.id[0];
  }

  /** In [A, B, C], dropping A into the gap between B and C is meant to give [B, A, C]. */
  lemma IntendedDropOfExample()
    ensures DropIntoGap([CardA, CardB, CardC], CardA, 2) == [CardB, CardA, CardC]
  {
    assert [CardA, CardB, CardC][..2] == [CardA, CardB] && [CardA, CardB, CardC][2..] == [CardC];
    assert RemoveById([CardA, CardB], "a") == [CardB] by {
      assert [CardA, CardB][1..] == [CardB];
      RemoveByIdAbsent([CardB], "a");
    }
    RemoveByIdAbsent([CardC], "a");
  }
}
