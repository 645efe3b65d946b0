/**
 * The insertion-point affordance between cards: a "+" line that appears only
 * after the pointer has rested on it for a delay, and never while a card is
 * dragged. Timers are abstract: `setTimeout` hands out a fresh handle, and a
 * handle still pending may fire at any later moment; the delay itself is not
 * modelled.
 */
module HoverReveal {
  import opened Wrappers

  /** What can happen to one mounted insertion point. */
  datatype Event =
    | MouseEnter
    | MouseLeave
    | TimerFires(handle: nat)
    | DraggingChanged(dragging: bool)
    | Unmount

  /**
   * The component's state: the `isDragging` prop, the two hover flags, the
   * timer ref, the timers scheduled and neither fired nor cleared, the next
   * handle `setTimeout` will return, and whether the component is mounted.
   */
  datatype HoverState = HoverState(
    dragging: bool,
    hovering: bool,
    delayedHover: bool,
    timeoutRef: Option<nat>,
    pending: set<nat>,
    nextHandle: nat,
    mounted: bool)

  /** A freshly mounted insertion point: nothing hovered, no timer. */
  function Initial(dragging: bool): (s: HoverState)
    ensures s.mounted && !s.hovering && !s.delayedHover && s.pending == {} && s.timeoutRef.None?
  {
    HoverState(dragging, false, false, None, {}, 0, true)
  }

  /** `clearTimeout` on whatever handle the ref holds: that timer can no longer fire. */
  function ClearRef(s: HoverState): (p: set<nat>)
    ensures p <= s.pending
    ensures s.timeoutRef.Some? ==> s.timeoutRef.value !in p
    ensures s.timeoutRef.None? ==> p == s.pending
    ensures forall h :: h in s.pending && s.timeoutRef != Some(h) ==> h in p
  {
    if s.timeoutRef.Some? then s.pending - {s.timeoutRef.value} else s.pending
  }

  /** One event, as the handlers and effects of the component process it. */
  function Step(s: HoverState, e: Event): (t: HoverState)
    ensures !s.mounted ==> t == s
    ensures t.nextHandle >= s.nextHandle
    ensures t.pending <= s.pending + {s.nextHandle}
    ensures t.delayedHover && !s.delayedHover ==> e.TimerFires? && e.handle in s.pending
  {
    if !s.mounted then s
    else
      match e
      case MouseEnter =>
        if s.dragging then s
        else
          var h := s.nextHandle;
          s.(hovering := true, timeoutRef := Some(h), pending := ClearRef(s) + {h}, nextHandle := h + 1)
      case MouseLeave =>
        s.(hovering := false, delayedHover := false, pending := ClearRef(s), timeoutRef := None)
      case TimerFires(h) =>
        if h in s.pending then s.(delayedHover := true, pending := s.pending - {h}) else s
      case DraggingChanged(d) =>
        if d == s.dragging then s
        else if d then
          s.(dragging := true, hovering := false, delayedHover := false, pending := ClearRef(s), timeoutRef := None)
        else s.(dragging := false)
      case Unmount =>
        s.(mounted := false, pending := ClearRef(s))
  }

  /** A sequence of events, in order. */
  function Run(s: HoverState, es: seq<Event>): HoverState
    decreases |es|
  {
    if es == [] then s else Run(Step(s, es[0]), es[1..])
  }

  /** The affordance is shown: the delayed flag is set and no card is dragged. */
  predicate Visible(s: HoverState) {
    s.delayedHover && !s.dragging
  }

  /**
   * What every reachable state satisfies: at most one timer is pending and it
   * is the one the ref holds; handles are fresh; while dragging nothing is
   * hovered or pending; an unmounted component has no pending timer; a pending
   * timer or the delayed flag implies the pointer is over the point.
   */
  ghost predicate Inv(s: HoverState) {
    && (forall h :: h in s.pending ==> s.timeoutRef == Some(h))
    && (s.timeoutRef.Some? ==> s.timeoutRef.value < s.nextHandle)
    && (s.dragging ==> !s.hovering && !s.delayedHover && s.pending == {})
    && (!s.mounted ==> s.pending == {})
    && (s.pending != {} ==> s.hovering)
    && (s.delayedHover ==> s.hovering)
  }

  lemma InitialInv(dragging: bool)
    ensures Inv(Initial(dragging))
  {
  }

  lemma StepPreservesInv(s: HoverState, e: Event)
    requires Inv(s)
    ensures Inv(Step(s, e))
  {
    var t := Step(s, e);
    if s.mounted && e.MouseEnter? && !s.dragging {
      forall h | h in t.pending
        ensures t.timeoutRef == Some(h)
      {
        assert h !in ClearRef(s);
      }
    }
  }

  lemma {:induction false} RunPreservesInv(s: HoverState, es: seq<Event>)
    requires Inv(s)
    ensures Inv(Run(s, es))
    decreases |es|
  {
    if es != [] {
      StepPreservesInv(s, es[0]);
      RunPreservesInv(Step(s, es[0]), es[1..]);
    }
  }

  /** Shown implies the pointer is over the point and no card is dragged. */
  lemma VisibleOnlyWhileHovering(s: HoverState)
    requires Inv(s) && Visible(s)
    ensures s.hovering && !s.dragging
  {
  }

  /** The affordance appears only when a pending hover timer fires. */
  lemma RevealOnlyByTimer(s: HoverState, e: Event)
    requires Inv(s) && !Visible(s) && Visible(Step(s, e))
    ensures e.TimerFires? && e.handle in s.pending && s.timeoutRef == Some(e.handle)
  {
  }

  /** Entering schedules one fresh timer; its firing reveals the affordance. */
  lemma EnterThenFireReveals(s: HoverState)
    requires Inv(s) && s.mounted && !s.dragging
    ensures var t := Step(s, MouseEnter);
      && t.hovering && t.timeoutRef.Some? && t.pending == {t.timeoutRef.value}
      && Visible(Step(t, TimerFires(t.timeoutRef.value)))
  {
  }

  /** Entering while a card is dragged changes nothing and schedules nothing. */
  lemma EnterWhileDraggingIgnored(s: HoverState)
    requires s.dragging
    ensures Step(s, MouseEnter) == s
  {
  }

  /** Re-entering replaces the pending timer: no earlier timer can fire afterwards. */
  lemma ReenterCancelsEarlierTimer(s: HoverState)
    requires Inv(s) && s.mounted && !s.dragging
    ensures var t := Step(s, MouseEnter); t.pending * s.pending == {} && |t.pending| == 1
  {
    var t := Step(s, MouseEnter);
    assert t.pending == {s.nextHandle};
  }

  /** A timer event for a handle that is not pending changes nothing. */
  lemma StaleTimerIgnored(s: HoverState, h: nat)
    requires h !in s.pending
    ensures Step(s, TimerFires(h)) == s
  {
  }

  /** After a state with no pending timer, timer events alone change nothing. */
  lemma {:induction false} QuietTimersChangeNothing(s: HoverState, es: seq<Event>)
    requires s.pending == {}
    requires forall i :: 0 <= i < |es| ==> es[i].TimerFires?
    ensures Run(s, es) == s
    decreases |es|
  {
    if es != [] {
      assert Step(s, es[0]) == s;
      QuietTimersChangeNothing(s, es[1..]);
    }
  }

  /**
   * A hover shorter than the delay never reveals: after enter and leave, the
   * affordance is hidden and no timer event, however late, shows it.
   */
  lemma ShortHoverNeverReveals(s: HoverState, fires: seq<Event>)
    requires Inv(s) && s.mounted && !s.dragging
    requires forall i :: 0 <= i < |fires| ==> fires[i].TimerFires?
    ensures var t := Step(Step(s, MouseEnter), MouseLeave);
      !Visible(Run(t, fires)) && !Run(t, fires).hovering
  {
    var t := Step(Step(s, MouseEnter), MouseLeave);
    assert t.pending == {};
    QuietTimersChangeNothing(t, fires);
  }

  /** Leaving hides the affordance and cancels every pending timer. */
  lemma LeaveHides(s: HoverState)
    requires Inv(s) && s.mounted
    ensures var t := Step(s, MouseLeave); !Visible(t) && !t.hovering && t.pending == {} && t.timeoutRef.None?
  {
  }

  /** When dragging starts, the hover state is reset and the timer cancelled. */
  lemma DragStartResets(s: HoverState)
    requires Inv(s) && s.mounted && !s.dragging
    ensures var t := Step(s, DraggingChanged(true));
      && !Visible(t) && !t.hovering && !t.delayedHover && t.pending == {} && t.timeoutRef.None?
  {
  }

  /** After unmount no timer is pending and no event changes anything. */
  lemma {:induction false} UnmountSilences(s: HoverState, es: seq<Event>)
    requires Inv(s)
    ensures var t := Step(s, Unmount); t.pending == {} && Run(t, es) == t
    decreases |es|
  {
    var t := Step(s, Unmount);
    if s.mounted {
      forall h | h in t.pending
        ensures h in s.pending && s.timeoutRef == Some(h)
      {
      }
    }
    UnmountedIsInert(t, es);
  }

  lemma {:induction false} UnmountedIsInert(s: HoverState, es: seq<Event>)
    requires !s.mounted
    ensures Run(s, es) == s
    decreases |es|
  {
    if es != [] {
      UnmountedIsInert(Step(s, es[0]), es[1..]);
    }
  }

  /**
   * One mounted `InsertionPoint`: its hover flags and timer ref, updated by the
   * handlers and effects, with the timers the runtime holds for it.
   */
  class HoverInsertionPoint {
    var isDragging: bool
    var isHovering: bool
    var isDelayedHover: bool
    var hoverTimeoutRef: Option<nat>
    var pending: set<nat>
    var nextHandle: nat
    var mounted: bool

    function State(): HoverState
      reads this
    {
      HoverState(isDragging, isHovering, isDelayedHover, hoverTimeoutRef, pending, nextHandle, mounted)
    }

    ghost predicate Valid()
      reads this
    {
      Inv(State())
    }

    constructor(dragging: bool)
      ensures Valid() && State() == Initial(dragging)
    {
      isDragging, isHovering, isDelayedHover := dragging, false, false;
      hoverTimeoutRef, pending, nextHandle, mounted := None, {}, 0, true;
    }

    /** `clearTimeout(hoverTimeoutRef.current)` when the ref holds a handle. */
    method ClearTimer()
      modifies this`pending
      ensures pending == ClearRef(old(State()))
    {
      if hoverTimeoutRef.Some? {
        pending := pending - {hoverTimeoutRef.value};
      }
    }

    /** `setTimeout`: a fresh handle, now pending. */
    method SetTimer() returns (h: nat)
      modifies this`pending, this`nextHandle
      ensures h == old(nextHandle) && nextHandle == h + 1
      ensures pending == old(pending) + {h}
    {
      h := nextHandle;
      nextHandle := nextHandle + 1;
      pending := pending + {h};
    }

    method HandleMouseEnter()
      requires Valid() && mounted
      modifies this
      ensures Valid() && State() == Step(old(State()), MouseEnter)
    {
      if isDragging {
        return;
      }
      isHovering := true;
      ClearTimer();
      var h := SetTimer();
      hoverTimeoutRef := Some(h);
      StepPreservesInv(old(State()), MouseEnter);
    }

    method HandleMouseLeave()
      requires Valid() && mounted
      modifies this
      ensures Valid() && State() == Step(old(State()), MouseLeave)
    {
      isHovering := false;
      isDelayedHover := false;
      if hoverTimeoutRef.Some? {
        ClearTimer();
        hoverTimeoutRef := None;
      }
      StepPreservesInv(old(State()), MouseLeave);
    }

    /** The callback of a pending hover timer. */
    method FireTimer(h: nat)
      requires Valid() && mounted && h in pending
      modifies this
      ensures Valid() && State() == Step(old(State()), TimerFires(h))
      ensures Visible(State())
    {
      pending := pending - {h};
      isDelayedHover := true;
      StepPreservesInv(old(State()), TimerFires(h));
    }

    /** A new `isDragging` prop, and the effect that runs when it changes. */
    method SetDragging(dragging: bool)
      requires Valid() && mounted
      modifies this
      ensures Valid() && State() == Step(old(State()), DraggingChanged(dragging))
    {
      if dragging == isDragging {
        return;
      }
      isDragging := dragging;
      if dragging {
        isHovering := false;
        isDelayedHover := false;
        if hoverTimeoutRef.Some? {
          ClearTimer();
          hoverTimeoutRef := None;
        }
      }
      StepPreservesInv(old(State()), DraggingChanged(dragging));
    }

    /** The unmount cleanup: the pending timer is cleared, the ref is left as is. */
    method Unmount()
      requires Valid() && mounted
      modifies this
      ensures Valid() && State() == Step(old(State()), Event.Unmount)
      ensures pending == {}
    {
      ClearTimer();
      mounted := false;
      StepPreservesInv(old(State()), Event.Unmount);
    }

    /** Whether the affordance is shown (`isDelayedHover && !isDragging`). */
    function IsVisible(): (b: bool)
      reads this
      requires Valid()
      ensures b ==> isHovering && !isDragging
      ensures b == Visible(State())
    {
      isDelayedHover && !isDragging
    }
  }
}
