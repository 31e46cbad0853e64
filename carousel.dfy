/** The rules of the responsive product carousel, as pure functions of its
    two integers: the index of the leftmost visible card and the number of
    cards shown side by side. The component's event handlers are modelled
    by `Step` over a `State`; the render values are functions of a state. */
module Carousel {

  /** Viewport widths, in CSS pixels, at which the layout changes. */
  const TabletWidth: int := 768
  const DesktopWidth: int := 1024

  /** A released drag must move strictly further than this many pixels. */
  const DragThreshold: real := 50.0

  // ---------------------------------------------------------------------
  // Breakpoint rule

  /** Cards shown side by side in a viewport `width` pixels wide. */
  function Breakpoint(width: int): (n: int)
    ensures 1 <= n <= 3
    ensures n == 1 <==> width < TabletWidth
    ensures n == 2 <==> TabletWidth <= width < DesktopWidth
    ensures n == 3 <==> DesktopWidth <= width
  {
    if width < TabletWidth then 1
    else if width < DesktopWidth then 2
    else 3
  }

  /** A wider viewport never shows fewer cards. */
  lemma BreakpointMonotone(narrow: int, wide: int)
    requires narrow <= wide
    ensures Breakpoint(narrow) <= Breakpoint(wide)
  {
  }

  // ---------------------------------------------------------------------
  // Derived bound

  /** Largest index at which the page still starts on a card: the number
      of cards that do not fit on the first page, and never negative. */
  function MaxIndex(itemCount: nat, visible: int): (m: nat)
    ensures itemCount - visible <= m
    ensures m == 0 || m == itemCount - visible
    ensures m == 0 <==> itemCount <= visible
  {
    if itemCount - visible > 0 then itemCount - visible else 0
  }

  // ---------------------------------------------------------------------
  // Clamped navigation

  /** Index after a forward move: one further, saturating at `maxIndex`.
      From an index already beyond `maxIndex` it falls back to `maxIndex`. */
  function NextIndex(index: int, maxIndex: int): (r: int)
    ensures r <= maxIndex
    ensures r <= index + 1
    ensures r == index + 1 || r == maxIndex
  {
    if index + 1 <= maxIndex then index + 1 else maxIndex
  }

  /** Index after a backward move: one back, saturating at 0. There is no
      upper clamp, so an index beyond the bound only steps down by one. */
  function PrevIndex(index: int): (r: int)
    ensures r >= 0
    ensures r >= index - 1
    ensures r == index - 1 || r == 0
  {
    if index - 1 >= 0 then index - 1 else 0
  }

  /** Both moves saturate: a move changes nothing exactly at its own bound. */
  lemma NavigationSaturates(index: int, maxIndex: nat)
    requires index >= 0
    ensures NextIndex(index, maxIndex) == index <==> index == maxIndex
    ensures PrevIndex(index) == index <==> index == 0
    ensures index <= maxIndex ==> 0 <= NextIndex(index, maxIndex) <= maxIndex
    ensures index <= maxIndex ==> 0 <= PrevIndex(index) <= maxIndex
    ensures index > maxIndex ==> NextIndex(index, maxIndex) == maxIndex
  {
  }

  // ---------------------------------------------------------------------
  // Drag release

  /** What a released drag asks for. */
  datatype Intent = Advance | Retreat | Stay

  /** A drag released further than the threshold to the left asks for the
      next page, one released further to the right for the previous page,
      and anything else (the threshold itself included) for nothing. */
  function DragIntent(offset: real): (d: Intent)
    ensures d == Advance <==> offset < -DragThreshold
    ensures d == Retreat <==> offset > DragThreshold
    ensures d == Stay <==> -DragThreshold <= offset <= DragThreshold
  {
    if offset < -DragThreshold then Advance
    else if offset > DragThreshold then Retreat
    else Stay
  }

  // ---------------------------------------------------------------------
  // State and events

  /** The component's state: `index` is the leftmost visible card,
      `visible` the number of cards shown side by side. */
  datatype State = State(index: int, visible: int)

  /** The state the component mounts with, before its first resize check. */
  const Initial: State := State(0, 3)

  /** What every state the component can reach satisfies. */
  predicate WellFormed(s: State) {
    0 <= s.index && 1 <= s.visible <= 3
  }

  /** The page starts on a card that is at most `MaxIndex`. */
  predicate InRange(itemCount: nat, s: State) {
    0 <= s.index <= MaxIndex(itemCount, s.visible)
  }

  /** The events the component reacts to. */
  datatype Event =
    | NextClick
    | PrevClick
    | DragRelease(offset: real)
    | Resize(width: int)

  /** The component's reaction to one event. A click changes only the
      index; a drag past the threshold acts as the click in its direction
      and any other drag changes nothing; a resize sets the number of
      visible cards and leaves the index as it is. */
  function Step(itemCount: nat, s: State, e: Event): (r: State)
    ensures !e.Resize? ==> r.visible == s.visible
    ensures e.Resize? ==> r.index == s.index && r.visible == Breakpoint(e.width)
    ensures e.DragRelease? && DragIntent(e.offset) == Stay ==> r == s
  {
    match e
    case NextClick => s.(index := NextIndex(s.index, MaxIndex(itemCount, s.visible)))
    case PrevClick => s.(index := PrevIndex(s.index))
    case DragRelease(offset) =>
      (match DragIntent(offset)
       case Advance => s.(index := NextIndex(s.index, MaxIndex(itemCount, s.visible)))
       case Retreat => s.(index := PrevIndex(s.index))
       case Stay => s)
    case Resize(width) => s.(visible := Breakpoint(width))
  }

  /** A drag past the threshold does exactly what the click in its
      direction does. */
  lemma DragActsAsClick(itemCount: nat, s: State, offset: real)
    ensures offset < -DragThreshold ==> Step(itemCount, s, DragRelease(offset)) == Step(itemCount, s, NextClick)
    ensures offset > DragThreshold ==> Step(itemCount, s, DragRelease(offset)) == Step(itemCount, s, PrevClick)
  {
  }

  /** The state after reacting to `events` in order. */
  function Run(itemCount: nat, s: State, events: seq<Event>): State
    decreases |events|
  {
    if events == [] then s else Run(itemCount, Step(itemCount, s, events[0]), events[1..])
  }

  /** Events that leave the number of visible cards alone. */
  predicate Navigation(e: Event) {
    !e.Resize?
  }

  /** Each event keeps a state well formed; navigation keeps the number of
      visible cards and keeps an in-range index in range; only a resize
      changes the number of visible cards, and it never moves the index. */
  lemma StepProperties(itemCount: nat, s: State, e: Event)
    requires WellFormed(s)
    ensures WellFormed(Step(itemCount, s, e))
    ensures Navigation(e) ==> Step(itemCount, s, e).visible == s.visible
    ensures Navigation(e) && InRange(itemCount, s) ==> InRange(itemCount, Step(itemCount, s, e))
    ensures e.Resize? ==> Step(itemCount, s, e) == s.(visible := Breakpoint(e.width))
  {
  }

  /** A forward move lands in range from any well-formed state, including
      one a resize left beyond the new bound. */
  lemma NextLandsInRange(itemCount: nat, s: State)
    requires WellFormed(s)
    ensures InRange(itemCount, Step(itemCount, s, NextClick))
  {
  }

  /** Every sequence of events keeps the state well formed. */
  lemma {:induction false} RunKeepsWellFormed(itemCount: nat, s: State, events: seq<Event>)
    requires WellFormed(s)
    ensures WellFormed(Run(itemCount, s, events))
    decreases |events|
  {
    if events != [] {
      StepProperties(itemCount, s, events[0]);
      RunKeepsWellFormed(itemCount, Step(itemCount, s, events[0]), events[1..]);
    }
  }

  /** The range invariant: with the number of visible cards fixed (no
      resize among the events), an in-range index stays in range. */
  lemma {:induction false} RunKeepsRange(itemCount: nat, s: State, events: seq<Event>)
    requires WellFormed(s) && InRange(itemCount, s)
    requires forall k :: 0 <= k < |events| ==> Navigation(events[k])
    ensures InRange(itemCount, Run(itemCount, s, events))
    ensures Run(itemCount, s, events).visible == s.visible
    decreases |events|
  {
    if events != [] {
      StepProperties(itemCount, s, events[0]);
      RunKeepsRange(itemCount, Step(itemCount, s, events[0]), events[1..]);
    }
  }

  /** The mount-time state: the initial values followed by one resize. */
  lemma MountIsInRange(width: int)
    ensures Run(6, Initial, [Resize(width)]) == State(0, Breakpoint(width))
    ensures InRange(6, Run(6, Initial, [Resize(width)]))
  {
  }

  /** `n` presses of the same event. */
  function Repeat(e: Event, n: nat): (events: seq<Event>)
    ensures |events| == n
    ensures forall k :: 0 <= k < n ==> events[k] == e
  {
    seq(n, _ => e)
  }

  /** `n` forward moves from an in-range index reach `index + n`, or stop
      at `MaxIndex` once there. */
  lemma {:induction false} RepeatedNext(itemCount: nat, s: State, n: nat)
    requires InRange(itemCount, s)
    ensures var m := MaxIndex(itemCount, s.visible);
      Run(itemCount, s, Repeat(NextClick, n)) ==
        s.(index := if s.index + n <= m then s.index + n else m)
    decreases n
  {
    if n > 0 {
      var events := Repeat(NextClick, n);
      assert events[1..] == Repeat(NextClick, n - 1);
      RepeatedNext(itemCount, Step(itemCount, s, NextClick), n - 1);
    }
  }

  /** `n` backward moves from any index at or above 0 reach `index - n`,
      or stop at 0 once there. */
  lemma {:induction false} RepeatedPrev(itemCount: nat, s: State, n: nat)
    requires 0 <= s.index
    ensures Run(itemCount, s, Repeat(PrevClick, n)) ==
      s.(index := if s.index - n >= 0 then s.index - n else 0)
    decreases n
  {
    if n > 0 {
      var events := Repeat(PrevClick, n);
      assert events[1..] == Repeat(PrevClick, n - 1);
      RepeatedPrev(itemCount, Step(itemCount, s, PrevClick), n - 1);
    }
  }

  // ---------------------------------------------------------------------
  // Render values

  /** The backward control is disabled at the first index, which is
      exactly where a backward move would leave the index as it is. */
  function PrevDisabled(index: int): (disabled: bool)
    ensures index >= 0 ==> (disabled <==> PrevIndex(index) == index)
  {
    index == 0
  }

  /** The forward control is disabled exactly at `maxIndex`, which is
      exactly where a forward move would leave the index as it is; an index
      beyond `maxIndex` leaves the control enabled. */
  function NextDisabled(index: int, maxIndex: int): (disabled: bool)
    ensures disabled <==> NextIndex(index, maxIndex) == index
    ensures index > maxIndex ==> !disabled
  {
    index == maxIndex
  }

  /** A control is disabled exactly when pressing it would change nothing. */
  lemma ControlsDisabledExactlyWhenIdle(itemCount: nat, s: State)
    requires WellFormed(s)
    ensures PrevDisabled(s.index) <==> Step(itemCount, s, PrevClick) == s
    ensures NextDisabled(s.index, MaxIndex(itemCount, s.visible)) <==> Step(itemCount, s, NextClick) == s
  {
  }

  /** The position dots: one per reachable index, lit where the index is. */
  function Dots(index: int, maxIndex: nat): (dots: seq<bool>)
    ensures |dots| == maxIndex + 1
    ensures forall k :: 0 <= k < |dots| ==> (dots[k] <==> k == index)
  {
    seq(maxIndex + 1, k => k == index)
  }

  /** How many dots are lit. */
  function LitCount(dots: seq<bool>): nat
    decreases |dots|
  {
    if dots == [] then 0
    else LitCount(dots[..|dots| - 1]) + (if dots[|dots| - 1] then 1 else 0)
  }

  lemma {:induction false} LitCountOfMarker(dots: seq<bool>, index: int)
    requires forall k :: 0 <= k < |dots| ==> (dots[k] <==> k == index)
    ensures LitCount(dots) == if 0 <= index < |dots| then 1 else 0
    decreases |dots|
  {
    if dots != [] {
      var front := dots[..|dots| - 1];
      assert forall k :: 0 <= k < |front| ==> front[k] == dots[k];
      LitCountOfMarker(front, index);
    }
  }

  /** Exactly one dot is lit when the index is in range, and none when a
      resize has left it beyond the bound. */
  lemma LitDots(itemCount: nat, s: State)
    requires WellFormed(s)
    ensures var dots := Dots(s.index, MaxIndex(itemCount, s.visible));
      LitCount(dots) == if InRange(itemCount, s) then 1 else 0
  {
    LitCountOfMarker(Dots(s.index, MaxIndex(itemCount, s.visible)), s.index);
  }

  /** Width of one card, in percent of the track's visible width: the
      visible cards fill it exactly. */
  function CardWidthPercent(visible: int): (w: real)
    requires visible >= 1
    ensures 0.0 < w <= 100.0
    ensures w * (visible as real) == 100.0
  {
    100.0 / (visible as real)
  }

  /** How far, in percent, the track is shifted to the left. */
  function ShiftPercent(index: int, visible: int): (r: real)
    requires visible >= 1
    ensures index == 0 ==> r == 0.0
    ensures index >= 0 ==> r >= 0.0
  {
    (index as real) * (100.0 / (visible as real))
  }

  /** The first clause holds by definition: the shift is computed as
      `index` card widths. The content is the second clause, that moving one
      index moves the track by exactly one card, and the use of both in
      `InRangeIffPageFits`. */
  lemma ShiftCountsCards(index: int, visible: int)
    requires visible >= 1
    ensures ShiftPercent(index, visible) == (index as real) * CardWidthPercent(visible)
    ensures ShiftPercent(index + 1, visible) == ShiftPercent(index, visible) + CardWidthPercent(visible)
  {
  }

  lemma ScaleByPositive(a: real, b: real, w: real)
    requires w > 0.0
    ensures a <= b <==> a * w <= b * w
  {
    if a <= b {
      assert (b - a) * w >= 0.0;
    } else {
      assert (a - b) * w > 0.0;
    }
  }

  /** An index is in range exactly when it is the first page or the page
      it shows ends at or before the last card, that is, when the view
      never shows empty space after the catalogue unless the catalogue is
      shorter than a page. */
  lemma InRangeIffPageFits(itemCount: nat, s: State)
    requires WellFormed(s)
    ensures InRange(itemCount, s) <==>
      s.index == 0 ||
      ShiftPercent(s.index, s.visible) + 100.0 <= (itemCount as real) * CardWidthPercent(s.visible)
  {
    var w := CardWidthPercent(s.visible);
    ShiftCountsCards(s.index, s.visible);
    assert ShiftPercent(s.index, s.visible) + 100.0 == ((s.index + s.visible) as real) * w;
    ScaleByPositive((s.index + s.visible) as real, itemCount as real, w);
  }

  // ---------------------------------------------------------------------
  // Behaviour on the six-card catalogue

  /** The bound is 5, 4 and 3 for one, two and three visible cards, with
      as many dots plus one. */
  lemma SixCardBounds()
    ensures MaxIndex(6, 1) == 5 && |Dots(0, MaxIndex(6, 1))| == 6
    ensures MaxIndex(6, 2) == 4 && |Dots(0, MaxIndex(6, 2))| == 5
    ensures MaxIndex(6, 3) == 3 && |Dots(0, MaxIndex(6, 3))| == 4
  {
  }

  /** Drags released at the first card: 60 px left moves on, 60 px right
      and 40 px left do nothing, and the threshold itself does nothing. */
  lemma DragAtFirstCard(visible: int)
    requires 1 <= visible <= 3
    ensures Step(6, State(0, visible), DragRelease(-60.0)).index == 1
    ensures Step(6, State(0, visible), DragRelease(60.0)).index == 0
    ensures Step(6, State(0, visible), DragRelease(-40.0)).index == 0
    ensures Step(6, State(0, visible), DragRelease(-50.0)).index == 0
    ensures Step(6, State(0, visible), DragRelease(50.0)).index == 0
  {
  }

  /** Widening the viewport at the last card keeps the index: at index 5
      with one card shown, a resize to a desktop width shows three cards
      from index 5, beyond the bound of 3. The forward control stays
      enabled, no dot is lit, a forward move drops the index to 3 and a
      backward move gives 4, still beyond the bound. */
  lemma ResizeLeavesIndexBeyondBound()
    ensures var s := Run(6, Initial, [Resize(500)] + Repeat(NextClick, 5) + [Resize(1200)]);
      s == State(5, 3) &&
      !InRange(6, s) &&
      !NextDisabled(s.index, MaxIndex(6, s.visible)) &&
      LitCount(Dots(s.index, MaxIndex(6, s.visible))) == 0 &&
      Step(6, s, NextClick).index == 3 &&
      Step(6, s, PrevClick).index == 4 &&
      !InRange(6, Step(6, s, PrevClick))
  {
    var mobile := State(0, 1);
    RepeatedNext(6, mobile, 5);
    RunAppend(6, Initial, [Resize(500)], Repeat(NextClick, 5));
    RunAppend(6, Initial, [Resize(500)] + Repeat(NextClick, 5), [Resize(1200)]);
    LitDots(6, State(5, 3));
  }

  /** Reacting to two event lists in turn is reacting to their concatenation. */
  lemma {:induction false} RunAppend(itemCount: nat, s: State, first: seq<Event>, second: seq<Event>)
    ensures Run(itemCount, s, first + second) == Run(itemCount, Run(itemCount, s, first), second)
    decreases |first|
  {
    if first != [] {
      assert (first + second)[0] == first[0];
      assert (first + second)[1..] == first[1..] + second;
      RunAppend(itemCount, Step(itemCount, s, first[0]), first[1..], second);
    } else {
      assert first + second == second;
    }
  }
}
