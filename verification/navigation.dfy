/**
 The horizontal panel navigation of the page, with the one-shot skill-bar
 animation it drives.

 The page is a horizontal track of full-width panels. The controller keeps the
 index of the current panel and two rows of indicators (the dots and the nav
 buttons) that mirror it. It reacts to four kinds of input:
 - an explicit request to go to a panel (a dot or nav-button click), which is
   clamped into range, scrolls the track smoothly and syncs the indicators;
 - a scroll of the track, reported here as the panel index the scroll
   position rounds to, which syncs the indicators when it differs from the
   current panel and, on first arrival at the second panel, fires the
   skill-bar animation;
 - the arrow keys, which step one panel forward or back;
 - a resize of the window, which re-snaps the track to the current panel.

 Scrolling is fire-and-forget: a step does not move the track, it outputs the
 scroll offset it requests. The window width is part of each input that needs
 it, since the source reads it afresh on every event.
 */
module Navigation {

  datatype Option<T> = None | Some(value: T)

  /** A request to scroll the track to horizontal offset `left`, smoothly or
      at once. */
  datatype ScrollRequest = ScrollRequest(left: int, smooth: bool)

  /** `panels` is the number of panels (fixed at load), `current` the current
      panel, `dots` and `navBtns` the active flags of the two indicator rows,
      `skillsAnimated` whether the skill bars have been animated. */
  datatype Controller = Controller(
    panels: nat,
    current: int,
    dots: seq<bool>,
    navBtns: seq<bool>,
    skillsAnimated: bool)

  /** What one input does: the controller afterwards, the scroll it requests
      (if any) and whether it fires the skill-bar animation. */
  datatype Outcome = Outcome(next: Controller, request: Option<ScrollRequest>, animates: bool)

  /** The inputs the controller reacts to. `width` is the window's inner width
      at the time of the event; `observed` is the panel index the track's
      scroll position rounds to. */
  datatype Event =
    | Navigate(target: int, width: nat)
    | Scrolled(observed: int)
    | KeyDown(key: string, width: nat)
    | Resized(width: nat)

  /** The panel whose arrival fires the skill-bar animation (the "about" panel). */
  const SkillsPanel: int := 1

  function Min(a: int, b: int): int { if a <= b then a else b }
  function Max(a: int, b: int): int { if a >= b then a else b }

  /** `Math.max(0, Math.min(panels - 1, idx))`. */
  function Clamp(idx: int, panels: nat): (r: int)
    ensures panels >= 1 ==> 0 <= r < panels
    ensures panels == 0 ==> r == 0
    ensures 0 <= idx < panels ==> r == idx
    ensures idx < 0 ==> r == 0
    ensures panels >= 1 && idx >= panels ==> r == panels - 1
  {
    Max(0, Min(panels - 1, idx))
  }

  /** Exactly position k of an indicator row is active. */
  predicate ActiveAt(row: seq<bool>, k: int) {
    forall j :: 0 <= j < |row| ==> (row[j] <==> j == k)
  }

  /** The number of active indicators in a row. */
  function CountActive(row: seq<bool>): nat {
    if row == [] then 0 else CountActive(row[..|row| - 1]) + (if row[|row| - 1] then 1 else 0)
  }

  /** A row active exactly at k has one active indicator when k is one of its
      positions, and none otherwise. */
  lemma {:induction false} ActiveAtCount(row: seq<bool>, k: int)
    requires ActiveAt(row, k)
    ensures CountActive(row) == (if 0 <= k < |row| then 1 else 0)
  {
    if row != [] {
      var init := row[..|row| - 1];
      assert ActiveAt(init, k);
      ActiveAtCount(init, k);
    }
  }

  /** `updateNav(idx)`: make idx the current panel and light exactly the
      indicators at position idx. Nothing else changes. */
  function UpdateNav(c: Controller, idx: int): (r: Controller)
    ensures r.current == idx
    ensures |r.dots| == |c.dots| && |r.navBtns| == |c.navBtns|
    ensures ActiveAt(r.dots, idx) && ActiveAt(r.navBtns, idx)
    ensures r.panels == c.panels && r.skillsAnimated == c.skillsAnimated
  {
    c.(current := idx,
       dots := seq(|c.dots|, j => j == idx),
       navBtns := seq(|c.navBtns|, j => j == idx))
  }

  /** Syncing the indicators twice to the same index is the same as once. */
  lemma UpdateNavIdempotent(c: Controller, idx: int)
    ensures UpdateNav(UpdateNav(c, idx), idx) == UpdateNav(c, idx)
  {
  }

  /** A controller state whose indicators already mirror its current panel is
      a fixed point of syncing to that panel. */
  lemma UpdateNavFixedPoint(c: Controller)
    requires ActiveAt(c.dots, c.current) && ActiveAt(c.navBtns, c.current)
    ensures UpdateNav(c, c.current) == c
  {
  }

  /** `scrollToPanel(idx)`: clamp the target, request a smooth scroll to it
      and sync the indicators. */
  function ScrollToPanel(c: Controller, target: int, width: nat): (r: Outcome)
    ensures r.next.current == Clamp(target, c.panels)
    ensures c.panels >= 1 ==> 0 <= r.next.current < c.panels
    ensures r.next == UpdateNav(c, r.next.current)
    ensures r.request == Some(ScrollRequest(r.next.current * width, true))
    ensures !r.animates && r.next.skillsAnimated == c.skillsAnimated
  {
    var idx := Clamp(target, c.panels);
    Outcome(UpdateNav(c, idx), Some(ScrollRequest(idx * width, true)), false)
  }

  /** Going to the same panel twice leaves the controller as going once. */
  lemma ScrollToPanelIdempotent(c: Controller, target: int, width: nat)
    ensures ScrollToPanel(ScrollToPanel(c, target, width).next, target, width).next
         == ScrollToPanel(c, target, width).next
  {
  }

  /** The track's scroll listener, given the index the scroll position rounds
      to. */
  function OnScroll(c: Controller, observed: int): (r: Outcome)
    // an index equal to the current panel changes nothing
    ensures observed == c.current ==> r == Outcome(c, None, false)
    // a different index syncs the indicators to it, and nothing else but the
    // skill flag changes
    ensures observed != c.current ==>
              && r.next.(skillsAnimated := c.skillsAnimated) == UpdateNav(c, observed)
              && r.request == None
    // the animation fires exactly on a change to the skills panel while the
    // flag is still down, and the flag is raised exactly then
    ensures r.animates <==> observed != c.current && observed == SkillsPanel && !c.skillsAnimated
    ensures r.next.skillsAnimated <==> c.skillsAnimated || r.animates
  {
    if observed != c.current then
      var synced := UpdateNav(c, observed);
      if observed == SkillsPanel && !c.skillsAnimated then
        Outcome(synced.(skillsAnimated := true), None, true)
      else
        Outcome(synced, None, false)
    else
      Outcome(c, None, false)
  }

  predicate IsForwardKey(key: string) { key == "ArrowRight" || key == "ArrowDown" }
  predicate IsBackwardKey(key: string) { key == "ArrowLeft" || key == "ArrowUp" }

  /** The keydown listener: two independent tests run one after the other, the
      second on the state the first left. */
  function OnKeyDown(c: Controller, key: string, width: nat): (r: Outcome)
    ensures IsForwardKey(key) ==> r == ScrollToPanel(c, c.current + 1, width)
    ensures IsBackwardKey(key) ==> r == ScrollToPanel(c, c.current - 1, width)
    ensures !IsForwardKey(key) && !IsBackwardKey(key) ==> r == Outcome(c, None, false)
    ensures !r.animates && r.next.skillsAnimated == c.skillsAnimated
  {
    var first := if IsForwardKey(key) then ScrollToPanel(c, c.current + 1, width) else Outcome(c, None, false);
    var c1 := first.next;
    if IsBackwardKey(key) then ScrollToPanel(c1, c1.current - 1, width) else first
  }

  /** The resize listener: re-snap the track to the current panel at the new
      width, without animation; the controller itself is untouched. */
  function OnResize(c: Controller, width: nat): (r: Outcome)
    ensures r.next == c && !r.animates
    ensures r.request.Some? && r.request.value.left == c.current * width && !r.request.value.smooth
  {
    Outcome(c, Some(ScrollRequest(c.current * width, false)), false)
  }

  /** One event. */
  function Step(c: Controller, e: Event): (r: Outcome)
    ensures r.next.panels == c.panels
    ensures |r.next.dots| == |c.dots| && |r.next.navBtns| == |c.navBtns|
    // the skill flag is never lowered, and it is raised exactly when the
    // animation fires
    ensures c.skillsAnimated ==> r.next.skillsAnimated
    ensures r.animates <==> !c.skillsAnimated && r.next.skillsAnimated
    // only a scroll observation fires the animation
    ensures !e.Scrolled? ==> !r.animates
  {
    match e
    case Navigate(target, width) => ScrollToPanel(c, target, width)
    case Scrolled(observed) => OnScroll(c, observed)
    case KeyDown(key, width) => OnKeyDown(c, key, width)
    case Resized(width) => OnResize(c, width)
  }

  /** Runs a sequence of events, returning the final controller and the number
      of times the skill-bar animation fired. */
  function Run(c: Controller, events: seq<Event>): (Controller, nat)
    decreases |events|
  {
    if events == [] then (c, 0)
    else
      var o := Step(c, events[0]);
      var (final, fires) := Run(o.next, events[1..]);
      (final, fires + (if o.animates then 1 else 0))
  }

  function FlagValue(b: bool): nat { if b then 1 else 0 }

  /** Along any sequence of events, the animation fires exactly as many times
      as the flag goes from down to up: once if it ends up raised having
      started lowered, never otherwise. */
  lemma {:induction false} RunFiresAtMostOnce(c: Controller, events: seq<Event>)
    ensures c.skillsAnimated ==> Run(c, events).0.skillsAnimated
    ensures Run(c, events).1 == FlagValue(Run(c, events).0.skillsAnimated) - FlagValue(c.skillsAnimated)
    decreases |events|
  {
    if events != [] {
      RunFiresAtMostOnce(Step(c, events[0]).next, events[1..]);
    }
  }

  /** Without scroll observations the flag never moves: in particular going to
      the skills panel by keyboard or by clicking does not fire the animation. */
  lemma {:induction false} NoScrollNoAnimation(c: Controller, events: seq<Event>)
    requires forall i :: 0 <= i < |events| ==> !events[i].Scrolled?
    ensures Run(c, events).0.skillsAnimated == c.skillsAnimated
    ensures Run(c, events).1 == 0
    decreases |events|
  {
    if events != [] {
      NoScrollNoAnimation(Step(c, events[0]).next, events[1..]);
    }
  }

  /** Page load: panel 0 is current, the indicators are as the page markup
      sets them, and the skill bars are animated at once if the track is
      already positioned at the skills panel. The load-time check does not
      change the current panel. */
  function Load(panels: nat, dots: seq<bool>, navBtns: seq<bool>, observedAtLoad: int): (r: Outcome)
    ensures r.next.panels == panels && r.next.current == 0
    ensures r.next.dots == dots && r.next.navBtns == navBtns
    ensures r.animates <==> observedAtLoad == SkillsPanel
    ensures r.next.skillsAnimated == r.animates
    ensures r.request == None
  {
    var fires := observedAtLoad == SkillsPanel;
    Outcome(Controller(panels, 0, dots, navBtns, fires), None, fires)
  }

  /** Over the whole page lifetime (the load-time check followed by any
      events) the skill-bar animation fires at most once. */
  lemma AnimationFiresAtMostOnce(
    panels: nat, dots: seq<bool>, navBtns: seq<bool>, observedAtLoad: int, events: seq<Event>)
    ensures var load := Load(panels, dots, navBtns, observedAtLoad);
            FlagValue(load.animates) + Run(load.next, events).1 <= 1
  {
    var load := Load(panels, dots, navBtns, observedAtLoad);
    RunFiresAtMostOnce(load.next, events);
  }

  /** A scroll that arrives at the skills panel while the flag is down raises
      it, so with the at-most-once lemma the animation fires exactly once
      however often the panel is revisited. */
  lemma {:induction false} ArrivalAtSkillsFires(c: Controller, events: seq<Event>)
    requires !c.skillsAnimated && c.current != SkillsPanel
    requires events != [] && events[0] == Scrolled(SkillsPanel)
    ensures Run(c, events).0.skillsAnimated
    ensures Run(c, events).1 == 1
  {
    var o := Step(c, events[0]);
    assert o.next.skillsAnimated;
    RunFiresAtMostOnce(o.next, events[1..]);
    RunFiresAtMostOnce(c, events);
  }

  /** The consistent states: at least one panel, one indicator of each kind per
      panel, the current panel in range and each row lit exactly there. */
  predicate Valid(c: Controller) {
    && c.panels >= 1
    && |c.dots| == c.panels && |c.navBtns| == c.panels
    && 0 <= c.current < c.panels
    && ActiveAt(c.dots, c.current) && ActiveAt(c.navBtns, c.current)
  }

  /** An event the page can deliver: the scroll position of the track rounds
      to one of its panels. */
  predicate WellFormed(e: Event, panels: nat) {
    e.Scrolled? ==> 0 <= e.observed < panels
  }

  /** Every well-formed event keeps the controller consistent. */
  lemma StepKeepsValid(c: Controller, e: Event)
    requires Valid(c) && WellFormed(e, c.panels)
    ensures Valid(Step(c, e).next)
  {
  }

  /** So along any sequence of well-formed events exactly one indicator of each
      row is lit, and it is the one at the current panel. */
  lemma {:induction false} RunKeepsValid(c: Controller, events: seq<Event>)
    requires Valid(c)
    requires forall i :: 0 <= i < |events| ==> WellFormed(events[i], c.panels)
    ensures Valid(Run(c, events).0)
    ensures CountActive(Run(c, events).0.dots) == 1
    ensures CountActive(Run(c, events).0.navBtns) == 1
    decreases |events|
  {
    if events == [] {
      ActiveAtCount(c.dots, c.current);
      ActiveAtCount(c.navBtns, c.current);
    } else {
      StepKeepsValid(c, events[0]);
      var next := Step(c, events[0]).next;
      assert forall i :: 0 <= i < |events[1..]| ==> events[1..][i] == events[i + 1];
      RunKeepsValid(next, events[1..]);
    }
  }

  /** The page starts consistent exactly when the markup has one indicator
      per panel in each row and lights the first one, since the load-time
      code leaves the rows as they are. */
  lemma LoadIsValid(panels: nat, dots: seq<bool>, navBtns: seq<bool>, observedAtLoad: int)
    ensures Valid(Load(panels, dots, navBtns, observedAtLoad).next)
        <==> && panels >= 1
             && |dots| == panels && |navBtns| == panels
             && ActiveAt(dots, 0) && ActiveAt(navBtns, 0)
  {
  }

  /** The arrow keys step one panel and stop at either end. */
  lemma ArrowKeysStepWithinBounds(c: Controller, key: string, width: nat)
    requires Valid(c)
    ensures IsForwardKey(key) ==>
              OnKeyDown(c, key, width).next.current == (if c.current == c.panels - 1 then c.current else c.current + 1)
    ensures IsBackwardKey(key) ==>
              OnKeyDown(c, key, width).next.current == (if c.current == 0 then 0 else c.current - 1)
    ensures !IsForwardKey(key) && !IsBackwardKey(key) ==> OnKeyDown(c, key, width).next == c
  {
  }

  /** `Math.round(left / width)` for a whole-pixel offset and a positive width:
      the nearest panel, halves rounding up. */
  function ObservedIndex(left: int, width: int): (r: int)
    requires width > 0
    ensures (2 * r - 1) * width <= 2 * left < (2 * r + 1) * width
  {
    var d := 2 * width;
    var x := 2 * left + width;
    assert x / d * d + x % d == x;
    assert (2 * (x / d) - 1) * width == x / d * d - width;
    assert (2 * (x / d) + 1) * width == x / d * d + width;
    x / d
  }

  /** Once a requested scroll has settled, the scroll listener sees the panel
      it was requested for and does nothing. */
  lemma SettledScrollIsQuiet(c: Controller, target: int, width: nat)
    requires width > 0
    ensures var o := ScrollToPanel(c, target, width);
            && ObservedIndex(o.request.value.left, width) == o.next.current
            && OnScroll(o.next, ObservedIndex(o.request.value.left, width)) == Outcome(o.next, None, false)
  {
    var o := ScrollToPanel(c, target, width);
    var idx := o.next.current;
    assert 2 * (idx * width) + width == idx * (2 * width) + width;
    DivideExact(idx, 2 * width, width);
  }

  /** Dividing q * d + rem by d, with 0 <= rem < d, gives q. */
  lemma DivideExact(q: int, d: int, rem: int)
    requires 0 <= rem < d
    ensures (q * d + rem) / d == q
  {
    var x := q * d + rem;
    var k := x / d - q;
    assert x / d * d + x % d == x;
    assert k * d == rem - x % d by {
      assert x / d * d == (k + q) * d == k * d + q * d;
    }
    if k >= 1 {
      MultipleAtLeastDivisor(k, d);
    } else if k <= -1 {
      MultipleAtLeastDivisor(-k, d);
    }
  }

  lemma MultipleAtLeastDivisor(k: int, d: int)
    requires k >= 1 && d > 0
    ensures k * d >= d
  {
  }
}
