/** The tooltip of components/ui/Tooltip.tsx: the show/hide timer logic as a
    state machine over an explicit timer scheduler, and the placement and
    viewport clamping of `updatePosition` as arithmetic over reals. */
module Tooltip {
  import opened Js
  import opened Timers

  /** The props the timer logic reads. */
  datatype Config = Config(disabled: bool, delay: int)

  /** Defaults of the props. */
  const DefaultDelay := 200
  const DefaultOffset: real := 8.0

  /** `isVisible`, the handle stored in `timeoutRef`, the page's timers and
      whether the component is still mounted. */
  datatype TipState = TipState(visible: bool, timeoutRef: Option<nat>, timers: Scheduler, mounted: bool)

  const Initial := TipState(false, None, Idle, true)

  /** Mouse enter / focus, mouse leave / blur, a timer firing, unmount. */
  datatype Event = Show | Hide | Fire(handle: nat) | Unmount

  /** `showTooltip` as written: arms a new timer and overwrites the stored
      handle, leaving any earlier pending timer armed. */
  function ShowTooltip(cfg: Config, s: TipState): (r: TipState)
    ensures cfg.disabled ==> r == s
    ensures !cfg.disabled ==> r.timeoutRef.Some? && r.timers.live == s.timers.live[r.timeoutRef.value := cfg.delay]
    ensures !cfg.disabled && Valid(s.timers) ==> r.timeoutRef.value !in s.timers.live && Valid(r.timers)
    ensures r.visible == s.visible && r.mounted == s.mounted
  {
    if cfg.disabled then s
    else
      var a := SetTimeout(s.timers, cfg.delay);
      s.(timers := a.scheduler, timeoutRef := Some(a.handle))
  }

  /** `showTooltip` cancelling the stored timer before arming a new one, so
      that at most one show timer is ever pending. */
  function ShowTooltipFixed(cfg: Config, s: TipState): (r: TipState)
    ensures cfg.disabled ==> r == s
    ensures !cfg.disabled ==> r.timeoutRef.Some? && r.timeoutRef.value in r.timers.live && r.timers.live[r.timeoutRef.value] == cfg.delay
    ensures !cfg.disabled && Valid(s.timers) ==>
              Valid(r.timers) && forall h :: h in r.timers.live ==> h == r.timeoutRef.value || (h in s.timers.live && Some(h) != s.timeoutRef)
    ensures r.visible == s.visible && r.mounted == s.mounted
  {
    if cfg.disabled then s
    else
      var cleared := if s.timeoutRef.Some? then ClearTimeout(s.timers, s.timeoutRef.value) else s.timers;
      var a := SetTimeout(cleared, cfg.delay);
      s.(timers := a.scheduler, timeoutRef := Some(a.handle))
  }

  /** `hideTooltip`: cancels the stored timer, if any, and hides. The stored
      handle is kept; clearing it again later is harmless. */
  function HideTooltip(s: TipState): (r: TipState)
    ensures !r.visible && r.timeoutRef == s.timeoutRef && r.mounted == s.mounted
    ensures s.timeoutRef.Some? ==> r.timeoutRef.value !in r.timers.live
    ensures forall h :: h in r.timers.live <==> h in s.timers.live && Some(h) != s.timeoutRef
    ensures Valid(s.timers) ==> Valid(r.timers)
  {
    var timers := if s.timeoutRef.Some? then ClearTimeout(s.timers, s.timeoutRef.value) else s.timers;
    s.(timers := timers, visible := false)
  }

  /** A timer firing: a live one makes the tooltip visible; React drops the
      update once the component has unmounted. */
  function FireTimer(s: TipState, h: nat): (r: TipState)
    ensures r.visible <==> s.visible || (h in s.timers.live && s.mounted)
    ensures r.timers == ClearTimeout(s.timers, h)
    ensures r.timeoutRef == s.timeoutRef && r.mounted == s.mounted
  {
    var e := Elapse(s.timers, h);
    s.(timers := e.scheduler, visible := s.visible || (e.fired && s.mounted))
  }

  /** The unmount cleanup: cancels the stored timer. */
  function UnmountTooltip(s: TipState): (r: TipState)
    ensures !r.mounted
    ensures forall h :: h in r.timers.live <==> h in s.timers.live && Some(h) != s.timeoutRef
  {
    var timers := if s.timeoutRef.Some? then ClearTimeout(s.timers, s.timeoutRef.value) else s.timers;
    s.(timers := timers, mounted := false)
  }

  /** One event; `fixed` selects the corrected `showTooltip`. */
  function Step(cfg: Config, s: TipState, e: Event, fixed: bool): (r: TipState)
    ensures r.visible && !s.visible ==> e.Fire? && e.handle in s.timers.live && s.mounted
    ensures e.Hide? ==> !r.visible
    ensures forall h :: h in r.timers.live && h !in s.timers.live ==> e.Show? && !cfg.disabled
    ensures Valid(s.timers) ==> Valid(r.timers)
  {
    match e
    case Show => if fixed then ShowTooltipFixed(cfg, s) else ShowTooltip(cfg, s)
    case Hide => HideTooltip(s)
    case Fire(h) => FireTimer(s, h)
    case Unmount => UnmountTooltip(s)
  }

  function Run(cfg: Config, s: TipState, events: seq<Event>, fixed: bool): (r: TipState)
    ensures Valid(s.timers) ==> Valid(r.timers)
    ensures r.visible && !s.visible ==> exists i :: 0 <= i < |events| && events[i].Fire?
    decreases |events|
  {
    if |events| == 0 then s
    else Step(cfg, Run(cfg, s, events[..|events| - 1], fixed), events[|events| - 1], fixed)
  }

  /** A disabled tooltip never shows, whatever happens to it. */
  lemma {:induction false} DisabledNeverVisible(cfg: Config, events: seq<Event>, fixed: bool)
    requires cfg.disabled
    ensures !Run(cfg, Initial, events, fixed).visible
    ensures Run(cfg, Initial, events, fixed).timers.live == map[]
    decreases |events|
  {
    if |events| > 0 {
      DisabledNeverVisible(cfg, events[..|events| - 1], fixed);
    }
  }

  /** Hovering and staying until the delay elapses shows the tooltip. */
  lemma ShowThenDelayShows(cfg: Config)
    requires !cfg.disabled
    ensures Run(cfg, Initial, [Show, Fire(1)], false).visible
    ensures Run(cfg, Initial, [Show, Fire(1)], true).visible
  {
    assert [Show, Fire(1)][..1] == [Show];
    assert [Show][..0] == [];
  }

  /** Leaving before the delay elapses cancels the tooltip: after a single
      show, hide leaves no timer armed. */
  lemma ShowHideCancels(cfg: Config)
    ensures Run(cfg, Initial, [Show, Hide], false).timers.live == map[]
    ensures !Run(cfg, Initial, [Show, Hide], false).visible
  {
    assert [Show, Hide][..1] == [Show];
    assert [Show][..0] == [];
  }

  /** As written, two shows before a hide (mouse enter and focus, say) leave
      the first timer armed: it fires after the hide and the tooltip appears
      although the mouse has left. */
  lemma StaleTimerShowsAfterHide(cfg: Config)
    requires !cfg.disabled
    ensures var s := Run(cfg, Initial, [Show, Show, Hide], false);
            !s.visible && 1 in s.timers.live
    ensures Run(cfg, Initial, [Show, Show, Hide, Fire(1)], false).visible
  {
    var es := [Show, Show, Hide, Fire(1)];
    assert es[..3] == [Show, Show, Hide];
    assert es[..3][..2] == [Show, Show];
    assert es[..3][..2][..1] == [Show];
    assert [Show][..0] == [];
  }

  /** With the corrected show, the only timer that can be pending is the
      stored one. */
  ghost predicate OnlyStoredPending(s: TipState)
  {
    && Valid(s.timers)
    && forall h :: h in s.timers.live ==> s.timeoutRef == Some(h)
  }

  lemma StepFixedKeepsOnlyStored(cfg: Config, s: TipState, e: Event)
    requires OnlyStoredPending(s)
    ensures OnlyStoredPending(Step(cfg, s, e, true))
  {
  }

  /** With the corrected show, after a hide no timer is pending, so the
      tooltip stays hidden until the next show, whatever happened before. */
  lemma {:induction false} FixedHideIsFinal(cfg: Config, events: seq<Event>, fires: seq<nat>)
    ensures var s := Run(cfg, Initial, events + [Hide], true);
            s.timers.live == map[] && !s.visible
    ensures !Run(cfg, Initial, events + [Hide] + FiresOf(fires), true).visible
  {
    FixedInvariant(cfg, events);
    var all := events + [Hide];
    assert all[..|all| - 1] == events;
    var s := Run(cfg, Initial, all, true);
    assert s.timers.live == map[];
    FiresKeepHidden(cfg, s, fires);
    RunConcat(cfg, Initial, all, FiresOf(fires), true);
  }

  /** Every event sequence keeps the corrected machine's invariant. */
  lemma {:induction false} FixedInvariant(cfg: Config, events: seq<Event>)
    ensures OnlyStoredPending(Run(cfg, Initial, events, true))
    decreases |events|
  {
    if |events| > 0 {
      FixedInvariant(cfg, events[..|events| - 1]);
      StepFixedKeepsOnlyStored(cfg, Run(cfg, Initial, events[..|events| - 1], true), events[|events| - 1]);
    }
  }

  function FiresOf(hs: seq<nat>): (r: seq<Event>)
    ensures |r| == |hs| && forall i :: 0 <= i < |hs| ==> r[i] == Fire(hs[i])
  {
    if |hs| == 0 then [] else FiresOf(hs[..|hs| - 1]) + [Fire(hs[|hs| - 1])]
  }

  /** With nothing pending, timers firing change nothing visible. */
  lemma {:induction false} FiresKeepHidden(cfg: Config, s: TipState, hs: seq<nat>)
    requires s.timers.live == map[] && !s.visible
    ensures Run(cfg, s, FiresOf(hs), true).timers.live == map[]
    ensures !Run(cfg, s, FiresOf(hs), true).visible
    decreases |hs|
  {
    if |hs| > 0 {
      var init := hs[..|hs| - 1];
      FiresKeepHidden(cfg, s, init);
      var events := FiresOf(hs);
      assert events[..|events| - 1] == FiresOf(init);
      var r := Run(cfg, s, FiresOf(init), true);
      assert Run(cfg, s, events, true) == FireTimer(r, hs[|hs| - 1]);
    }
  }

  /** Runs compose: running `a + b` is running `b` after `a`. */
  lemma {:induction false} RunConcat(cfg: Config, s: TipState, a: seq<Event>, b: seq<Event>, fixed: bool)
    ensures Run(cfg, s, a + b, fixed) == Run(cfg, Run(cfg, s, a, fixed), b, fixed)
    decreases |b|
  {
    if |b| == 0 {
      assert a + b == a;
    } else {
      RunConcat(cfg, s, a, b[..|b| - 1], fixed);
      assert (a + b)[..|a + b| - 1] == a + b[..|b| - 1];
    }
  }

  /** The scenario that goes wrong as written is harmless when corrected. */
  lemma FixedShowShowHide(cfg: Config)
    requires !cfg.disabled
    ensures !Run(cfg, Initial, [Show, Show, Hide, Fire(1)], true).visible
  {
    FixedHideIsFinal(cfg, [Show, Show], [1]);
    assert [Show, Show] + [Hide] + FiresOf([1]) == [Show, Show, Hide, Fire(1)];
  }

  /** A DOM rectangle from `getBoundingClientRect`, viewport coordinates. */
  datatype Rect = Rect(top: real, left: real, width: real, height: real)
  {
    function Bottom(): real { top + height }
    function Right(): real { left + width }
  }

  datatype Placement = Top | Bottom | Left | Right

  /** A position in document coordinates. */
  datatype Point = Point(top: real, left: real)

  /** The unclamped position for a placement. */
  function Place(placement: Placement, trigger: Rect, tipWidth: real, tipHeight: real,
                 scrollX: real, scrollY: real, offset: real): (p: Point)
    ensures placement == Top ==> p.top + tipHeight + offset == trigger.top + scrollY
    ensures placement == Bottom ==> p.top == trigger.Bottom() + scrollY + offset
    ensures placement == Left ==> p.left + tipWidth + offset == trigger.left + scrollX
    ensures placement == Right ==> p.left == trigger.Right() + scrollX + offset
    ensures placement == Top || placement == Bottom ==>
              p.left + tipWidth / 2.0 == trigger.left + scrollX + trigger.width / 2.0
    ensures placement == Left || placement == Right ==>
              p.top + tipHeight / 2.0 == trigger.top + scrollY + trigger.height / 2.0
  {
    match placement
    case Top => Point(trigger.top + scrollY - tipHeight - offset,
                      trigger.left + scrollX + trigger.width / 2.0 - tipWidth / 2.0)
    case Bottom => Point(trigger.Bottom() + scrollY + offset,
                         trigger.left + scrollX + trigger.width / 2.0 - tipWidth / 2.0)
    case Left => Point(trigger.top + scrollY + trigger.height / 2.0 - tipHeight / 2.0,
                       trigger.left + scrollX - tipWidth - offset)
    case Right => Point(trigger.top + scrollY + trigger.height / 2.0 - tipHeight / 2.0,
                        trigger.Right() + scrollX + offset)
  }

  /** With a non-negative offset and a trigger of non-negative size the
      unclamped tooltip never covers its trigger: it sits entirely on the
      chosen side, at least `offset` away. */
  lemma PlacementClearsTrigger(placement: Placement, trigger: Rect, w: real, h: real,
                               scrollX: real, scrollY: real, offset: real)
    requires offset >= 0.0 && trigger.width >= 0.0 && trigger.height >= 0.0
    ensures var p := Place(placement, trigger, w, h, scrollX, scrollY, offset);
            match placement
            case Top => p.top + h <= trigger.top + scrollY - offset
            case Bottom => p.top >= trigger.Bottom() + scrollY + offset
            case Left => p.left + w <= trigger.left + scrollX - offset
            case Right => p.left >= trigger.Right() + scrollX + offset
  {
  }

  const Padding: real := 8.0

  /** The horizontal clamp as written: compares the document-coordinate
      `left` with the viewport width, without `scrollX`. */
  function ClampLeft(left: real, width: real, viewportWidth: real): (r: real)
    ensures left < Padding ==> r == Padding
    ensures Padding <= left && left + width <= viewportWidth - Padding ==> r == left
    ensures left >= Padding && left + width > viewportWidth - Padding ==> r == viewportWidth - width - Padding
    ensures width <= viewportWidth - 2.0 * Padding ==> Padding <= r && r + width <= viewportWidth - Padding
  {
    if left < Padding then Padding
    else if left + width > viewportWidth - Padding then viewportWidth - width - Padding
    else left
  }

  /** The vertical clamp: the same bounds, shifted by `scrollY`. */
  function ClampTop(top: real, height: real, viewportHeight: real, scrollY: real): (r: real)
    ensures top < Padding + scrollY ==> r == Padding + scrollY
    ensures Padding + scrollY <= top && top + height <= viewportHeight + scrollY - Padding ==> r == top
    ensures height <= viewportHeight - 2.0 * Padding ==>
              Padding + scrollY <= r && r + height <= viewportHeight + scrollY - Padding
  {
    if top < Padding + scrollY then Padding + scrollY
    else if top + height > viewportHeight + scrollY - Padding then viewportHeight + scrollY - height - Padding
    else top
  }

  /** The horizontal clamp shifted by `scrollX`, as the vertical one is by `scrollY`. */
  function ClampLeftScrolled(left: real, width: real, viewportWidth: real, scrollX: real): (r: real)
    ensures Padding + scrollX <= left && left + width <= viewportWidth + scrollX - Padding ==> r == left
    ensures width <= viewportWidth - 2.0 * Padding ==>
              Padding + scrollX <= r && r + width <= viewportWidth + scrollX - Padding
  {
    if left < Padding + scrollX then Padding + scrollX
    else if left + width > viewportWidth + scrollX - Padding then viewportWidth + scrollX - width - Padding
    else left
  }

  /** Unscrolled, the two horizontal clamps agree. */
  lemma ClampLeftUnscrolled(left: real, width: real, viewportWidth: real)
    ensures ClampLeftScrolled(left, width, viewportWidth, 0.0) == ClampLeft(left, width, viewportWidth)
  {
  }

  /** Scrolled 500px right in a 1000px viewport, a 100px tooltip over a
      trigger at viewport x 950 is moved to document x 892, i.e. viewport
      x 392, more than 500px from its trigger; the scrolled clamp puts it at
      viewport x 892, inside the viewport next to the trigger. */
  lemma HorizontalScrollMisplaces()
    ensures var p := Place(Top, Rect(100.0, 950.0, 20.0, 20.0), 100.0, 30.0, 500.0, 0.0, DefaultOffset);
            && p.left == 1410.0
            && ClampLeft(p.left, 100.0, 1000.0) == 892.0
            && ClampLeftScrolled(p.left, 100.0, 1000.0, 500.0) == 1392.0
  {
  }

  /** The window as `updatePosition` reads it. */
  datatype Viewport = Viewport(width: real, height: real, scrollX: real, scrollY: real)

  /** `updatePosition`: nothing when either ref is unset, else the clamped
      position for the trigger's and the tooltip's rectangles; `fixed`
      selects the horizontal clamp that accounts for `scrollX`. */
  function UpdatePosition(placement: Placement, offset: real, trigger: Option<Rect>, tip: Option<Rect>,
                          view: Viewport, fixed: bool): (r: Option<Point>)
    ensures r.Some? <==> trigger.Some? && tip.Some?
    ensures r.Some? && !fixed && tip.value.width <= view.width - 2.0 * Padding ==>
              Padding <= r.value.left <= view.width - tip.value.width - Padding
    ensures r.Some? && fixed && tip.value.width <= view.width - 2.0 * Padding ==>
              view.scrollX + Padding <= r.value.left <= view.scrollX + view.width - tip.value.width - Padding
    ensures r.Some? && tip.value.height <= view.height - 2.0 * Padding ==>
              view.scrollY + Padding <= r.value.top <= view.scrollY + view.height - tip.value.height - Padding
  {
    if trigger.None? || tip.None? then None
    else
      var p := Place(placement, trigger.value, tip.value.width, tip.value.height, view.scrollX, view.scrollY, offset);
      var left := if fixed then ClampLeftScrolled(p.left, tip.value.width, view.width, view.scrollX)
                  else ClampLeft(p.left, tip.value.width, view.width);
      Some(Point(ClampTop(p.top, tip.value.height, view.height, view.scrollY), left))
  }

  /** With the page scrolled horizontally, the corrected position keeps the
      tooltip inside the visible part of the page and leaves an in-view
      position where the placement put it. */
  lemma FixedPositionInView(placement: Placement, offset: real, trigger: Rect, tip: Rect, view: Viewport)
    requires tip.width <= view.width - 2.0 * Padding
    ensures var p := Place(placement, trigger, tip.width, tip.height, view.scrollX, view.scrollY, offset);
            var r := UpdatePosition(placement, offset, Some(trigger), Some(tip), view, true).value;
            && view.scrollX + Padding <= r.left && r.left + tip.width <= view.scrollX + view.width - Padding
            && (view.scrollX + Padding <= p.left && p.left + tip.width <= view.scrollX + view.width - Padding ==> r.left == p.left)
  {
  }
}
