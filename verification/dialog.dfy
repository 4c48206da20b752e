/** The modal dialog of components/ui/Dialog.tsx as an event-driven state
    machine over an abstract page: the page's `document.body.style.overflow`
    and its focused element are the only global state the dialog touches. */
module Dialog {
  import opened Js
  import React

  /** A DOM element, by identity. */
  type Element = nat

  /** The page state the dialog reads and writes. */
  datatype Page = Page(overflow: string, active: Element)

  /** A mounted `DialogContent`: the element focused when it mounted, the
      focusable descendants found then (in document order), its container
      element and the elements inside it. */
  datatype Content = Content(
    previousActive: Element,
    focusables: seq<Element>,
    container: Element,
    inside: set<Element>)

  /** The `Dialog` root: the `isOpen` prop as last seen by the scroll-lock
      effect, the overflow value it saved, and the mounted content, if any. */
  datatype DialogState = DialogState(isOpen: bool, savedOverflow: string, content: Option<Content>)

  const Closed := DialogState(false, "", None)

  /** The overflow value the dialog writes while open. */
  const Hidden: string := "hidden"

  datatype Key = Tab | Escape | OtherKey

  /** What can happen around a dialog. `SetOpen` is the caller changing the
      `isOpen` prop; `MountContent` / `UnmountContent` are the content's
      mount and unmount (unmount may trail a close by an exit animation);
      `DialogUnmount` removes the whole dialog. `BackdropClick` is a click
      on the overlay and `CloseButtonClick` one on a `DialogCloseButton`
      inside the content: each arises only while that element is rendered,
      that is while the dialog's children are (open, or still running their
      exit animation). `ContentClick` is any other click inside the content,
      which stops there. */
  datatype Event =
    | SetOpen(open: bool)
    | MountContent(focusables: seq<Element>, container: Element, inside: set<Element>)
    | UnmountContent
    | KeyDown(key: Key, shift: bool)
    | BackdropClick
    | CloseButtonClick
    | ContentClick
    | DialogUnmount

  /** The new state and page, whether `onClose` was called, and whether the
      keydown's default action was prevented. */
  datatype Outcome = Outcome(state: DialogState, page: Page, closeRequested: bool, prevented: bool)

  /** Is the event target (the focused element) inside the mounted content? */
  predicate TargetInside(c: Content, page: Page)
  {
    page.active == c.container || page.active in c.inside
  }

  /** What the focus trap does to a Tab keydown: the page afterwards and
      whether the browser's default Tab movement was prevented. */
  datatype Trapped = Trapped(page: Page, prevented: bool)

  /** The focus trap: Tab on the last focusable wraps to the first, Shift+Tab
      on the first wraps to the last; any other Tab is left to the browser. */
  function TrapTab(c: Content, page: Page, shift: bool): (r: Trapped)
    ensures r.prevented <==>
              |c.focusables| > 0 &&
              page.active == (if shift then c.focusables[0] else c.focusables[|c.focusables| - 1])
    ensures |c.focusables| > 0 && !shift && page.active == c.focusables[|c.focusables| - 1] ==>
              r.page.active == c.focusables[0]
    ensures |c.focusables| > 0 && shift && page.active == c.focusables[0] ==>
              r.page.active == c.focusables[|c.focusables| - 1]
    ensures r.page.overflow == page.overflow
    ensures !r.prevented ==> r.page == page
  {
    var f := c.focusables;
    var none := Trapped(page, false);
    if |f| == 0 then none
    else if shift then
      if page.active == f[0] then Trapped(page.(active := f[|f| - 1]), true) else none
    else
      if page.active == f[|f| - 1] then Trapped(page.(active := f[0]), true) else none
  }

  /** One event. */
  function Step(s: DialogState, page: Page, e: Event): (r: Outcome)
    ensures e.SetOpen? && e.open && !s.isOpen ==>
              r.state.isOpen && r.page.overflow == Hidden && r.state.savedOverflow == page.overflow
    ensures e.SetOpen? && !e.open && s.isOpen ==>
              !r.state.isOpen && r.page.overflow == s.savedOverflow
    ensures e.SetOpen? && e.open == s.isOpen ==> r.state == s && r.page == page
    ensures e.MountContent? && s.isOpen && s.content.None? ==>
              && r.state.content == Some(Content(page.active, e.focusables, e.container, e.inside))
              && r.page.active == (if |e.focusables| > 0 then e.focusables[0] else e.container)
    ensures e.MountContent? && !s.isOpen ==> r.state == s && r.page == page
    ensures e.UnmountContent? && s.content.Some? ==>
              r.state.content.None? && r.page.active == s.content.value.previousActive
    ensures e.KeyDown? && e.key == Escape ==>
              (r.closeRequested <==> s.content.Some? && TargetInside(s.content.value, page))
    ensures e.BackdropClick? ==> r.closeRequested
    ensures e.CloseButtonClick? ==> r.closeRequested && r.state == s && r.page == page
    ensures e.ContentClick? ==> !r.closeRequested && r.state == s && r.page == page
    ensures r.closeRequested ==> e.BackdropClick? || e.CloseButtonClick? || (e.KeyDown? && e.key == Escape)
    ensures r.prevented ==> e.KeyDown? && e.key == Tab && s.content.Some?
  {
    match e
    case SetOpen(open) =>
      if open == s.isOpen then Outcome(s, page, false, false)
      else if open then
        Outcome(s.(isOpen := true, savedOverflow := page.overflow), page.(overflow := Hidden), false, false)
      else
        Outcome(s.(isOpen := false), page.(overflow := s.savedOverflow), false, false)
    case MountContent(focusables, container, inside) =>
      // Children are rendered only while open; the content mounts once.
      if !s.isOpen || s.content.Some? then Outcome(s, page, false, false)
      else
        var c := Content(page.active, focusables, container, inside);
        var first := if |focusables| > 0 then focusables[0] else container;
        Outcome(s.(content := Some(c)), page.(active := first), false, false)
    case UnmountContent =>
      (match s.content
       case None => Outcome(s, page, false, false)
       case Some(c) => Outcome(s.(content := None), page.(active := c.previousActive), false, false))
    case KeyDown(key, shift) =>
      (match s.content
       case None => Outcome(s, page, false, false)
       case Some(c) =>
         if key == Tab then
           var t := TrapTab(c, page, shift);
           Outcome(s, t.page, false, t.prevented)
         else
           Outcome(s, page, key == Escape && TargetInside(c, page), false))
    case BackdropClick => Outcome(s, page, true, false)
    case CloseButtonClick => Outcome(s, page, true, false)
    case ContentClick => Outcome(s, page, false, false)
    case DialogUnmount =>
      var p1 := if s.isOpen then page.(overflow := s.savedOverflow) else page;
      var p2 := if s.content.Some? then p1.(active := s.content.value.previousActive) else p1;
      Outcome(Closed, p2, false, false)
  }

  /** A sequence of events; `closes` counts the `onClose` calls. */
  datatype RunResult = RunResult(state: DialogState, page: Page, closes: nat)

  /** Is the event a click on something whose handler is `onClose`? */
  predicate IsCloseClick(e: Event)
  {
    e.BackdropClick? || e.CloseButtonClick?
  }

  /** How many events are clicks on the backdrop or on a close button. */
  function CloseClicks(events: seq<Event>): nat
    decreases |events|
  {
    if |events| == 0 then 0
    else CloseClicks(events[..|events| - 1]) + if IsCloseClick(events[|events| - 1]) then 1 else 0
  }

  /** How many events could ask to close: those clicks and Escape keys. */
  function CloseKeysAndClicks(events: seq<Event>): nat
    decreases |events|
  {
    if |events| == 0 then 0
    else
      var e := events[|events| - 1];
      CloseKeysAndClicks(events[..|events| - 1]) + if IsCloseClick(e) || (e.KeyDown? && e.key == Escape) then 1 else 0
  }

  /** Every click on the backdrop or a close button calls `onClose`, and
      nothing but such a click or an Escape key does. */
  function Run(s: DialogState, page: Page, events: seq<Event>): (r: RunResult)
    ensures CloseClicks(events) <= r.closes <= CloseKeysAndClicks(events)
    decreases |events|
  {
    if |events| == 0 then RunResult(s, page, 0)
    else
      var prev := Run(s, page, events[..|events| - 1]);
      var o := Step(prev.state, prev.page, events[|events| - 1]);
      RunResult(o.state, o.page, prev.closes + if o.closeRequested then 1 else 0)
  }

  /** The scroll lock relative to the overflow `o` the page had before any
      dialog opened: closed means `o` is in place; open means the page is
      `'hidden'` and `o` is saved. */
  ghost predicate ScrollLocked(o: string, s: DialogState, page: Page)
  {
    && (!s.isOpen ==> page.overflow == o)
    && (s.isOpen ==> page.overflow == Hidden && s.savedOverflow == o)
  }

  /** Every event keeps the scroll-lock relation. */
  lemma StepKeepsScrollLock(o: string, s: DialogState, page: Page, e: Event)
    requires ScrollLocked(o, s, page)
    ensures ScrollLocked(o, Step(s, page, e).state, Step(s, page, e).page)
  {
  }

  /** However the dialog gets closed (the caller reacting to Escape, to a
      backdrop click, or on its own), once it is closed the page's overflow
      is the value it had before opening; while open it is `'hidden'`. */
  lemma {:induction false} ScrollLockRestored(o: string, s: DialogState, page: Page, events: seq<Event>)
    requires ScrollLocked(o, s, page)
    ensures ScrollLocked(o, Run(s, page, events).state, Run(s, page, events).page)
    ensures var r := Run(s, page, events);
            && (!r.state.isOpen ==> r.page.overflow == o)
            && (r.state.isOpen ==> r.page.overflow == Hidden)
    decreases |events|
  {
    if |events| > 0 {
      ScrollLockRestored(o, s, page, events[..|events| - 1]);
      var prev := Run(s, page, events[..|events| - 1]);
      StepKeepsScrollLock(o, prev.state, prev.page, events[|events| - 1]);
    }
  }

  /** The content is not unmounted by any of these events. */
  ghost predicate KeepsContent(events: seq<Event>)
  {
    forall i :: 0 <= i < |events| ==> !events[i].UnmountContent? && !events[i].DialogUnmount?
  }

  /** While the content stays mounted, what it remembered at mount is kept. */
  lemma {:induction false} ContentPersists(s: DialogState, page: Page, events: seq<Event>)
    requires s.content.Some? && KeepsContent(events)
    ensures Run(s, page, events).state.content == s.content
    decreases |events|
  {
    if |events| > 0 {
      var init := events[..|events| - 1];
      assert KeepsContent(init) by {
        forall i | 0 <= i < |init| ensures !init[i].UnmountContent? && !init[i].DialogUnmount? {
          assert init[i] == events[i];
        }
      }
      ContentPersists(s, page, init);
    }
  }

  /** Whatever happens while the content is mounted (focus trapping, Escape,
      the dialog closing), unmounting it puts focus back on the element that
      had it when the content mounted. */
  lemma FocusReturnsOnUnmount(s: DialogState, page: Page, events: seq<Event>)
    requires s.content.Some? && KeepsContent(events)
    ensures Run(s, page, events + [UnmountContent]).page.active == s.content.value.previousActive
  {
    var all := events + [UnmountContent];
    assert all[..|all| - 1] == events;
    ContentPersists(s, page, events);
  }

  /** Open, mount content with no focusable element, press Tab, click the
      backdrop, close, unmount: `onClose` was called once, focus is back on
      the opener and the overflow is restored. */
  lemma OpenCloseRestoresPage(overflow: string, opener: Element, container: Element)
    requires opener != container
    ensures var events := [SetOpen(true), MountContent([], container, {}), KeyDown(Tab, false),
                           BackdropClick, SetOpen(false), UnmountContent];
            var r := Run(Closed, Page(overflow, opener), events);
            && r.page == Page(overflow, opener) && !r.state.isOpen && r.state.content.None?
            && r.closes == 1
  {
    var e1, e2, e3, eb, e4, e5 := SetOpen(true), MountContent([], container, {}), KeyDown(Tab, false),
                                  BackdropClick, SetOpen(false), UnmountContent;
    var p0 := Page(overflow, opener);
    RunSnoc(Closed, p0, [], e1);
    assert [] + [e1] == [e1];
    RunSnoc(Closed, p0, [e1], e2);
    assert [e1] + [e2] == [e1, e2];
    RunSnoc(Closed, p0, [e1, e2], e3);
    assert [e1, e2] + [e3] == [e1, e2, e3];
    RunSnoc(Closed, p0, [e1, e2, e3], eb);
    assert [e1, e2, e3] + [eb] == [e1, e2, e3, eb];
    RunSnoc(Closed, p0, [e1, e2, e3, eb], e4);
    assert [e1, e2, e3, eb] + [e4] == [e1, e2, e3, eb, e4];
    RunSnoc(Closed, p0, [e1, e2, e3, eb, e4], e5);
    assert [e1, e2, e3, eb, e4] + [e5] == [e1, e2, e3, eb, e4, e5];
  }

  /** `Run` over one more event is one more `Step`. */
  lemma RunSnoc(s: DialogState, page: Page, events: seq<Event>, e: Event)
    ensures var prev := Run(s, page, events);
            var o := Step(prev.state, prev.page, e);
            Run(s, page, events + [e]) == RunResult(o.state, o.page, prev.closes + if o.closeRequested then 1 else 0)
  {
    assert (events + [e])[..|events|] == events;
  }

  /** With focusables [F1, F2, F3], Tab on F3 moves to F1 and Shift+Tab on
      F1 moves to F3; Tab on F1 is left to the browser. */
  lemma TrapWrapsThree(c: Content, page: Page, f1: Element, f2: Element, f3: Element)
    requires c.focusables == [f1, f2, f3] && f1 != f3
    ensures TrapTab(c, page.(active := f3), false).page.active == f1
    ensures TrapTab(c, page.(active := f1), true).page.active == f3
    ensures !TrapTab(c, page.(active := f1), false).prevented
  {
  }

  /** With a single focusable element, Tab and Shift+Tab both keep focus on it. */
  lemma TrapSingleStays(c: Content, page: Page, shift: bool)
    requires |c.focusables| == 1 && page.active == c.focusables[0]
    ensures TrapTab(c, page, shift).page.active == c.focusables[0]
    ensures TrapTab(c, page, shift).prevented
  {
  }

  /** What `useDialogContext` hands a subcomponent. */
  datatype DialogContext = DialogContext(isOpen: bool)

  const ContextMessage := "Dialog components must be used within a Dialog"

  /** `useDialogContext`: a subcomponent outside a `Dialog` throws. */
  function UseDialogContext(provided: Option<DialogContext>): (r: React.ContextResult<DialogContext>)
    ensures r.Thrown? <==> provided.None?
    ensures r.Thrown? ==> r.message == ContextMessage
  {
    React.UseContext(provided, ContextMessage)
  }
}
