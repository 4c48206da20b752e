/** The toast notification queue (`ToastProvider`) and the per-toast
    auto-dismiss timer (`ToastItem`) of components/ui/Toast.tsx. */
module Toast {
  import opened Js
  import React
  import Order
  import Timers

  datatype ToastType = Default | Success | Warning | Error | Info

  /** The optional action button. Its `onClick` callback belongs to the
      caller; the model records that it ran, not what it does. */
  datatype ToastAction = ToastAction(buttonLabel: string)

  /** What a caller hands to `addToast`: everything but the id. */
  datatype ToastInput = ToastInput(
    kind: ToastType,
    title: string,
    description: Option<string>,
    duration: Option<int>,
    action: Option<ToastAction>)

  datatype Toast = Toast(id: string, input: ToastInput)

  /** `maxToasts` when the provider is given none. */
  const DefaultMaxToasts: int := 5

  /** `duration` when a toast is given none. */
  const DefaultDuration: int := 5000

  // ---------------------------------------------------------------------
  // The queue
  // ---------------------------------------------------------------------

  /** The new list and the id `addToast` hands back. */
  datatype Added = Added(toasts: seq<Toast>, id: string)

  /** `addToast`: append the new toast, then keep `updated.slice(-maxToasts)`
      when the list is over the cap. The id is supplied by the caller. */
  function AddToast(toasts: seq<Toast>, input: ToastInput, id: string, maxToasts: int): (r: Added)
    ensures r.id == id
    ensures maxToasts >= 1 ==> |r.toasts| == Min(maxToasts, |toasts| + 1)
    ensures maxToasts >= 1 ==> |r.toasts| <= maxToasts
    ensures maxToasts >= 1 ==> r.toasts[|r.toasts| - 1] == Toast(id, input)
    ensures |r.toasts| <= |toasts| + 1
    ensures r.toasts == (toasts + [Toast(id, input)])[|toasts| + 1 - |r.toasts|..]
    ensures maxToasts == 0 ==> r.toasts == toasts + [Toast(id, input)]
  {
    var updated := toasts + [Toast(id, input)];
    if |updated| > maxToasts then Added(SliceFrom(updated, -maxToasts), id)
    else Added(updated, id)
  }

  /** Eviction removes only the oldest entries: what is dropped is a prefix
      of the old list, exactly as long as the overflow. */
  lemma EvictionDropsOldest(toasts: seq<Toast>, input: ToastInput, id: string, maxToasts: int)
    requires maxToasts >= 1
    ensures var r := AddToast(toasts, input, id, maxToasts).toasts;
            var dropped := Max(|toasts| + 1 - maxToasts, 0);
            toasts[..dropped] + r == toasts + [Toast(id, input)]
  {
    var updated := toasts + [Toast(id, input)];
    var r := AddToast(toasts, input, id, maxToasts).toasts;
    var dropped := Max(|toasts| + 1 - maxToasts, 0);
    assert |updated| - |r| == dropped;
    assert r == updated[dropped..];
    assert updated[..dropped] == toasts[..dropped];
    assert updated[..dropped] + updated[dropped..] == updated;
  }

  /** The list after `addToast` is a suffix of the old list plus the new toast. */
  lemma AddIsSuffix(toasts: seq<Toast>, input: ToastInput, id: string, maxToasts: int)
    ensures Order.IsSubseq(AddToast(toasts, input, id, maxToasts).toasts, toasts + [Toast(id, input)])
  {
    var updated := toasts + [Toast(id, input)];
    var r := AddToast(toasts, input, id, maxToasts).toasts;
    Order.SuffixSubseq(updated, |updated| - |r|);
  }

  /** `slice(-0)` is `slice(0)`: with `maxToasts == 0` nothing is ever evicted. */
  lemma ZeroCapKeepsEverything(toasts: seq<Toast>, input: ToastInput, id: string)
    ensures |AddToast(toasts, input, id, 0).toasts| == |toasts| + 1
  {
  }

  /** The filter test `toast.id !== id`. */
  function OtherThan(id: string): Toast -> bool
  {
    (t: Toast) => t.id != id
  }

  /** `removeToast(id)`: keep every toast whose id differs. */
  function RemoveToast(toasts: seq<Toast>, id: string): (r: seq<Toast>)
    ensures forall t :: t in r ==> t.id != id
    ensures forall t :: t in toasts && t.id != id ==> t in r
  {
    Filter(toasts, OtherThan(id))
  }

  /** Removal deletes exactly the entries with that id, as often as they
      occur, and keeps the others in their order. */
  lemma RemoveExactly(toasts: seq<Toast>, id: string, t: Toast)
    ensures multiset(RemoveToast(toasts, id))[t] == if t.id == id then 0 else multiset(toasts)[t]
    ensures Order.IsSubseq(RemoveToast(toasts, id), toasts)
  {
    FilterMultiset(toasts, OtherThan(id), t);
    Order.FilterSubseq(toasts, OtherThan(id));
  }

  /** An unknown id changes nothing. */
  lemma RemoveUnknownIsNoOp(toasts: seq<Toast>, id: string)
    requires forall t :: t in toasts ==> t.id != id
    ensures RemoveToast(toasts, id) == toasts
  {
    FilterAll(toasts, OtherThan(id));
  }

  /** A second `removeToast` with the same id is a no-op. */
  lemma RemoveIdempotent(toasts: seq<Toast>, id: string)
    ensures RemoveToast(RemoveToast(toasts, id), id) == RemoveToast(toasts, id)
  {
    FilterIdempotent(toasts, OtherThan(id));
  }

  /** The three queue operations of the toast context. */
  datatype QueueOp = Add(input: ToastInput, id: string) | Remove(id: string) | RemoveAll

  /** One queue operation; `removeAllToasts` sets the list to `[]`. */
  function Apply(toasts: seq<Toast>, op: QueueOp, maxToasts: int): seq<Toast>
  {
    match op
    case Add(input, id) => AddToast(toasts, input, id, maxToasts).toasts
    case Remove(id) => RemoveToast(toasts, id)
    case RemoveAll => []
  }

  /** A sequence of queue operations, applied in order. */
  function Run(toasts: seq<Toast>, ops: seq<QueueOp>, maxToasts: int): seq<Toast>
    decreases |ops|
  {
    if |ops| == 0 then toasts
    else Apply(Run(toasts, ops[..|ops| - 1], maxToasts), ops[|ops| - 1], maxToasts)
  }

  /** `removeAllToasts` wipes the history: whatever happened before it, the
      queue afterwards is what the later operations build from nothing. */
  lemma {:induction false} ClearForgetsHistory(toasts: seq<Toast>, before: seq<QueueOp>, after: seq<QueueOp>, maxToasts: int)
    ensures Run(toasts, before + [RemoveAll] + after, maxToasts) == Run([], after, maxToasts)
    decreases |after|
  {
    if |after| == 0 {
      assert before + [RemoveAll] + after == before + [RemoveAll];
      RunSnoc(toasts, before, RemoveAll, maxToasts);
    } else {
      var init, last := after[..|after| - 1], after[|after| - 1];
      assert after == init + [last];
      assert before + [RemoveAll] + after == (before + [RemoveAll] + init) + [last];
      ClearForgetsHistory(toasts, before, init, maxToasts);
      RunSnoc(toasts, before + [RemoveAll] + init, last, maxToasts);
      RunSnoc([], init, last, maxToasts);
    }
  }

  /** Running one more operation applies it to the queue so far. */
  lemma RunSnoc(toasts: seq<Toast>, ops: seq<QueueOp>, op: QueueOp, maxToasts: int)
    ensures Run(toasts, ops + [op], maxToasts) == Apply(Run(toasts, ops, maxToasts), op, maxToasts)
  {
    assert (ops + [op])[..|ops|] == ops;
  }

  /** The toasts the `Add` operations create, in call order. */
  function Created(ops: seq<QueueOp>): seq<Toast>
    decreases |ops|
  {
    if |ops| == 0 then []
    else
      var last := ops[|ops| - 1];
      Created(ops[..|ops| - 1]) + (if last.Add? then [Toast(last.id, last.input)] else [])
  }

  /** With a cap of at least one, no sequence of operations ever shows more
      than `maxToasts` toasts. */
  lemma {:induction false} RunRespectsCap(toasts: seq<Toast>, ops: seq<QueueOp>, maxToasts: int)
    requires maxToasts >= 1 && |toasts| <= maxToasts
    ensures |Run(toasts, ops, maxToasts)| <= maxToasts
    decreases |ops|
  {
    if |ops| > 0 {
      RunRespectsCap(toasts, ops[..|ops| - 1], maxToasts);
    }
  }

  /** For any interleaving of adds and removals, the toasts still shown are
      in the order they were first shown or added: the list is always the
      initial list followed by all created toasts, with some deleted. */
  lemma {:induction false} RunKeepsInsertionOrder(toasts: seq<Toast>, ops: seq<QueueOp>, maxToasts: int)
    ensures Order.IsSubseq(Run(toasts, ops, maxToasts), toasts + Created(ops))
    decreases |ops|
  {
    if |ops| == 0 {
      assert toasts + Created(ops) == toasts;
      Order.SubseqRefl(toasts);
    } else {
      var init := ops[..|ops| - 1];
      var op := ops[|ops| - 1];
      var cur := Run(toasts, init, maxToasts);
      RunKeepsInsertionOrder(toasts, init, maxToasts);
      var before := toasts + Created(init);
      var after := toasts + Created(ops);
      assert Run(toasts, ops, maxToasts) == Apply(cur, op, maxToasts);
      ApplyKeepsOrder(cur, before, op, maxToasts);
      CreatedSnoc(ops);
      assert after == before + Created([op]);
    }
  }

  /** The toasts created by a run are those of its prefix, then those of its last operation. */
  lemma CreatedSnoc(ops: seq<QueueOp>)
    requires |ops| > 0
    ensures Created(ops) == Created(ops[..|ops| - 1]) + Created([ops[|ops| - 1]])
  {
    var op := ops[|ops| - 1];
    assert [op][..0] == [];
    assert Created([op]) == Created([]) + (if op.Add? then [Toast(op.id, op.input)] else []);
  }

  /** One operation keeps the order invariant of `RunKeepsInsertionOrder`. */
  lemma ApplyKeepsOrder(cur: seq<Toast>, before: seq<Toast>, op: QueueOp, maxToasts: int)
    requires Order.IsSubseq(cur, before)
    ensures Order.IsSubseq(Apply(cur, op, maxToasts), before + Created([op]))
  {
    assert [op][..0] == [];
    assert Created([op]) == Created([]) + (if op.Add? then [Toast(op.id, op.input)] else []);
    var after := before + Created([op]);
    match op
    case Add(input, id) =>
      var t := Toast(id, input);
      assert after == before + [t];
      Order.SubseqSnoc(cur, before, t);
      AddIsSuffix(cur, input, id, maxToasts);
      Order.SubseqTrans(Apply(cur, op, maxToasts), cur + [t], after);
    case Remove(id) =>
      assert after == before;
      Order.FilterSubseq(cur, OtherThan(id));
      Order.SubseqTrans(RemoveToast(cur, id), cur, after);
    case RemoveAll =>
      Order.EmptySubseq(after);
  }

  /** Only `Add` operations. */
  ghost predicate OnlyAdds(ops: seq<QueueOp>)
  {
    forall i :: 0 <= i < |ops| ==> ops[i].Add?
  }

  /** After any run of adds, the queue holds exactly the `maxToasts` most
      recent toasts (or all of them, if fewer). */
  lemma {:induction false} AddsKeepNewest(toasts: seq<Toast>, ops: seq<QueueOp>, maxToasts: int)
    requires maxToasts >= 1 && |toasts| <= maxToasts && OnlyAdds(ops)
    ensures var all := toasts + Created(ops);
            Run(toasts, ops, maxToasts) == all[|all| - Min(maxToasts, |all|)..]
    decreases |ops|
  {
    var all := toasts + Created(ops);
    if |ops| == 0 {
      assert all == toasts;
    } else {
      var init := ops[..|ops| - 1];
      var op := ops[|ops| - 1];
      assert OnlyAdds(init) by {
        forall i | 0 <= i < |init| ensures init[i].Add? { assert init[i] == ops[i]; }
      }
      AddsKeepNewest(toasts, init, maxToasts);
      var before := toasts + Created(init);
      var cur := Run(toasts, init, maxToasts);
      var t := Toast(op.id, op.input);
      CreatedSnoc(ops);
      assert [op][..0] == [];
      assert Created([op]) == Created([]) + [t];
      assert all == before + [t];
      assert Run(toasts, ops, maxToasts) == AddToast(cur, op.input, op.id, maxToasts).toasts;
      NewestStep(before, cur, t, maxToasts);
    }
  }

  /** One add on a queue holding the newest entries of `before` holds the
      newest entries of `before + [t]`. */
  lemma NewestStep(before: seq<Toast>, cur: seq<Toast>, t: Toast, maxToasts: int)
    requires maxToasts >= 1
    requires cur == before[|before| - Min(maxToasts, |before|)..]
    ensures var all := before + [t];
            AddToast(cur, t.input, t.id, maxToasts).toasts == all[|all| - Min(maxToasts, |all|)..]
  {
    var all := before + [t];
    var r := AddToast(cur, t.input, t.id, maxToasts).toasts;
    var start := |before| - Min(maxToasts, |before|);
    var k := |cur| + 1 - |r|;
    assert cur + [t] == all[start..];
    assert r == all[start..][k..];
    assert all[start..][k..] == all[start + k..];
    assert start + k == |all| - Min(maxToasts, |all|);
  }

  // ---------------------------------------------------------------------
  // One toast's auto-dismiss timer (ToastItem)
  // ---------------------------------------------------------------------

  /** `duration = 5000` as a destructuring default: only a missing duration
      takes the default. */
  function EffectiveDuration(t: Toast): (d: int)
    ensures t.input.duration.None? ==> d == DefaultDuration
    ensures t.input.duration.Some? ==> d == t.input.duration.value
  {
    match t.input.duration
    case None => DefaultDuration
    case Some(d) => d
  }

  /** The timers a mounted toast has armed, and `timerRef.current`. */
  datatype Item = Item(timers: Timers.Scheduler, timerRef: Option<nat>)

  /** Before mount: no timer, empty ref. */
  const Fresh: Item := Item(Timers.Idle, None)

  /** What can happen to a toast on screen. `ProviderRender` is a render of
      the provider: it hands every item a new `onDismiss` closure, which
      re-runs the timer effect. */
  datatype ItemEvent =
    | Mount
    | MouseEnter
    | MouseLeave
    | TimerElapsed(handle: nat)
    | ProviderRender
    | Unmount
    | ActionClick
    | DismissClick

  /** Calls the item makes: the action's callback, and `onDismiss`
      (which is `removeToast(toast.id)`). */
  datatype ItemEffect = RunAction | Dismiss

  datatype ItemStep = ItemStep(item: Item, effects: seq<ItemEffect>)

  /** `timerRef.current = setTimeout(onDismiss, d)`. */
  function Arm(item: Item, d: int): Item
  {
    var a := Timers.SetTimeout(item.timers, d);
    Item(a.scheduler, Some(a.handle))
  }

  /** `if (timerRef.current) clearTimeout(timerRef.current)`; the ref keeps
      the stale handle, as in the component. */
  function CancelRef(item: Item): Item
  {
    match item.timerRef
    case None => item
    case Some(h) => item.(timers := Timers.ClearTimeout(item.timers, h))
  }

  /** One event on one toast. */
  function ItemStepOf(t: Toast, item: Item, e: ItemEvent): (r: ItemStep)
    ensures EffectiveDuration(t) <= 0 ==> r.item.timers.live.Keys <= item.timers.live.Keys
    ensures (e.Mount? || e.MouseLeave?) && EffectiveDuration(t) > 0 ==>
              && r.item.timerRef.Some?
              && r.item.timers.live == item.timers.live[r.item.timerRef.value := EffectiveDuration(t)]
              && (Timers.Valid(item.timers) ==> r.item.timerRef.value !in item.timers.live)
    ensures e.MouseEnter? && item.timerRef.Some? ==>
              && item.timerRef.value !in r.item.timers.live
              && r.item.timers.live == item.timers.live - {item.timerRef.value}
    ensures e.TimerElapsed? ==> (Dismiss in r.effects <==> e.handle in item.timers.live)
    ensures e.ActionClick? && t.input.action.Some? ==> r.effects == [RunAction, Dismiss]
    ensures Dismiss in r.effects ==> e.TimerElapsed? || e.ActionClick? || e.DismissClick?
    ensures RunAction in r.effects ==> e.ActionClick? && t.input.action.Some?
    ensures Timers.Valid(item.timers) ==> Timers.Valid(r.item.timers)
  {
    var d := EffectiveDuration(t);
    match e
    case Mount => ItemStep(if d > 0 then Arm(item, d) else item, [])
    case MouseEnter => ItemStep(CancelRef(item), [])
    case MouseLeave => ItemStep(if d > 0 then Arm(item, d) else item, [])
    case TimerElapsed(h) =>
      var el := Timers.Elapse(item.timers, h);
      ItemStep(item.(timers := el.scheduler), if el.fired then [Dismiss] else [])
    case ProviderRender => ItemStep(if d > 0 then Arm(CancelRef(item), d) else item, [])
    case Unmount => ItemStep(if d > 0 then CancelRef(item) else item, [])
    case ActionClick => ItemStep(item, if t.input.action.Some? then [RunAction, Dismiss] else [])
    case DismissClick => ItemStep(item, [Dismiss])
  }

  /** A sequence of events on one toast; the effects are collected in order. */
  function ItemRun(t: Toast, item: Item, events: seq<ItemEvent>): ItemStep
    decreases |events|
  {
    if |events| == 0 then ItemStep(item, [])
    else
      var prev := ItemRun(t, item, events[..|events| - 1]);
      var last := ItemStepOf(t, prev.item, events[|events| - 1]);
      ItemStep(last.item, prev.effects + last.effects)
  }

  /** No button click among the events: only a timer could dismiss. */
  ghost predicate NoClicks(events: seq<ItemEvent>)
  {
    forall i :: 0 <= i < |events| ==> !events[i].ActionClick? && !events[i].DismissClick?
  }

  /** A toast whose effective duration is zero or negative never arms a timer,
      so without a click it is never dismissed. */
  lemma {:induction false} NoDurationNeverAutoDismisses(t: Toast, item: Item, events: seq<ItemEvent>)
    requires EffectiveDuration(t) <= 0 && item.timers.live == map[]
    requires NoClicks(events)
    ensures ItemRun(t, item, events).item.timers.live == map[]
    ensures Dismiss !in ItemRun(t, item, events).effects
    decreases |events|
  {
    if |events| > 0 {
      var init := events[..|events| - 1];
      assert NoClicks(init) by {
        forall i | 0 <= i < |init| ensures !init[i].ActionClick? && !init[i].DismissClick? {
          assert init[i] == events[i];
        }
      }
      NoDurationNeverAutoDismisses(t, item, init);
      var prev := ItemRun(t, item, init);
      var e := events[|events| - 1];
      assert !e.ActionClick? && !e.DismissClick?;
      var last := ItemStepOf(t, prev.item, e);
      assert last.item.timers.live.Keys == {};
    }
  }

  /** Hovering a freshly mounted toast cancels its only timer: whatever
      timer then elapses, nothing is dismissed. */
  lemma HoverPausesAutoDismiss(t: Toast, h: nat)
    ensures ItemRun(t, Fresh, [Mount, MouseEnter, TimerElapsed(h)]).effects == []
  {
    var es := [Mount, MouseEnter, TimerElapsed(h)];
    assert es[..2] == [Mount, MouseEnter];
    assert es[..2][..1] == [Mount];
    assert [Mount][..0] == [];
    var r1 := ItemRun(t, Fresh, [Mount]);
    assert r1.item == ItemStepOf(t, Fresh, Mount).item && r1.effects == [];
    var r2 := ItemRun(t, Fresh, [Mount, MouseEnter]);
    assert r2.item == ItemStepOf(t, r1.item, MouseEnter).item && r2.effects == [];
    assert r2.item.timers.live == map[];
    var s3 := ItemStepOf(t, r2.item, TimerElapsed(h));
    assert s3.effects == [];
  }

  /** Leaving the toast again arms one fresh timer for the full original
      duration, and that timer dismisses the toast when it elapses. */
  lemma LeaveRestartsFullDuration(t: Toast)
    requires EffectiveDuration(t) > 0
    ensures var r := ItemRun(t, Fresh, [Mount, MouseEnter, MouseLeave]).item;
            && r.timerRef.Some?
            && r.timers.live == map[r.timerRef.value := EffectiveDuration(t)]
            && ItemStepOf(t, r, TimerElapsed(r.timerRef.value)).effects == [Dismiss]
  {
    var es := [Mount, MouseEnter, MouseLeave];
    assert es[..2] == [Mount, MouseEnter];
    assert es[..2][..1] == [Mount];
    assert [Mount][..0] == [];
  }

  /** A provider render while the mouse rests on the toast re-arms the
      timer: the hover pause does not survive another toast being added or
      removed. */
  lemma RenderWhileHoveredRearms(t: Toast)
    requires EffectiveDuration(t) > 0
    ensures ItemRun(t, Fresh, [Mount, MouseEnter, ProviderRender]).item.timers.live != map[]
  {
    var es := [Mount, MouseEnter, ProviderRender];
    assert es[..2] == [Mount, MouseEnter];
    assert es[..2][..1] == [Mount];
    assert [Mount][..0] == [];
    var r := ItemRun(t, Fresh, es).item;
    assert r.timerRef.value in r.timers.live;
  }

  const ContextMessage := "useToast must be used within a ToastProvider"

  /** `useToast` outside a `ToastProvider` throws. */
  function UseToast<T>(provided: Option<T>): (r: React.ContextResult<T>)
    ensures r.Thrown? <==> provided.None?
    ensures r.Thrown? ==> r.message == ContextMessage
  {
    React.UseContext(provided, ContextMessage)
  }
}
