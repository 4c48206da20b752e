/** The tabs of components/ui/Tabs.tsx: the registry of trigger values, the
    controlled/uncontrolled active tab, and arrow-key navigation. */
module Tabs {
  import opened Js
  import React
  import Order

  /** `registerTab(id)`: appended unless already present. */
  function Register(tabIds: seq<string>, id: string): (r: seq<string>)
    ensures id in r
    ensures id in tabIds ==> r == tabIds
    ensures id !in tabIds ==> r == tabIds + [id]
  {
    if id in tabIds then tabIds else tabIds + [id]
  }

  function OtherThan(id: string): string -> bool
  {
    tabId => tabId != id
  }

  /** `unregisterTab(id)`: every occurrence of `id` goes, the rest keep their order. */
  function Unregister(tabIds: seq<string>, id: string): (r: seq<string>)
    ensures id !in r
    ensures forall x :: x != id ==> (x in r <==> x in tabIds)
  {
    Filter(tabIds, OtherThan(id))
  }

  /** Registering and unregistering keep the registry free of duplicates. */
  lemma RegistryStaysDistinct(tabIds: seq<string>, id: string)
    requires Order.Distinct(tabIds)
    ensures Order.Distinct(Register(tabIds, id))
    ensures Order.Distinct(Unregister(tabIds, id))
  {
    Order.FilterSubseq(tabIds, OtherThan(id));
    Order.SubseqDistinct(Unregister(tabIds, id), tabIds);
  }

  /** A trigger that mounts and then unmounts leaves the registry as it was. */
  lemma RegisterUnregisterRoundTrip(tabIds: seq<string>, id: string)
    requires id !in tabIds
    ensures Unregister(Register(tabIds, id), id) == tabIds
  {
    FilterConcat(tabIds, [id], OtherThan(id));
    FilterAll(tabIds, OtherThan(id));
    assert Filter([id], OtherThan(id)) == [];
  }

  datatype Orientation = Horizontal | Vertical

  datatype Key = ArrowLeft | ArrowRight | ArrowUp | ArrowDown | Home | End | OtherKey

  /** The key that moves to the next tab in this orientation. */
  predicate Forward(orientation: Orientation, key: Key)
  {
    if orientation == Horizontal then key == ArrowRight else key == ArrowDown
  }

  /** The key that moves to the previous tab in this orientation. */
  predicate Backward(orientation: Orientation, key: Key)
  {
    if orientation == Horizontal then key == ArrowLeft else key == ArrowUp
  }

  /** The forward arrow of an orientation. */
  function NextKey(orientation: Orientation): (k: Key)
    ensures Forward(orientation, k) && !Backward(orientation, k)
  {
    if orientation == Horizontal then ArrowRight else ArrowDown
  }

  /** The backward arrow of an orientation. */
  function PrevKey(orientation: Orientation): (k: Key)
    ensures Backward(orientation, k) && !Forward(orientation, k)
  {
    if orientation == Horizontal then ArrowLeft else ArrowUp
  }

  /** The index the key moves to from `current` (`indexOf` of the active tab,
      so -1 when it is not registered) among `n` tabs. `None` is `NaN`: the
      arrow keys compute `% 0` when no tab is registered. */
  function NewIndex(current: int, n: nat, orientation: Orientation, key: Key): (r: Option<int>)
    requires -1 <= current < n
    ensures key == Home ==> r == Some(0)
    ensures key == End ==> r == Some(n - 1)
    ensures r.None? <==> n == 0 && (Forward(orientation, key) || Backward(orientation, key))
    ensures !Forward(orientation, key) && !Backward(orientation, key) && key != Home && key != End ==>
              r == Some(current)
    ensures n > 0 && r.Some? && r.value != current ==> 0 <= r.value < n
  {
    var next := if key == Home then Some(0)
      else if key == End then Some(n - 1)
      else if Forward(orientation, key) then
        if n == 0 then None else Some(Rem(current + 1, n))
      else if Backward(orientation, key) then
        if n == 0 then None else Some(Rem(current - 1 + n, n))
      else Some(current);
    next
  }

  /** With at least one tab, the arrows move one step with wrap-around:
      `(i + 1) % n` and `(i - 1 + n) % n`, where `i` is -1 when the active
      tab is not registered, so that the forward arrow then goes to the first
      tab and the backward arrow to the second-to-last. The truncating `%`
      agrees with the mathematical modulus on these operands. */
  lemma ArrowsWrapAround(current: int, n: nat, orientation: Orientation)
    requires -1 <= current < n && n > 0
    ensures NewIndex(current, n, orientation, NextKey(orientation)) == Some((current + 1) % n)
    ensures NewIndex(current, n, orientation, PrevKey(orientation)) == Some((current - 1 + n) % n)
    ensures current == n - 1 ==> NewIndex(current, n, orientation, NextKey(orientation)) == Some(0)
    ensures current == 0 ==> NewIndex(current, n, orientation, PrevKey(orientation)) == Some(n - 1)
    ensures current == -1 ==> NewIndex(current, n, orientation, NextKey(orientation)) == Some(0)
    ensures current == -1 && n >= 2 ==> NewIndex(current, n, orientation, PrevKey(orientation)) == Some(n - 2)
  {
    if current >= 0 {
      StepsModulo(current, n);
    } else if n >= 2 {
      assert (n - 2) % n == n - 2;
    }
  }

  /** One step either way among `n` slots, modulo `n`. */
  lemma StepsModulo(current: nat, n: nat)
    requires current < n
    ensures (current + 1) % n == if current + 1 < n then current + 1 else 0
    ensures (current - 1 + n) % n == (current - 1) % n == if current >= 1 then current - 1 else n - 1
  {
    if current >= 1 {
      ModOnce(current - 1 + n, n);
    }
  }

  /** A value in [n, 2n) reduces by one `n`. */
  lemma ModOnce(x: int, n: int)
    requires 0 < n <= x < 2 * n
    ensures x % n == x - n
  {
    assert (x - n) % n == x - n;
  }

  /** Arrows across the orientation do nothing: left/right in a vertical
      list, up/down in a horizontal one. */
  lemma CrossArrowsIgnored(current: int, n: nat)
    requires -1 <= current < n
    ensures NewIndex(current, n, Vertical, ArrowLeft) == Some(current)
    ensures NewIndex(current, n, Vertical, ArrowRight) == Some(current)
    ensures NewIndex(current, n, Horizontal, ArrowUp) == Some(current)
    ensures NewIndex(current, n, Horizontal, ArrowDown) == Some(current)
  {
  }

  /** The effect of a keydown on the tab list. */
  datatype KeyOutcome =
    | Ignored
      /** `preventDefault`, `setActiveTab(tabIds[index])` (`undefined` when
          out of range) and focus on the tab at `index`. */
    | Activate(index: Option<int>, value: Option<string>)

  /** `id => id === activeTab`. */
  function Is(active: string): string -> bool
  {
    tabId => tabId == active
  }

  /** `handleKeyDown`. */
  function HandleKeyDown(tabIds: seq<string>, active: string, orientation: Orientation, key: Key): (r: KeyOutcome)
    ensures |tabIds| > 0 && r.Activate? ==>
              r.index.Some? && 0 <= r.index.value < |tabIds| && r.value == Some(tabIds[r.index.value])
    ensures r.Activate? && r.value.Some? ==> r.value.value in tabIds
    ensures |tabIds| > 0 && active in tabIds && r.Activate? ==> r.value != Some(active) || !Order.Distinct(tabIds)
    ensures key == OtherKey ==> r.Ignored?
  {
    var current := FindIndex(tabIds, Is(active));
    var k := NewIndex(current, |tabIds|, orientation, key);
    if k == Some(current) then Ignored
    else if k.Some? && 0 <= k.value < |tabIds| then Activate(k, Some(tabIds[k.value]))
    else Activate(k, None)
  }

  /** In a duplicate-free registry, `indexOf` finds a registered tab at its own place. */
  lemma IndexOfRegistered(tabIds: seq<string>, i: nat)
    requires Order.Distinct(tabIds) && i < |tabIds|
    ensures FindIndex(tabIds, Is(tabIds[i])) == i
  {
    assert Is(tabIds[i])(tabIds[i]);
  }

  /** Which tab a key activates when the active tab is the registered one at
      `i`: the arrows along the orientation move to `(i + 1) % n` and
      `(i - 1 + n) % n`, Home to the first and End to the last tab; a key
      that leads back to `i` is ignored. */
  lemma KeyActivates(tabIds: seq<string>, i: nat, orientation: Orientation)
    requires Order.Distinct(tabIds) && i < |tabIds|
    ensures var n, active := |tabIds|, tabIds[i];
            var next, prev := (i + 1) % n, (i - 1 + n) % n;
            && HandleKeyDown(tabIds, active, orientation, NextKey(orientation))
                 == (if next == i then Ignored else Activate(Some(next), Some(tabIds[next])))
            && HandleKeyDown(tabIds, active, orientation, PrevKey(orientation))
                 == (if prev == i then Ignored else Activate(Some(prev), Some(tabIds[prev])))
            && HandleKeyDown(tabIds, active, orientation, Home)
                 == (if i == 0 then Ignored else Activate(Some(0), Some(tabIds[0])))
            && HandleKeyDown(tabIds, active, orientation, End)
                 == (if i == n - 1 then Ignored else Activate(Some(n - 1), Some(tabIds[n - 1])))
  {
    IndexOfRegistered(tabIds, i);
    ArrowsWrapAround(i, |tabIds|, orientation);
  }

  /** When the active value names no registered tab (`indexOf` gives -1),
      the forward arrow activates the first tab and, with two or more tabs,
      the backward arrow the second-to-last. */
  lemma UnregisteredActiveKeys(tabIds: seq<string>, active: string, orientation: Orientation)
    requires active !in tabIds && |tabIds| > 0
    ensures HandleKeyDown(tabIds, active, orientation, NextKey(orientation)) == Activate(Some(0), Some(tabIds[0]))
    ensures |tabIds| >= 2 ==>
              HandleKeyDown(tabIds, active, orientation, PrevKey(orientation))
                == Activate(Some(|tabIds| - 2), Some(tabIds[|tabIds| - 2]))
  {
    assert FindIndex(tabIds, Is(active)) == -1;
    ArrowsWrapAround(-1, |tabIds|, orientation);
  }

  /** Keyboard navigation over three registered tabs, starting on the first. */
  lemma KeyboardScenario(a: string, b: string, c: string)
    requires a != b && b != c && a != c
    ensures HandleKeyDown([a, b, c], a, Horizontal, ArrowRight) == Activate(Some(1), Some(b))
    ensures HandleKeyDown([a, b, c], a, Horizontal, ArrowLeft) == Activate(Some(2), Some(c))
    ensures HandleKeyDown([a, b, c], a, Horizontal, End) == Activate(Some(2), Some(c))
    ensures HandleKeyDown([a, b, c], a, Horizontal, Home) == Ignored
    ensures HandleKeyDown([a, b, c], a, Vertical, ArrowRight) == Ignored
  {
    assert FindIndex([a, b, c], Is(a)) == 0;
  }

  /** With no tab registered, Home asks for `tabIds[0]`, which is `undefined`. */
  lemma EmptyHomeActivatesUndefined(active: string)
    ensures HandleKeyDown([], active, Horizontal, Home) == Activate(Some(0), None)
    ensures HandleKeyDown([], active, Horizontal, End) == Ignored
  {
  }

  /** The root's state: `internalValue` (initially `defaultValue`) and the
      controlled `value` prop, if any. */
  datatype TabsState = TabsState(internal: string, value: Option<string>)

  /** `value ?? internalValue`: only a missing `value` falls back. */
  function ActiveTab(s: TabsState): (r: string)
    ensures s.value.Some? ==> r == s.value.value
    ensures s.value.None? ==> r == s.internal
  {
    if s.value.Some? then s.value.value else s.internal
  }

  /** `setActiveTab(id)`: the internal value changes only when `value` is
      falsy (missing or empty); `onValueChange`, when given, always hears `id`. */
  datatype SetResult = SetResult(state: TabsState, notified: Option<string>)

  function SetActiveTab(s: TabsState, id: string, hasCallback: bool): (r: SetResult)
    ensures r.state.value == s.value
    ensures r.state.internal == (if s.value.None? || s.value == Some("") then id else s.internal)
    ensures r.notified == (if hasCallback then Some(id) else None)
  {
    var internal := if s.value.None? || s.value == Some("") then id else s.internal;
    SetResult(TabsState(internal, s.value), if hasCallback then Some(id) else None)
  }

  /** Uncontrolled, the clicked tab becomes active; controlled, the active tab
      stays what the `value` prop says until the caller changes it. */
  lemma SetActiveTabEffect(s: TabsState, id: string, hasCallback: bool)
    ensures s.value.None? ==> ActiveTab(SetActiveTab(s, id, hasCallback).state) == id
    ensures s.value.Some? ==> ActiveTab(SetActiveTab(s, id, hasCallback).state) == ActiveTab(s)
  {
  }

  /** `value=""` is controlled for `??` but falsy for `!value`: the internal
      value moves while the active tab stays `""`. */
  lemma EmptyControlledValue(internal: string, id: string)
    requires id != internal
    ensures var r := SetActiveTab(TabsState(internal, Some("")), id, false);
            r.state.internal == id && ActiveTab(r.state) == ""
  {
  }

  /** `TabsTrigger` click: a disabled trigger does nothing. */
  function TriggerClick(s: TabsState, triggerValue: string, disabled: bool, hasCallback: bool): (r: SetResult)
    ensures disabled ==> r == SetResult(s, None)
    ensures !disabled && s.value.None? ==> ActiveTab(r.state) == triggerValue
  {
    if disabled then SetResult(s, None) else SetActiveTab(s, triggerValue, hasCallback)
  }

  /** `TabsContent` renders its panel when its tab is active or it is force-mounted. */
  predicate ContentRendered(s: TabsState, contentValue: string, forceMount: bool)
  {
    ActiveTab(s) == contentValue || forceMount
  }

  /** Without force-mounting, exactly the active tab's panel is rendered:
      among panels with distinct values, at most one shows. */
  lemma AtMostOnePanel(s: TabsState, v1: string, v2: string)
    requires v1 != v2
    ensures !(ContentRendered(s, v1, false) && ContentRendered(s, v2, false))
    ensures ContentRendered(s, ActiveTab(s), false)
  {
  }

  const ContextMessage := "Tabs components must be used within a Tabs"

  /** `useTabsContext` outside a `Tabs` throws. */
  function UseTabsContext<T>(provided: Option<T>): (r: React.ContextResult<T>)
    ensures r.Thrown? <==> provided.None?
    ensures r.Thrown? ==> r.message == ContextMessage
  {
    React.UseContext(provided, ContextMessage)
  }
}
