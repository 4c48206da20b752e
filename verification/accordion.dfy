/** The accordion of components/ui/Accordion.tsx: which items are expanded,
    and how toggling an item changes that in single- and multi-expansion mode. */
module Accordion {
  import opened Js
  import React

  /** `new Set(defaultExpanded)`: only membership is ever read, so the set of
      item ids is the whole state. */
  function Initial(defaultExpanded: seq<string>): (r: set<string>)
    ensures forall id :: id in r <==> id in defaultExpanded
  {
    set i | 0 <= i < |defaultExpanded| :: defaultExpanded[i]
  }

  /** `toggleItem(id)`: an expanded item collapses; a collapsed one expands,
      and in single-expansion mode every other item collapses first. */
  function Toggle(expanded: set<string>, id: string, allowMultiple: bool): (r: set<string>)
    ensures id in r <==> id !in expanded
    ensures forall x :: x != id ==> (x in r <==> x in expanded && (allowMultiple || id in expanded))
  {
    if id in expanded then expanded - {id}
    else if !allowMultiple then {id}
    else expanded + {id}
  }

  /** `isExpanded` of an item. */
  predicate IsExpanded(expanded: set<string>, itemId: string)
  {
    itemId in expanded
  }

  /** In single-expansion mode at most one item is open after any toggle,
      provided at most one was open before. */
  lemma SingleModeAtMostOne(expanded: set<string>, id: string)
    requires |expanded| <= 1
    ensures |Toggle(expanded, id, false)| <= 1
  {
    if id in expanded {
      var rest := expanded - {id};
      assert expanded == rest + {id};
      assert |expanded| == |rest| + 1;
    }
  }

  /** Toggles applied one after another. */
  function ToggleAll(expanded: set<string>, ids: seq<string>, allowMultiple: bool): set<string>
    decreases |ids|
  {
    if |ids| == 0 then expanded
    else Toggle(ToggleAll(expanded, ids[..|ids| - 1], allowMultiple), ids[|ids| - 1], allowMultiple)
  }

  /** However many toggles happen in single-expansion mode, starting from at
      most one open item, at most one item is open. */
  lemma {:induction false} SingleModeStaysSingle(expanded: set<string>, ids: seq<string>)
    requires |expanded| <= 1
    ensures |ToggleAll(expanded, ids, false)| <= 1
    decreases |ids|
  {
    if |ids| > 0 {
      SingleModeStaysSingle(expanded, ids[..|ids| - 1]);
      SingleModeAtMostOne(ToggleAll(expanded, ids[..|ids| - 1], false), ids[|ids| - 1]);
    }
  }

  /** In multi-expansion mode an item's state depends only on how often it
      was toggled: it is open iff it started open xor was toggled an odd
      number of times. */
  lemma {:induction false} MultiModeParity(expanded: set<string>, ids: seq<string>, x: string)
    ensures x in ToggleAll(expanded, ids, true) <==> ((x in expanded) != (multiset(ids)[x] % 2 == 1))
    decreases |ids|
  {
    if |ids| > 0 {
      var init := ids[..|ids| - 1];
      MultiModeParity(expanded, init, x);
      assert ids == init + [ids[|ids| - 1]];
      assert multiset(ids) == multiset(init) + multiset{ids[|ids| - 1]};
    }
  }

  /** In multi-expansion mode toggling the same item twice changes nothing. */
  lemma MultiToggleTwice(expanded: set<string>, id: string)
    ensures Toggle(Toggle(expanded, id, true), id, true) == expanded
  {
  }

  /** In multi-expansion mode the order of two toggles does not matter. */
  lemma MultiTogglesCommute(expanded: set<string>, a: string, b: string)
    ensures Toggle(Toggle(expanded, a, true), b, true) == Toggle(Toggle(expanded, b, true), a, true)
  {
  }

  /** In single-expansion mode, opening another item and then closing it
      leaves nothing open: the previously open item does not come back. */
  lemma SingleModeForgetsPrevious(a: string, b: string)
    requires a != b
    ensures Toggle(Toggle({a}, b, false), b, false) == {}
  {
  }

  /** An item's id: the `id` prop unless it is missing or empty, else the
      id React generated for it. */
  function ItemId(id: Option<string>, generated: string): (r: string)
    ensures id.Some? && id.value != "" ==> r == id.value
    ensures id.None? || id.value == "" ==> r == generated
  {
    if id.Some? && id.value != "" then id.value else generated
  }

  const HeaderPrefix: string := "accordion-header-"
  const PanelPrefix: string := "accordion-panel-"

  function HeaderId(itemId: string): string { HeaderPrefix + itemId }

  function PanelId(itemId: string): string { PanelPrefix + itemId }

  /** The ARIA ids link each header to its own panel: distinct items get
      distinct ids, and no header id is a panel id. */
  lemma AriaIdsDistinct(a: string, b: string)
    ensures HeaderId(a) == HeaderId(b) ==> a == b
    ensures PanelId(a) == PanelId(b) ==> a == b
    ensures HeaderId(a) != PanelId(b)
  {
    if HeaderId(a) == HeaderId(b) {
      assert a == HeaderId(a)[|HeaderPrefix|..];
    }
    if PanelId(a) == PanelId(b) {
      assert a == PanelId(a)[|PanelPrefix|..];
    }
    assert HeaderId(a)[10] == 'h' && PanelId(b)[10] == 'p';
  }

  const AccordionMessage := "Accordion components must be used within an Accordion"
  const ItemMessage := "AccordionItem components must be used within an AccordionItem"

  /** `useAccordionContext`: outside an `Accordion` it throws. */
  function UseAccordionContext<T>(provided: Option<T>): (r: React.ContextResult<T>)
    ensures r.Thrown? <==> provided.None?
    ensures r.Thrown? ==> r.message == AccordionMessage
  {
    React.UseContext(provided, AccordionMessage)
  }

  /** `useAccordionItemContext`: outside an `AccordionItem` it throws, with
      a message of its own. */
  function UseAccordionItemContext<T>(provided: Option<T>): (r: React.ContextResult<T>)
    ensures r.Thrown? <==> provided.None?
    ensures r.Thrown? ==> r.message == ItemMessage && r.message != AccordionMessage
  {
    React.UseContext(provided, ItemMessage)
  }
}
