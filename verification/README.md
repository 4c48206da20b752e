# Designed to Fail — a Dafny model of the site's logic

The marketing site for the book *Designed to Fail* is mostly page markup and
hand-drawn charts. Inside it sit a few small, self-contained pieces of logic,
and this project models each of them in Dafny and proves what they promise:

- the notification queue of the toast provider and each toast's dismiss timer;
- the modal dialog's scroll lock, focus handling, Tab trap and close requests;
- the accordion's set of expanded items;
- the tabs' registry, active tab and keyboard navigation;
- the tooltip's show/hide timers and its placement and viewport clamp;
- the contact and newsletter endpoints' validation, including the email pattern;
- the content tables and their lookups;
- the sitemap, the figures gallery's theme filter and the chapter list's formatting;
- the territory timeline's autoplay;
- the mineral chart's colour bands.

Timers, DOM events and rendering become explicit inputs. Each component with a
lifecycle is an event-driven state machine: a state record, an event datatype,
and a `Step` and a `Run` function.

The files:

- `js.dfy`: JavaScript built-ins with their JavaScript semantics, and subsequence facts.
  - Module `Js` covers the truncating `%`, `slice`, `filter`, `find`, `findIndex`, `toString` and `padStart`.
  - Module `Order` defines "a subsequence of", which is how "keeps the order" is stated.
- `timers.dfy`: `setTimeout`/`clearTimeout` as an explicit scheduler of live handles.
- `react.dfy`: the context hook that throws outside its provider.
- One file per component: `toast.dfy`, `dialog.dfy`, `accordion.dfy`, `tabs.dfy`, `tooltip.dfy`.
- `forms.dfy`: the two API routes and the email pattern they share.
- `content.dfy`: the chapter, figure and author tables and their lookups.
- `sitemap.dfy`, `pages.dfy`: the sitemap, the figures page and the chapters page.
- `territory.dfy`, `mineral.dfy`: the two charts with logic.

Decisions:

- **Tabs with no registered tab.** The arrow keys compute `% 0`, which is `NaN`. The model returns `None` there instead of requiring a tab, so the keydown handler is modelled on every input the page can produce.
- **Whitespace.** The email pattern's `\s` is the exact ECMAScript set of white-space and line-terminator code points.
- **Inside the content tables.** Only the fields the site's logic reads are carried; titles, summaries and prose are not.

## Model

| member | source | states |
|---|---|---|
| Js.Rem | components/ui/Tabs.tsx:129-137 | JavaScript `%` truncates toward zero: the remainder has the sign of the dividend and agrees with the mathematical modulus for non-negative operands |
| Js.SliceFrom | components/ui/Toast.tsx:346 | `slice(start)`: a negative start keeps the last `-start` elements (all when there are fewer), so `slice(-0)` keeps everything; the result is always a suffix |
| Js.Filter | lib/content/figures.ts:130-136 | `filter` keeps exactly the elements that pass, never more than it was given |
| Js.FilterMultiset | lib/content/figures.ts:130-136 | `filter` keeps each passing element as many times as it occurs and drops every other one |
| Js.FindIndex | components/visualizations/TerritoryTimeline.tsx:42 | `findIndex` returns the first index whose element passes, or -1 exactly when none does |
| Js.Find | lib/content/chapters.ts:198-200 | `find` returns nothing exactly when no element passes, otherwise the first element that passes |
| Js.FindUnique | lib/content/chapters.ts:198-200 | when exactly one element passes, `find` returns it |
| Js.ParseNumberToString | app/chapters/page.tsx:38 | `toString` of a number parses back to the same number |
| Js.PadStart | app/chapters/page.tsx:38 | `padStart(len, fill)` has length max(len, \|s\|), ends with `s` and is filled in front |
| Order.FilterSubseq | components/ui/Tabs.tsx:82-84 | filtering keeps the surviving elements in their original order |
| Order.SubseqDistinct | components/ui/Tabs.tsx:82-84 | removing elements from a duplicate-free list keeps it duplicate-free |
| Timers.SetTimeout | components/ui/Tooltip.tsx:190-192 | `setTimeout` returns a fresh, positive (so truthy) handle, now live with its delay, and leaves every other timer as it was |
| Timers.ClearTimeout | components/ui/Tooltip.tsx:196-198 | `clearTimeout(h)` cancels `h` and nothing else |
| Timers.Elapse | components/ui/Tooltip.tsx:190-192 | a timer fires its callback exactly when its handle is still live, and it is no longer live afterwards |
| React.UseContext | components/ui/Dialog.tsx:24-30 | a context hook returns the provided context, and throws its message exactly when there is no provider |
| Toast.AddToast | components/ui/Toast.tsx:337-354 | with a cap of at least one, the list has min(cap, n+1) toasts, ends with the new toast and is the tail of old-plus-new; with cap 0, `slice(-0)` keeps everything; the returned id is the new toast's |
| Toast.EvictionDropsOldest | components/ui/Toast.tsx:343-347 | what eviction drops is a prefix of the old list: only the oldest toasts go, and the survivors keep their order |
| Toast.AddIsSuffix | components/ui/Toast.tsx:340-351 | the list after an add is a subsequence of the old list plus the new toast |
| Toast.ZeroCapKeepsEverything | components/ui/Toast.tsx:346 | with `maxToasts` 0 nothing is ever evicted, so the cap does not hold |
| Toast.RemoveToast | components/ui/Toast.tsx:356-358 | `removeToast(id)` keeps every toast with another id and none with this id |
| Toast.RemoveExactly | components/ui/Toast.tsx:356-358 | removal deletes exactly the entries with that id, keeps every other entry as often as it occurred, and keeps their order |
| Toast.RemoveUnknownIsNoOp | components/ui/Toast.tsx:356-358 | removing an id that is not shown changes nothing |
| Toast.RemoveIdempotent | components/ui/Toast.tsx:356-358 | a second removal of the same id is a no-op |
| Toast.ClearForgetsHistory | components/ui/Toast.tsx:360-362 | after `removeAllToasts`, the queue is what the later operations build from an empty list |
| Toast.RunRespectsCap | components/ui/Toast.tsx:343-348 | with a cap of at least one, no sequence of adds, removals and clears ever shows more than the cap |
| Toast.RunKeepsInsertionOrder | components/ui/Toast.tsx:337-362 | for any run of operations, the toasts shown appear in the order they were added |
| Toast.AddsKeepNewest | components/ui/Toast.tsx:343-347 | after any run of adds, the queue holds exactly the newest min(cap, total) toasts |
| Toast.ItemStepOf | components/ui/Toast.tsx:189-255 | a toast with no positive duration arms no timer; mount and mouse-leave arm one for the full duration; mouse-enter cancels the stored one; `onDismiss` runs only on an expired live timer, the action or the close button; the action button runs its callback, then dismisses |
| Toast.EffectiveDuration | components/ui/Toast.tsx:190 | only a missing duration takes the default 5000; an explicit duration, even 0 or negative, is kept |
| Toast.NoDurationNeverAutoDismisses | components/ui/Toast.tsx:190-206 | with an effective duration of zero or less, no run without clicks ever arms a timer or dismisses the toast |
| Toast.HoverPausesAutoDismiss | components/ui/Toast.tsx:209-213 | hovering a freshly mounted toast cancels its timer, so the timer's expiry does nothing |
| Toast.LeaveRestartsFullDuration | components/ui/Toast.tsx:215-219 | leaving again arms one fresh timer for the full original duration |
| Toast.RenderWhileHoveredRearms | components/ui/Toast.tsx:197-206 | the dismiss effect depends on a callback recreated on every provider render, so a render while the mouse rests on the toast re-arms its timer |
| Toast.UseToast | components/ui/Toast.tsx:47-53 | `useToast` outside a `ToastProvider` throws its message |
| Dialog.TrapTab | components/ui/Dialog.tsx:196-224 | the trap intercepts a Tab exactly when it is Tab on the last focusable or Shift+Tab on the first, wrapping to the first or the last; with no focusables nothing is intercepted; a Tab that is not intercepted leaves focus alone |
| Dialog.Step | components/ui/Dialog.tsx:93-282 | opening saves the body overflow and hides it, and closing restores it; content mounts only while open, records the active element and focuses the first focusable or the container; unmount restores focus; only Escape inside the content, the backdrop and a `DialogCloseButton` request a close; any other click inside the content does nothing |
| Dialog.Run | components/ui/Dialog.tsx:140-282 | over any run, every click on the backdrop or on a `DialogCloseButton` calls `onClose` once, and nothing but those clicks and Escape keys calls it |
| Dialog.ScrollLockRestored | components/ui/Dialog.tsx:93-101 | along any run, the overflow is hidden while open and equals the value saved at open once closed |
| Dialog.ContentPersists | components/ui/Dialog.tsx:107 | mounted content stays mounted until it or the dialog unmounts |
| Dialog.FocusReturnsOnUnmount | components/ui/Dialog.tsx:193 | when the content unmounts, focus returns to the element that was active when it mounted |
| Dialog.OpenCloseRestoresPage | components/ui/Dialog.tsx:93-232 | open, mount, Tab, backdrop click, close, unmount restores both the overflow and the focused element, and calls `onClose` exactly once |
| Dialog.TrapWrapsThree | components/ui/Dialog.tsx:213-223 | over three focusables, Tab from the last goes to the first, Shift+Tab from the first to the last, and Tab from the first is left to the browser |
| Dialog.TrapSingleStays | components/ui/Dialog.tsx:199-200 | with one focusable, Tab and Shift+Tab keep focus on it |
| Dialog.UseDialogContext | components/ui/Dialog.tsx:24-30 | a subcomponent outside a `Dialog` throws |
| Accordion.Initial | components/ui/Accordion.tsx:100-102 | the initial set holds exactly the default-expanded ids; duplicates collapse |
| Accordion.Toggle | components/ui/Accordion.tsx:104-120 | the toggled id flips; every other id stays expanded exactly when it was and the mode allows several open, or the toggled id was open |
| Accordion.SingleModeAtMostOne | components/ui/Accordion.tsx:107-117 | in single mode a toggle keeps at most one item open |
| Accordion.SingleModeStaysSingle | components/ui/Accordion.tsx:107-117 | in single mode any sequence of toggles keeps at most one item open |
| Accordion.SingleModeForgetsPrevious | components/ui/Accordion.tsx:111-114 | in single mode, opening another item closes the first |
| Accordion.MultiModeParity | components/ui/Accordion.tsx:107-117 | in multi mode an item is open after a sequence of toggles exactly when it started open xor it was toggled an odd number of times |
| Accordion.MultiToggleTwice | components/ui/Accordion.tsx:107-117 | in multi mode, toggling the same id twice changes nothing |
| Accordion.MultiTogglesCommute | components/ui/Accordion.tsx:107-117 | in multi mode, toggles of two ids commute |
| Accordion.ItemId | components/ui/Accordion.tsx:146-147 | an item's id is its `id` prop when given, else the generated id |
| Accordion.AriaIdsDistinct | components/ui/Accordion.tsx:153-154 | header and panel ids never collide, and distinct items get distinct ids |
| Accordion.UseAccordionContext | components/ui/Accordion.tsx:23-29 | outside an `Accordion` the hook throws its message |
| Accordion.UseAccordionItemContext | components/ui/Accordion.tsx:44-52 | outside an `AccordionItem` the hook throws a different message |
| Tabs.Register | components/ui/Tabs.tsx:78-80 | registering appends the id only when it is absent |
| Tabs.Unregister | components/ui/Tabs.tsx:82-84 | unregistering removes the id and keeps every other id |
| Tabs.RegistryStaysDistinct | components/ui/Tabs.tsx:78-84 | registering and unregistering keep the registry duplicate-free |
| Tabs.RegisterUnregisterRoundTrip | components/ui/Tabs.tsx:78-84 | a trigger that registers and unregisters leaves the registry as it was |
| Tabs.NewIndex | components/ui/Tabs.tsx:124-145 | Home gives 0 and End gives n-1, overriding arrows; keys that are not arrows along the orientation, Home or End keep the index; the result is NaN exactly for such an arrow with no tabs; a changed index lies in [0, n) |
| Tabs.ArrowsWrapAround | components/ui/Tabs.tsx:124-139 | with at least one tab, the arrows along the orientation give (i+1) mod n and (i-1+n) mod n, wrapping at both ends; with the active tab unregistered (i = -1) the forward arrow goes to the first tab and the backward arrow to the second-to-last |
| Tabs.CrossArrowsIgnored | components/ui/Tabs.tsx:127-139 | arrows across the orientation do nothing |
| Tabs.HandleKeyDown | components/ui/Tabs.tsx:123-157 | the handler activates only when the index changes; with tabs registered it activates a registered tab other than the active one; any other key is ignored |
| Tabs.IndexOfRegistered | components/ui/Tabs.tsx:124 | in a duplicate-free registry, `indexOf` of a registered tab is its own position |
| Tabs.KeyActivates | components/ui/Tabs.tsx:123-157 | with the registered tab at i active, the forward arrow activates tab (i+1) mod n, the backward arrow tab (i-1+n) mod n, Home the first and End the last; a key that leads back to i is ignored |
| Tabs.UnregisteredActiveKeys | components/ui/Tabs.tsx:124-149 | when the active value is not registered, the forward arrow activates the first tab and, with two or more tabs, the backward arrow the second-to-last |
| Tabs.KeyboardScenario | components/ui/Tabs.tsx:123-157 | over three tabs starting on the first: right goes to the second, left wraps to the third, End goes to the third, Home and cross arrows are ignored |
| Tabs.EmptyHomeActivatesUndefined | components/ui/Tabs.tsx:141-149 | with no tabs, Home asks to activate `tabIds[0]`, which is undefined, and End is ignored |
| Tabs.ActiveTab | components/ui/Tabs.tsx:66 | `value ?? internalValue`: only a missing value falls back to internal state |
| Tabs.SetActiveTab | components/ui/Tabs.tsx:68-76 | internal state changes only when `value` is falsy; `onValueChange` always hears the id |
| Tabs.SetActiveTabEffect | components/ui/Tabs.tsx:66-76 | uncontrolled, the chosen tab becomes active; controlled, the active tab stays the `value` prop |
| Tabs.EmptyControlledValue | components/ui/Tabs.tsx:66-71 | with `value=""` the internal state moves while the active tab stays "" |
| Tabs.TriggerClick | components/ui/Tabs.tsx:221 | a disabled trigger does nothing; an enabled one on uncontrolled tabs becomes active |
| Tabs.AtMostOnePanel | components/ui/Tabs.tsx:282-284 | without force-mounting, exactly the active value's panel is rendered |
| Tabs.UseTabsContext | components/ui/Tabs.tsx:29-35 | outside a `Tabs` the hook throws |
| Tooltip.ShowTooltip | components/ui/Tooltip.tsx:188-193 | disabled, nothing happens; otherwise a fresh timer for `delay` is armed and stored, and earlier timers stay live |
| Tooltip.HideTooltip | components/ui/Tooltip.tsx:195-200 | hide cancels the stored timer only, and hides the tooltip |
| Tooltip.FireTimer | components/ui/Tooltip.tsx:190-192 | a firing timer makes the tooltip visible exactly when it was live and the component is mounted |
| Tooltip.UnmountTooltip | components/ui/Tooltip.tsx:203-209 | unmount cancels the stored timer only |
| Tooltip.Step | components/ui/Tooltip.tsx:188-209 | only a live timer firing while mounted makes a hidden tooltip visible; hide always hides; only an enabled show arms a new timer; the scheduler stays well formed |
| Tooltip.Run | components/ui/Tooltip.tsx:188-209 | along any run, a tooltip that was hidden becomes visible only if some timer fired, and the scheduler stays well formed |
| Tooltip.DisabledNeverVisible | components/ui/Tooltip.tsx:188-189 | a disabled tooltip never arms a timer and never becomes visible |
| Tooltip.ShowThenDelayShows | components/ui/Tooltip.tsx:188-193 | show, then the delay elapsing, makes the tooltip visible |
| Tooltip.ShowHideCancels | components/ui/Tooltip.tsx:195-200 | show then hide leaves no timer and the tooltip hidden |
| Tooltip.StaleTimerShowsAfterHide | components/ui/Tooltip.tsx:190 | show, show, hide leaves the first timer live, and its firing shows the tooltip after it was hidden |
| Tooltip.ShowTooltipFixed | components/ui/Tooltip.tsx:188-193 | the corrected show cancels the stored timer before arming a new one |
| Tooltip.FixedInvariant | components/ui/Tooltip.tsx:188-209 | with the corrected show, the only live timer is ever the stored one |
| Tooltip.FixedHideIsFinal | components/ui/Tooltip.tsx:195-200 | with the corrected show, after any history and a hide no timer is live, and no later firing shows the tooltip |
| Tooltip.FixedShowShowHide | components/ui/Tooltip.tsx:188-200 | with the corrected show, show, show, hide and the first timer firing leave the tooltip hidden |
| Tooltip.Place | components/ui/Tooltip.tsx:117-150 | top and bottom sit `offset` above or below the trigger and centre horizontally on it; left and right sit `offset` beside it and centre vertically; coordinates include the scroll offsets |
| Tooltip.PlacementClearsTrigger | components/ui/Tooltip.tsx:117-150 | with a non-negative offset, the placed tooltip does not overlap its trigger on the placement's axis |
| Tooltip.ClampLeft | components/ui/Tooltip.tsx:157-162 | the horizontal clamp as written: an in-bounds left is unchanged and, when the tooltip fits, the result lies in [8, viewportWidth - width - 8] in viewport coordinates |
| Tooltip.ClampTop | components/ui/Tooltip.tsx:164-169 | the vertical clamp: the same bounds shifted by `scrollY`; an in-bounds top is unchanged |
| Tooltip.HorizontalScrollMisplaces | components/ui/Tooltip.tsx:157-162 | scrolled horizontally, the clamp as written moves an in-view tooltip hundreds of pixels away from its trigger |
| Tooltip.ClampLeftScrolled | components/ui/Tooltip.tsx:157-169 | the corrected horizontal clamp keeps the tooltip inside the visible part of the page and leaves an in-view left unchanged |
| Tooltip.ClampLeftUnscrolled | components/ui/Tooltip.tsx:157-162 | unscrolled, the corrected and the written clamp agree |
| Tooltip.UpdatePosition | components/ui/Tooltip.tsx:106-171 | no position while either ref is unset; otherwise a position whose top lies within the scrolled viewport, and whose left lies within the viewport as written or within the scrolled viewport when corrected |
| Tooltip.FixedPositionInView | components/ui/Tooltip.tsx:153-169 | with the corrected clamp, a tooltip that fits lies inside the scrolled viewport, and an in-view placement is left where it is |
| Api.ValidEmail | app/api/contact/route.ts:4 | the email test accepts exactly the strings matching `^[^\s@]+@[^\s@]+\.[^\s@]+$` |
| Api.EmailShapeDecidesPattern | app/api/contact/route.ts:4 | no whitespace, one `@` after a non-empty local part, and a dot in the domain with text on both sides decides the pattern |
| Api.NoAtRejected | app/api/contact/route.ts:4 | "not-an-email" is rejected |
| Api.ShortAddressAccepted | app/api/contact/route.ts:4 | "a@b.co" is accepted |
| Api.SpaceRejected | app/api/contact/route.ts:4 | whitespace in the local part is rejected |
| Api.EmptyDomainRejected | app/api/contact/route.ts:4 | a domain starting with the dot is rejected |
| ContactRoute.Post | app/api/contact/route.ts:20-82 | 200 with the success message exactly when every required field is non-empty, the email matches and the inquiry type is one of the four; otherwise 400 with one of the three errors |
| ContactRoute.CheckOrder | app/api/contact/route.ts:20-42 | the checks run in order and the first failing one names the error |
| ContactRoute.OrganizationIgnored | app/api/contact/route.ts:17-42 | the organization never changes the response |
| ContactRoute.SponsorshipRejected | app/api/contact/route.ts:36-42 | an otherwise valid inquiry of type "sponsorship" gets "Invalid inquiry type" |
| NewsletterRoute.Post | app/api/newsletter/route.ts:12-41 | 200 with the subscribed message exactly when the email is present and matches; every other request gets 400 "Valid email address is required" |
| NewsletterRoute.SameEmailRule | app/api/newsletter/route.ts:4 | with the other contact fields valid, the two forms accept exactly the same emails and reject a non-empty bad one with the same message |
| Chapters.TableNumbered | lib/content/chapters.ts:3-196 | the table has 12 chapters; the one at index i is number i+1 and its slug starts with its number and a dash |
| Chapters.NumberedSlugsDistinguish | lib/content/chapters.ts:3-196 | two chapters whose slugs start with their numbers and share a slug share a number |
| Chapters.SlugsUnique | lib/content/chapters.ts:3-196 | chapter slugs are unique |
| Chapters.GetChapterBySlug | lib/content/chapters.ts:198-200 | the lookup finds a chapter of the table with that slug, or nothing exactly when no chapter has it |
| Chapters.GetChapterByNumber | lib/content/chapters.ts:202-204 | the lookup finds a chapter of the table with that number, or nothing exactly when no chapter has it |
| Chapters.SlugLookupRoundTrip | lib/content/chapters.ts:198-200 | looking up a chapter's own slug returns that chapter |
| Chapters.NumberLookup | lib/content/chapters.ts:202-204 | numbers 1 to 12 find the chapter at index n-1; any other number finds nothing |
| Figures.ThemeIdInjective | lib/content/figures.ts:134-136 | distinct themes have distinct ids |
| Figures.TableNumbered | lib/content/figures.ts:3-124 | the table has 15 figures, each numbered after its chapter |
| Figures.SlugsUnique | lib/content/figures.ts:3-124 | figure slugs are unique |
| Figures.GetFigureBySlug | lib/content/figures.ts:126-128 | the lookup finds a figure with that slug, or nothing exactly when none has it |
| Figures.GetFiguresByChapter | lib/content/figures.ts:130-132 | exactly the figures of that chapter, in table order |
| Figures.GetFiguresByTheme | lib/content/figures.ts:134-136 | exactly the figures of that theme, in table order |
| Figures.SlugLookupRoundTrip | lib/content/figures.ts:126-128 | looking up a figure's own slug returns that figure |
| Figures.FilterTally | lib/content/figures.ts:134-136 | filtering any list of figures by a theme keeps as many figures as that theme's count |
| Figures.ThemesPartition | lib/content/figures.ts:134-136 | the per-theme lists add up to the whole table |
| Figures.ThemeSizes | lib/content/figures.ts:3-124 | 4 territory, 5 economy, 5 inequality and 1 trust figure |
| Authors.GetAuthorBySlug | lib/content/authors.ts:101-103 | the lookup finds an author with that slug, or nothing exactly when none has it |
| Authors.FooterLinksResolve | components/layout/Footer.tsx:12-13 | both author links in the footer resolve, the first to the memorial author |
| ContentLinks.FiguresBelongToChapters | lib/content/figures.ts:3-124 | every figure's chapter exists and lists the figure among its related figures |
| Sitemap.Build | app/sitemap.ts:10-85 | 8 + chapters + figures + authors entries: the static pages, then each chapter, figure and author page in table order, each with its priority |
| Sitemap.PrioritiesBounded | app/sitemap.ts:11-83 | every priority lies in [0, 1], and only the home page has priority 1 |
| Sitemap.UrlsDistinct | app/sitemap.ts:10-85 | with unique slugs in each table, all URLs are distinct |
| Sitemap.SiteSitemap | app/sitemap.ts:7-85 | the site's sitemap has 37 entries with distinct URLs, one per chapter page among them |
| FiguresPage.Filtered | app/figures/page.tsx:27-29 | "all" shows the whole table; any other theme shows exactly the figures with that theme, in table order |
| FiguresPage.FilterMatchesLookup | app/figures/page.tsx:27-29 | choosing a theme's button shows exactly that theme's figures from the table lookup |
| FiguresPage.UnknownThemeEmpty | app/figures/page.tsx:117 | a theme value no figure has leaves the grid empty |
| FiguresPage.EmptyState | app/figures/page.tsx:117 | the "no figures" message shows exactly when the active value is not "all" and no figure has that theme |
| FiguresPage.Badge | app/figures/page.tsx:62-66 | the "all" button has no badge and every other button has one |
| FiguresPage.BadgeCountsFiltered | app/figures/page.tsx:62-66 | a theme's badge equals the number of figures its button shows |
| FiguresPage.BadgesCountTheGallery | app/figures/page.tsx:62-66 | the badges read 4, 5, 5 and 1 and add up to the whole gallery |
| FiguresPage.NoButtonEmpty | app/figures/page.tsx:117 | no filter button leads to the empty state |
| ChaptersPage.Label | app/chapters/page.tsx:38 | the chapter label is all digits and at least two long |
| ChaptersPage.LabelRoundTrip | app/chapters/page.tsx:38 | 1 to 9 get one leading zero, 10 and up are unchanged, and the label reads back as the number |
| ChaptersPage.LabelsDistinct | app/chapters/page.tsx:38 | distinct chapter numbers get distinct labels |
| ChaptersPage.Truncate | app/chapters/page.tsx:57 | an argument of at most 60 characters is shown whole; a longer one as its first 60 characters and "..." |
| ChaptersPage.TruncateIdempotent | app/chapters/page.tsx:57 | a shown argument is at most 63 characters, and shortening it again changes nothing |
| ChaptersPage.Preview | app/chapters/page.tsx:52-57 | at most the first two arguments are shown, in order, each shortened |
| ChaptersPage.FigureNote | app/chapters/page.tsx:65-67 | the figure count appears exactly when the chapter lists related items, and counts all of them |
| ChaptersPage.ChapterFiveNote | app/chapters/page.tsx:65-67 | chapter 5 announces 7 figures, counting its tables, while the figure table holds 5 of its figures |
| TerritoryTimeline.StartIndex | components/visualizations/TerritoryTimeline.tsx:42-43 | the start is the index of the initial year, or the first map when the year is not on the timeline |
| TerritoryTimeline.StartIndexRoundTrip | components/visualizations/TerritoryTimeline.tsx:42-43 | each year on the timeline starts at its own map |
| TerritoryTimeline.Initial | components/visualizations/TerritoryTimeline.tsx:40-47 | the chart mounts not yet animated, autoplaying, at the initial year's map |
| TerritoryTimeline.Step | components/visualizations/TerritoryTimeline.tsx:49-70 | the mount timer starts the animation; a tick advances one year only while animated, autoplaying and before the last year; a click selects its year and stops autoplay |
| TerritoryTimeline.RunStaysValid | components/visualizations/TerritoryTimeline.tsx:57 | the active year always names one of the four maps |
| TerritoryTimeline.AutoplayReachesEnd | components/visualizations/TerritoryTimeline.tsx:55-63 | once animated and left alone, k ticks advance to min(start + k, last) and stop there |
| TerritoryTimeline.NoAutoplayBeforeAnimation | components/visualizations/TerritoryTimeline.tsx:57 | before the animation starts, ticks do nothing |
| TerritoryTimeline.ClickStopsAutoplay | components/visualizations/TerritoryTimeline.tsx:67-70 | after a click, no number of ticks changes the state |
| TerritoryTimeline.ActiveIsPrefix | components/visualizations/TerritoryTimeline.tsx:108 | the highlighted maps are the prefix of the timeline up to the active year |
| TerritoryTimeline.DefaultScenario | components/visualizations/TerritoryTimeline.tsx:40-70 | mounted at 1770, three ticks show all four maps, and a click then selects its year with autoplay off |
| MineralOutputChart.BarColor | components/visualizations/MineralOutputChart.tsx:23-28 | at least 60 is red, [40, 60) orange, [30, 40) yellow, below 30 green |
| MineralOutputChart.BarColorMonotone | components/visualizations/MineralOutputChart.tsx:23-28 | a larger share never gets a lower band |
| MineralOutputChart.Hex | components/visualizations/MineralOutputChart.tsx:23-28 | each band is drawn in a seven-character `#rrggbb` colour |
| MineralOutputChart.HexInjective | components/visualizations/MineralOutputChart.tsx:23-28 | distinct bands get distinct colours |
| MineralOutputChart.ExactlyOneLabel | components/visualizations/MineralOutputChart.tsx:66-81 | once the bars have animated in, each bar carries exactly one of its two labels, the one inside the bar or the one beside it; before that, none |
| MineralOutputChart.ColorsCoolDownTheChart | components/visualizations/MineralOutputChart.tsx:6-28 | the data is listed from the largest share down, so the bands never rise down the chart |
| MineralOutputChart.AllLabelsInside | components/visualizations/MineralOutputChart.tsx:6-21 | every share in the data exceeds 15, so the beside-the-bar label never appears |

## Left out

- Toast ids are taken as inputs. The source builds them from the clock and a random number, which the model does not have.
- Real timers, DOM focus, `getBoundingClientRect`, `window.matchMedia`, portals and the scroll and resize listeners are left out. They become events and parameters.
- Animations, reduced-motion variants, CSS classes and styling are left out. They carry no behaviour the model states.
- Request handling is left out: JSON parsing, the `NextResponse` objects, logging and the 500 responses of both routes' catch blocks. Fields that are present but not strings are not modelled either.
- The client-side contact and newsletter forms are left out. They only send requests and show toasts.
- The sitemap's `lastModified` is left out. It is the clock at build time.
- The text fields of the tables are not carried: titles, summaries, captions, key-argument text, biographies and images. No logic reads them.
- The chapter list's word count is not modelled. It goes through `toLocaleString`, which depends on the locale.
- Chart geometry and the territory chart's area percentages are left out. They are floating-point presentation arithmetic.
- Tabs.NewIndex: with no tab registered, the arrow keys produce `NaN`, modelled as `None`. `tabIds[NaN]` is then `undefined`, modelled as no value.
- Api.IsSpace: works on Unicode code points, whereas JavaScript regular expressions match UTF-16 code units. Characters outside the Basic Multilingual Plane are never whitespace either way.
- Js.PadStart: only the one-character fill string the site uses is modelled.
- ChaptersPage.Truncate: counts Unicode code points, whereas `length` and `substring` count UTF-16 code units. An argument with a character outside the Basic Multilingual Plane would be cut earlier by the site, possibly inside a surrogate pair. The chapter table has no such character.
- Dialog.TrapTab: where the browser moves focus on a Tab the trap does not intercept is left out. The model states exactly which Tabs are intercepted and that the others leave the modelled focus untouched.
- Toast.ItemStepOf: the CSS exit animation after a dismissal is not modelled. A dismissed toast leaves the list when the provider removes it.
- The same `padStart(2, '0')` appears in app/book/page.tsx:130 and components/sections/ChapterGrid.tsx:39. ChaptersPage.Label covers all three.

## Findings

| source | as written | input that shows it | evidently intended | confidence | as-written member | corrected member |
|---|---|---|---|---|---|---|
| components/ui/Tooltip.tsx:190 | a second show overwrites the stored timer handle without clearing the timer it held, so hide can cancel only the latest one | show, show, hide, then the first timer fires: the tooltip appears although the mouse has left | hide cancels every pending show, so a hidden tooltip stays hidden | not executed | Tooltip.StaleTimerShowsAfterHide | Tooltip.FixedHideIsFinal |
| components/ui/Tooltip.tsx:157-162 | the horizontal clamp compares a page-coordinate left, which includes `scrollX`, with viewport bounds that do not, while the vertical clamp shifts its bounds by `scrollY` | page scrolled 500 px right, 1000 px viewport, 20 px trigger at viewport x 950, 100 px tooltip: the left 1410 is clamped to 892, i.e. viewport x 392, over 500 px from the trigger | clamp to [scrollX + 8, scrollX + viewportWidth - width - 8], as the vertical clamp does | not executed | Tooltip.HorizontalScrollMisplaces | Tooltip.ClampLeftScrolled |
