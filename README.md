# Scroll-synchronised navigation of the SmartWare landing page

The repository is a single-page marketing site. Its only behavioural logic is
the navigation rule in `app/page.tsx`:

- the page keeps one piece of state, the active section, which starts as
  `"hero"`;
- the ref callbacks of the five sections store their elements at indices 0 to
  4 of a section array (hero, about, services, products, contact);
- on every scroll event the handler computes a threshold one third of the way
  down the viewport (`scrollY + innerHeight / 3`) and walks the array in index
  order, overwriting the active section with the id of every section whose
  half-open span `[top, top + height)` contains the threshold, so the last
  match wins and a miss leaves the state as it was;
- a click on a navigation item scrolls to 80 pixels above the element with
  that id, and does nothing when there is no such element;
- each of the four navigation items is highlighted exactly when it equals the
  active section.

Module `ScrollSync` (`scroll_sync.dfy`) holds the geometry, the threshold, the
specification of the active-section rule (`LastMatch`, `NextActive`), the
handler as a method with a loop proved equal to it, the scroll target and the
highlight, with the lemmas about them. Module `HomePage` (`home_page.dfy`)
holds the component's state as a class `Home`: the active section and the ref
array, the ref callback and the scroll event.

Numbers: `offsetTop`, `offsetHeight` and `innerHeight` are whole pixels and
are modelled as `int`; `scrollY` may be fractional and the threshold is a
third of a pixel count, so both are Dafny `real` numbers. Exact real
arithmetic is an idealisation of the browser's floating point.

The scroll target looks the id up in the whole document (the document's
element-by-id lookup, which returns the first element with that id), not in
the section array; the model takes the document's elements in document order
as a parameter `doc`. The lookup of the empty id finds nothing. The click
handler itself sets no state: it only requests a scroll position. The window
scroll that follows fires scroll events, and those events, handled like any
other, usually change the active section.

## Model

| member | source | states |
|---|---|---|
| `ScrollSync.Threshold` | app/page.tsx:17 | the threshold lies one third down the viewport: its distance from the viewport top is half its distance from the bottom, and for a non-empty viewport it is strictly above the midpoint |
| `ScrollSync.Contains` | app/page.tsx:20 | a section contains a position exactly when the position's offset into the section is at least zero and less than its height (half-open); a section that contains anything has positive height |
| `ScrollSync.LastMatch` | app/page.tsx:19-23 | the result is the index of the last section in array order whose half-open span contains the threshold, and None exactly when no section contains it |
| `ScrollSync.NextActive` | app/page.tsx:19-23 | with no containing section the active section is unchanged; otherwise it is the id of the last containing section; either way it is the old value or the id of a containing section |
| `ScrollSync.HandleScroll` | app/page.tsx:16-24 | the handler's loop, which overwrites the active section on every match, ends with exactly the value `NextActive` gives for the threshold `scrollY + innerHeight / 3` |
| `ScrollSync.SharedBoundaryGoesToLater` | app/page.tsx:20 | at the boundary where one section's bottom meets a later section's top, the earlier section does not contain the threshold, the later one does, the new value is the id of the later section or of one after it, and (with unique ids) the earlier one never becomes active |
| `ScrollSync.StackedTopEdgeActivates` | app/page.tsx:19-23 | in a layout of sections stacked without gaps, each of positive height, a threshold on a section's top edge makes that section active, whatever the previous value |
| `ScrollSync.EmptySectionNeverMatches` | app/page.tsx:20 | a section of zero height never contains the threshold: a changed active section is always the id of a section of positive height |
| `ScrollSync.ActiveAfter` | app/page.tsx:16-26 | after any sequence of scroll events the active section is the first value or the id of a section that contained the threshold of one of those events |
| `ScrollSync.ActiveStaysASectionId` | app/page.tsx:19-21 | if the active section is a section id, it remains one after any sequence of scroll events |
| `ScrollSync.ActiveIsAlwaysAPageSection` | app/page.tsx:12-24 | starting from "hero" over the page's five sections, the active section is one of hero, about, services, products, contact after any sequence of scroll events |
| `ScrollSync.ServicesExample` | app/page.tsx:16-24 | five 800-pixel sections from offset 0, scrollY 1700 and a 900-pixel viewport: threshold 2000 and active section "services"; a threshold past the last bottom keeps the old value |
| `ScrollSync.FindById` | app/page.tsx:31 | the lookup returns the first element carrying the id, and None exactly when the id is empty or no element carries it |
| `ScrollSync.ScrollTarget` | app/page.tsx:30-38 | the requested target is the top of the first element with the id minus 80, and there is no request (None) exactly when the id is empty or unknown |
| `ScrollSync.ScrollTargetOfUniqueId` | app/page.tsx:30-38 | with unique ids, a click on a section's non-empty id requests that section's top minus 80 |
| `ScrollSync.Highlights` | app/page.tsx:47-53 | one flag per navigation item, set exactly when that item equals the active section |
| `ScrollSync.HighlightIsExclusive` | app/page.tsx:47-53 | an item is highlighted exactly when it equals the active section; at most one item is highlighted; one is exactly when the active section is a navigation item; none is while it is "hero" |
| `HomePage.Assign` | app/page.tsx:65 | a ref callback with an element stores it at its index and changes no other index, padding with holes past the end; with no element it changes nothing |
| `HomePage.Mounted` | app/page.tsx:19 | the walk visits at most as many elements as the array has slots, each of them stored in the array |
| `HomePage.MountedConcat` | app/page.tsx:19 | the walk over two arrays joined is the walk over the first followed by the walk over the second |
| `HomePage.MountedUnit` | app/page.tsx:19 | the walk over an empty array is empty, over a single hole is empty, over a single element is that element; with `MountedConcat` the walk is every present element in index order |
| `HomePage.MountedSkipsHoles` | app/page.tsx:19 | a run of holes anywhere in the array leaves the walk unchanged |
| `HomePage.MountAll` | app/page.tsx:63-301 | running the ref callbacks in document order, each at its own index, leaves an array with no holes holding every section at its own index |
| `HomePage.MountInOrder` | app/page.tsx:63-301 | mounting the sections in document order at their own indices leaves no holes, and the handler walks exactly those sections in that order |
| `HomePage.PageWalkOrder` | app/page.tsx:63-301 | on the page the handler walks hero, about, services, products, contact, in that order; when the sections are stacked, a threshold on a section's top edge (its boundary with the one above) makes that section active |
| `HomePage.Home.constructor` | app/page.tsx:12-13 | the initial state: active section "hero" and an empty section array |
| `HomePage.Home.SetRef` | app/page.tsx:65 | the ref callback: the new section array is the old one with the element stored at its index |
| `HomePage.Home.OnScroll` | app/page.tsx:16-24 | one scroll event sets the active section to `NextActive` of the mounted sections and the old value; the new value is the old one or a mounted section's id |

## Left out

- Markup, styling, images, icons and static copy of the page: presentation only.
- The contact form: inert markup with no submit handler.
- Registering and removing the scroll listener in the component's effect: the handler is modelled as a method called once per scroll event.
- Measuring the layout (`offsetTop`, `offsetHeight`, the document lookup) and the smooth-scroll animation: the geometry and the document's elements are parameters and the scroll target is returned as a value; re-layout after mount is not modelled.
- ScrollTarget: gives the requested scroll position; the browser clamps the actual position to the scrollable range (a target of -80 for a section at the top of the page scrolls to 0), which is not modelled.
- The scroll events that a programmatic scroll fires: they are handled like any other scroll event, by `OnScroll`, and are not connected to the click in the model.
- Floating-point rounding of `innerHeight / 3` and of fractional scroll positions: exact real arithmetic is used instead.
- The footer's current year and its anchor links: environment-dependent or purely navigational markup.
- React's scheduling of state updates: each `setActiveSection` call in the handler is modelled as an immediate overwrite, which gives the same final value.
