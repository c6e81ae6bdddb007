# paginator.js, modelled in Dafny

A model of the pagination engine of `paginator.js`, a Prototype plug-in.
The engine takes the children of one container element and moves them into
pages of `amount` children each, in their original order. It builds a
navigation bar with one numbered link per page and a previous and a next
control. It shows one page at a time. `destroy` puts every child back into
the container in its original order.

The document is replaced by plain values:

- The container is a `Document.Container` whose child list is a
  `seq<Node<T>>`. A `Node` is either one of the paginated elements (`Item`)
  or one of the two elements `build` inserts: the pages wrapper (`PagesWrap`)
  and the navigation container (`NavWrap`).
- A page (`Pages.Page`, the source's `PaginatorPage`) is an object holding
  the children of its container (`items`) and whether that container is
  hidden.
- The numbered links are an optional `seq<Link>`, each with its `active`
  mark. The controls are optional `Paddle`s, each with its `disabled` mark.
  A control that the settings turn off is `None`, which means absent, not
  hidden.
- The `onInvalidPage` callback is a ghost log, `invalidPages`, of the page
  numbers it was called with.
- `createNav` and `destroy` raise on an unbuilt paginator. That is the
  `Raised(NotBuilt)` outcome, and the state is left unchanged.

Two invariants organise the proofs. `Paginator.Valid()` holds after every
operation. It says that, once built, the pages partition the snapshot, the
container holds the wrapper followed by the navigation, and there is one
link per page. `Paginator.Synced()` says that the navigation agrees with
`curPage`: only page `curPage` is visible, only its link is active, and
each control is disabled exactly at its end of the range. Every successful
`GoToPage` establishes `Synced()`. Every click preserves it, and from a
synced state a click never reaches `onInvalidPage`.

Three behaviours of the code are modelled as they are, although they may
be surprising:

- An empty container still gets a navigation bar. It has no links and two
  enabled controls, and the initial `goToPage(0)` reports page 0 as invalid.
  While built with no pages, `curPage` stays 0.
- Calling `createNav` again on a built paginator appends a second navigation
  container. `destroy` removes only the newest one. `Destroy`'s contract
  states this: every navigation container but the last stays behind.
- `build` on an already built paginator snapshots the container as it is,
  which includes the old wrapper and navigation. Those then become items of
  the new pages. The model allows this, and `Valid()` still holds.

Two defects in `PaginatorPage` are corrected in the main model, on purpose.
The constructor is spelled `intialize`, so it never runs. `build` and
`goToPage` read a `node` field, while the page's element is meant to be
stored in `container`. The main model gives each page one container that is
hidden when the page is created and holds that page's slice. The code as
written is modelled separately in `AsWritten` (see Findings).

## Model

| member | source | states |
|---|---|---|
| Slicing.PageCountIsCeiling | paginator.js:74 | The loop bound `Math.ceil(L / amount)` (`PageCount`) is the least page count whose pages hold all L children: count·amount ≥ L, (count−1)·amount < L, and the count is 0 exactly when L is 0. |
| Slicing.JsSlice | paginator.js:79 | `slice(start, end)` with both bounds clamped to the length: the result has length max(0, min(end, L) − start) and its k-th element is `s[start + k]`. |
| Slicing.PageSliceAt | paginator.js:79 | `PageSlice`, page i's `slice(i·amount, (i+1)·amount)`: every page `build` creates is the non-empty run `children[i·amount .. min((i+1)·amount, L)]`. |
| Slicing.PageSizes | paginator.js:74-82 | Every page but the last holds exactly `amount` children. The last holds the remainder, between 1 and `amount`. |
| Slicing.FlattenPrefix | paginator.js:74-82 | The first k pages, laid end to end, are the first min(k·amount, L) children of the snapshot. |
| Slicing.Partition | paginator.js:61-82 | All pages, laid end to end, equal the snapshot: each child exactly once, in order. |
| Slicing.PageOfPosition | paginator.js:79 | A position lies within the bounds of page i exactly when i = position / amount, so no child is on two pages. |
| Slicing.PositionOnPage | paginator.js:74-82 | The child at position p is on page p / amount, at offset p mod amount. |
| Slicing.TenChildrenInThrees | paginator.js:74-82 | Ten children, three to a page, make four pages of sizes 3, 3, 3 and 1. |
| Pages.Page.constructor | paginator.js:224-227 | A new page's container is empty and hidden (the intended constructor). |
| Pages.Page.Add | paginator.js:230-232 | `add` appends the element to the page's container and leaves its visibility alone. |
| Pages.Page.Destroy | paginator.js:236-241 | `destroy` appends every child of the page, in order, to the destination and leaves the page empty. |
| Pages.AddThenDestroy | paginator.js:230-241 | Adding elements to a fresh page and then destroying it into a container appends exactly those elements, in the order they were added. |
| Pagination.Paginator.constructor | paginator.js:34-51 | The paginator keeps the container and settings (which must have `amount` ≥ 1). It is not built and has no navigation. The invariant holds. |
| Pagination.Paginator.Build | paginator.js:54-91 | `build` snapshots the container's children and makes ceil(L/amount) fresh pages, page i holding slice i. The container then holds exactly the wrapper and the navigation, and `curPage` is 0. With children, only page 0 is shown and nothing is reported. With none, there are no pages, 0 is reported once, and the controls stay enabled. The pages of an earlier build are outside the method's frame, so they keep their children and visibility. |
| Pagination.Paginator.MakePages | paginator.js:74-82 | The page loop creates distinct fresh pages, each hidden and holding its slice, and the children leave the container in order until only the wrapper is left. |
| Pagination.Paginator.FillPage | paginator.js:79-81 | Adding one slice's children moves them, in order, from the front of the container to the end of the page. |
| Pagination.Paginator.CreateNav | paginator.js:94-151 | On a built paginator, `createNav` appends a navigation container and makes one inactive link per page (numbers on) and two enabled controls (paddles on), and the invariant holds. On an unbuilt one it raises `NotBuilt` and changes nothing. |
| Pagination.Paginator.GoToPage | paginator.js:154-195 | Built and 0 ≤ n < pages: `curPage` becomes n, page n is the only visible page, link n the only active link, prev is disabled iff n = 0 and next iff n is the last page. If the paginator already showed n, nothing changes (idempotence). Otherwise n is appended to the `onInvalidPage` log once and `curPage`, visibility, links and controls are unchanged. |
| Pagination.Paginator.ShowOnly | paginator.js:159-161 | Shows page n and hides every other page, leaving the page contents alone. |
| Pagination.MarkActive | paginator.js:166-170 | After marking, link n is the only active link and the number of links is unchanged. |
| Pagination.Paginator.ClickLink | paginator.js:109-114 | Clicking an active link changes nothing. Clicking an inactive link goes to its page and leaves the paginator synced. The click never reaches `onInvalidPage`. |
| Pagination.Paginator.ClickPrev | paginator.js:126-130 | A disabled prev control does nothing. An enabled one goes to `curPage − 1`, or reports it when out of range and changes nothing else. From a synced state it stays synced and reports nothing. |
| Pagination.Paginator.ClickNext | paginator.js:134-138 | A disabled next control does nothing. An enabled one goes to `curPage + 1`, or reports it when out of range and changes nothing else. From a synced state it stays synced and reports nothing. |
| Pagination.Paginator.Destroy | paginator.js:198-220 | On a built paginator, `destroy` moves every page's children back to the container, page by page, and removes the wrapper and the current navigation. The container becomes any stale navigation containers followed by the snapshot, every page is empty, and `built` is false. On an unbuilt one it raises `NotBuilt` and changes nothing. |
| Pagination.BuildThenDestroy | paginator.js:54-91 | `build` followed by `destroy` leaves the container's child list exactly as it was, with the same children in the same order. |
| AsWritten.AddAllAppends | paginator.js:230-232 | `Add` throws when the page has no `container` and otherwise inserts the element. With a constructor that runs, adding elements one by one appends them to the page's container in order. |
| AsWritten.BuildRaises | paginator.js:223-227 | `BuildPages`/`BuildFrom`, the page loop stopping at the first exception: as written, `build` throws a TypeError on any container with a child, because the page constructor never ran. |
| AsWritten.BuildFromFills | paginator.js:74-82 | With the constructor running, the page loop `BuildFrom` succeeds and page i's container holds slice i. `node` is still unset. |
| AsWritten.GoToPageAlwaysReports | paginator.js:154-195 | `GoToPageReports` says when `goToPage(n)` ends in `onInvalidPage`: unbuilt, no `pages[n]`, or no `pages[n].node`. Even with the constructor fixed, `goToPage(n)` reports every n, including an existing page, because `pages[n].node` is undefined. |

## Left out

- The Prototype element layer (`Element`, `insert`, `show`/`hide`, class names, `siblings`, `childElements`, `remove`). It is abstracted as the child list of the container, the page `items`, the `hidden` flag and the link and control marks. Elements are values, so the model tracks positions rather than element identity.
- The wrapper's own child list (the page containers inside it) is not tracked; `pages` stands for it. So `Page.Destroy` does not model the page's container being detached from the wrapper, which `destroy` removes immediately afterwards anyway.
- Labels, `href`s, the `page-N` and `pagination-*` class names, and where the controls sit in the navigation bar (prev first, then the numbers, then next). These are presentation only.
- Event wiring through `.on('click', …)`. Each handler is a method that calls `GoToPage` under the same guard. A link's index, computed in the source by counting its previous siblings, is the method's parameter. The click methods model clicks on the current navigation of a built paginator, whose marks are the `numbers` and paddle fields.
- ClickLink, ClickPrev, ClickNext: clicks on stale navigation controls are not modelled. Such controls are a navigation container left behind by a repeated `createNav`, one removed by `destroy`, or one whose paginator was built again. Their handlers stay attached. They call `goToPage` with the link's own index, or with the current `curPage` ± 1 while reading their own control's `disabled` class. The paginator does not hold their marks, so the model has no state for them. `GoToPage` itself is modelled for every `n` and every state.
- The default `onInvalidPage`, which calls `alert`. It is replaced by the ghost log.
- `Class.create` and `Object.extend` option merging. Options are a `Settings` record, and `Defaults` holds the defaults. `amount` must be at least 1 when the paginator is constructed. The source does not check it: with `amount` 0 and a non-empty container its page loop never ends, and a negative `amount` yields zero pages and leaves the children in the container. Non-integer `amount`s and non-boolean `numbers`/`paddles` values are also not modelled. The source tests `numbers === true` in `createNav` but only its truthiness in `goToPage`, and with booleans these agree.
- The source's `catch (TypeError)` catches any exception. It is modelled as an explicit check that the paginator is built and that the page number is in range. These are the only ways the corrected code can throw there.
- The `self` return value of each method, which only allows chaining.
- The `|| 9e9` fallback for the slice end. It takes effect only when `(i + 1) * amount` is 0, which needs `amount` to be 0.

## Findings

| source | as written | input that shows it | evidently intended | confidence | as-written member | corrected member |
|---|---|---|---|---|---|---|
| paginator.js:224 | The page constructor is named `intialize`, which Prototype's `Class.create` never calls, so a page has no `container` and the first `add` throws. | `build()` on a container with one child and `amount` 3: it throws a TypeError from `add`. | `initialize`: each page owns a hidden container that receives its slice. | high; not executed | AsWritten.BuildRaises | Pagination.Paginator.MakePages |
| paginator.js:159 | `goToPage` (and `build` at line 76) read `pages[n].node`, which nothing sets, since the page stores its element in `container`. So `.show()` throws inside the `try`. | With the constructor fixed, `build()` on a container with one child: `goToPage(0)` reports page 0 to `onInvalidPage` although page 0 exists. | Read the page's `container`: show page n and update the navigation. | high; not executed | AsWritten.GoToPageAlwaysReports | Pagination.Paginator.GoToPage |
