# Pagination control — Dafny model

This project models the pagination control of a snippet-sharing web
application (`src/components/core/Pagination.tsx`). Without React and Chakra
styling, the `Pagination` component is a pure function of `totalPages` and
an optional `currentPage`. It returns an ordered list of buttons:

- an optional back arrow,
- one numbered button per page `1..totalPages`, with the current one marked
  active,
- an optional forward arrow.

Each `PageButton` adds a click rule and a responsive display rule.

Modules:

- `Wrappers` — the `Option` type.
- `Pagination` — the `Button` datatype (`Back(page) | Num(page, active) | Fwd(page)`),
  the numbered buttons, `Layout(totalPages, currentPage)` and `Render`, which
  applies the default `currentPage` of 1.
- `PageButton` — `Click(button, route)`. It returns the route the router is
  pushed to, or `None` when the click does nothing. The module also holds the
  small-viewport display rule and the list of buttons shown at a breakpoint.
- `LayoutFacts` — lemmas about where the buttons are, their order, their count
  and the active button.
- `PageButtonFacts` — lemmas about click targets and visibility.

The model follows the code as written. The arrows are guarded by
`currentPage !== 1` and `currentPage !== totalPages`, not by `<` or `>`, and
nothing in the component forces `currentPage` into `1..totalPages`. Out of
range, the current page is not clamped: at least one arrow points outside
`1..totalPages`, and no numbered button is active.
`LayoutFacts.ActiveCount` and `LayoutFacts.TargetsInRangeIff` state both the
in-range and the out-of-range case.

## Model

| member | source | states |
|---|---|---|
| Pagination.Numbered | src/components/core/Pagination.tsx:88-92 | there is one numbered button per page; the button at index `i` is page `i + 1`, active exactly when that page is the current one |
| Pagination.Layout | src/components/core/Pagination.tsx:77-98 | the control renders nothing iff `totalPages < 2`; otherwise it has `totalPages` buttons plus one for each arrow present (JavaScript's array-length limit aside, see Left out) |
| Pagination.Render | src/components/core/Pagination.tsx:73-77 | without a `currentPage` the control is exactly the layout for page 1: no back arrow, and the first button is page 1, active |
| LayoutFacts.LayoutShape | src/components/core/Pagination.tsx:82-98 | back arrow (to `currentPage - 1`) first, then page `k` at position `Lead + k - 1`, then forward arrow (to `currentPage + 1`) last |
| LayoutFacts.BackArrowFirst | src/components/core/Pagination.tsx:82-86 | a back arrow appears iff `currentPage != 1`, only at position 0, and targets `currentPage - 1` |
| LayoutFacts.ForwardArrowLast | src/components/core/Pagination.tsx:94-98 | a forward arrow appears iff `currentPage != totalPages`, only at the last position, and targets `currentPage + 1` |
| LayoutFacts.PagesOfNumbered | src/components/core/Pagination.tsx:88-92 | the numbered buttons carry exactly the pages `1..n` in ascending order |
| LayoutFacts.NumberedBetweenArrows | src/components/core/Pagination.tsx:88-92 | the numbered buttons occupy exactly the positions between the arrows, and their pages read `1..totalPages` once each |
| LayoutFacts.NumberedAscending | src/components/core/Pagination.tsx:88-92 | numbered buttons appear in strictly ascending page order |
| LayoutFacts.ActiveIffCurrent | src/components/core/Pagination.tsx:89 | a numbered button is active iff its page equals `currentPage` |
| LayoutFacts.ActiveInNumbered | src/components/core/Pagination.tsx:89 | among `n` numbered buttons, one is active if `1 <= currentPage <= n`, else none |
| LayoutFacts.ActiveCount | src/components/core/Pagination.tsx:88-92 | the rendered control has exactly one active button when `currentPage` is in range and none otherwise |
| LayoutFacts.AtMostOneActive | src/components/core/Pagination.tsx:89 | for any inputs, no two buttons are both active |
| LayoutFacts.TargetsInRangeIff | src/components/core/Pagination.tsx:82-98 | every button targets a page in `1..totalPages` iff `currentPage` is in that range (no clamping) |
| PageButton.Click | src/components/core/Pagination.tsx:33-40 | clicking does nothing iff the button is active; otherwise it navigates to the same pathname with a query whose only key is `page`, set to the button's page |
| PageButton.DisplayOf | src/components/core/Pagination.tsx:56-60 | a button gets the "hidden below `sm`" display rule iff it is a non-active numbered button |
| PageButton.ShownAt | src/components/core/Pagination.tsx:56-60 | at a breakpoint, no more buttons are shown than the control has, and each shown button is visible there |
| PageButtonFacts.NoSelfNavigation | src/components/core/Pagination.tsx:33-40 | for any inputs, no click on a rendered button navigates to the current page |
| PageButtonFacts.OtherPagesOneClickAway | src/components/core/Pagination.tsx:88-92 | every page of `1..totalPages` other than the current one is reached by one click, with the pathname kept and only `page` in the query |
| PageButtonFacts.CurrentPageInert | src/components/core/Pagination.tsx:34 | with an in-range current page, its button is rendered active and clicking it yields no navigation |
| PageButtonFacts.HiddenIffInactiveNumber | src/components/core/Pagination.tsx:56-60 | a button is hidden at a breakpoint iff that breakpoint is the smallest and the button is a non-active numbered one |
| PageButtonFacts.ShownAtMembers | src/components/core/Pagination.tsx:56-60 | a button is shown at a breakpoint iff it belongs to the control and is visible there |
| PageButtonFacts.AllShownFromSm | src/components/core/Pagination.tsx:58 | from the `sm` breakpoint up, every button is shown |
| PageButtonFacts.ShownNumberedAtBase | src/components/core/Pagination.tsx:56-60 | at the smallest breakpoint only the active numbered button remains, if there is one |
| PageButtonFacts.SmallestViewport | src/components/core/Pagination.tsx:56-60 | at the smallest breakpoint the control shows exactly its arrows and, when in range, the active page between them |

## Left out

- Styling: colour-mode tokens, hover and active colours, spacing, cursor and opacity (src/components/core/Pagination.tsx:28-31, 43-55, 61). These are presentation only.
- The `disabled` prop. `Pagination` never sets it, so every button it renders is enabled.
- The router side effect. A click returns the route that would be pushed; the router and the page refetch it triggers are not modelled.
- Pagination.Layout: does not model JavaScript's array-length limit. `Array.from({ length: totalPages })` throws a RangeError once `totalPages` exceeds 2^32 - 1; the model ignores that limit and returns a list of `totalPages` numbered buttons for every `totalPages >= 2`.
- JavaScript number semantics. `totalPages` and `currentPage` are integers here. NaN, fractions and precision loss beyond 2^53 are not modelled.
- React keys and the `Center`/`HStack` containers. They affect rendering, not which buttons appear or in what order.
- Breakpoints: the model uses Chakra's default breakpoint names. Their pixel widths are theme data, not component logic.
- src/components/dashboard/CollectionCard.tsx is not part of this model. It is a network PATCH request with toasts and modal state.
- src/pages/explore.tsx is not part of this model. It covers cache headers, a session lookup and an external data fetch. Its page parse relies on JavaScript's numeric coercion.
- src/utils/next.ts is not part of this model. Its functions are thin wrappers over `decodeURI`, `toString` and a JSON round-trip. Note that `getQueryString` joins a list value with commas; it does not take the first element.
- src/pages/_app.tsx is not part of this model. It only wires up providers.
