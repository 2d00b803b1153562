/** The button list produced by the `Pagination` component of
    src/components/core/Pagination.tsx, with React and styling stripped away:
    a pure function of `totalPages` and `currentPage`. Page numbers are
    JavaScript numbers in the source; they are integers here. */
module Pagination {
  import opened Wrappers

  /** One rendered `PageButton`. The arrows carry the page they lead to; a
      numbered button carries its page and whether it is marked active. */
  datatype Button =
    | Back(page: int)
    | Num(page: int, active: bool)
    | Fwd(page: int)

  /** `PageButton` defaults `active` to false and the arrows never set it, so
      only a numbered button can be active. */
  predicate IsActive(b: Button) {
    b.Num? && b.active
  }

  /** The page assumed when the caller leaves `currentPage` out. */
  const DefaultCurrentPage: int := 1

  /** The numbered buttons for pages `1..n`, as the `Array.from(...).map(...)`
      call builds them: the button at index `idx` is page `idx + 1` and is
      active exactly when that page is the current one. */
  function Numbered(n: nat, currentPage: int): (r: seq<Button>)
    ensures |r| == n
    ensures forall i :: 0 <= i < n ==> r[i] == Num(i + 1, i + 1 == currentPage)
  {
    if n == 0 then [] else Numbered(n - 1, currentPage) + [Num(n, n == currentPage)]
  }

  /** The back arrow, rendered whenever `currentPage !== 1`. */
  function BackArrow(currentPage: int): seq<Button> {
    if currentPage != 1 then [Back(currentPage - 1)] else []
  }

  /** The forward arrow, rendered whenever `currentPage !== totalPages`. */
  function ForwardArrow(totalPages: int, currentPage: int): seq<Button> {
    if currentPage != totalPages then [Fwd(currentPage + 1)] else []
  }

  /** The buttons in rendering order; nothing at all below two pages. */
  function Layout(totalPages: int, currentPage: int): (r: seq<Button>)
    ensures r == [] <==> totalPages < 2
    ensures totalPages >= 2 ==>
      |r| == totalPages + (if currentPage != 1 then 1 else 0) + (if currentPage != totalPages then 1 else 0)
  {
    if totalPages < 2 then []
    else BackArrow(currentPage) + Numbered(totalPages, currentPage) + ForwardArrow(totalPages, currentPage)
  }

  /** The component itself: `currentPage` is optional and defaults to page 1,
      in which case there is no back arrow and page 1 is the active button. */
  function Render(totalPages: int, currentPage: Option<int>): (r: seq<Button>)
    ensures currentPage.Some? ==> r == Layout(totalPages, currentPage.value)
    ensures currentPage.None? ==> r == Layout(totalPages, DefaultCurrentPage)
    ensures currentPage.None? && |r| > 0 ==> r[0] == Num(1, true)
    ensures currentPage.None? ==> forall i :: 0 <= i < |r| ==> !r[i].Back?
  {
    Layout(totalPages, currentPage.GetOr(DefaultCurrentPage))
  }
}
