/** The behaviour of one `PageButton` of src/components/core/Pagination.tsx:
    what a click does and when the button is shown. The router call becomes a
    returned route instead of a side effect. */
module PageButton {
  import opened Wrappers
  import opened Pagination

  /** A value of the router's query object: the router hands in strings or
      lists of strings, and the click handler writes a number. */
  datatype QueryValue =
    | Text(text: string)
    | Texts(texts: seq<string>)
    | Number(n: int)

  /** A location of the client-side router: a pathname and its query. */
  datatype Route = Route(pathname: string, query: map<string, QueryValue>)

  /** The query key the click handler writes. */
  const PageKey: string := "page"

  /** The location a click on `b` leads to when the router currently shows
      `at`, or None when the click does nothing. An active button ignores
      clicks; any other button keeps the pathname and replaces the whole
      query by the button's page. */
  function Click(b: Button, at: Route): (r: Option<Route>)
    ensures r.None? <==> IsActive(b)
    ensures r.Some? ==> r.value.pathname == at.pathname
    ensures r.Some? ==> forall k :: k in r.value.query <==> k == PageKey
    ensures r.Some? ==> r.value.query[PageKey] == Number(b.page)
  {
    if IsActive(b) then None
    else Some(Route(at.pathname, map[PageKey := Number(b.page)]))
  }

  /** Chakra's breakpoints, smallest first. */
  datatype Breakpoint = Base | Sm | Md | Lg | Xl | Xxl

  /** The `display` prop a button gets: either no override, or the responsive
      value that hides it at the base breakpoint and shows it from `sm` up. */
  datatype Display = Unset | HiddenBelowSm

  /** A button is collapsed on small screens when it is not active and its
      content is a page number, which holds only for numbered buttons. */
  function DisplayOf(b: Button): (d: Display)
    ensures d == HiddenBelowSm <==> b.Num? && !b.active
  {
    if !IsActive(b) && b.Num? then HiddenBelowSm else Unset
  }

  /** Whether a button with display rule `d` is visible at breakpoint `bp`;
      Chakra's responsive values apply from their breakpoint upward. */
  predicate VisibleAt(d: Display, bp: Breakpoint) {
    match d
    case Unset => true
    case HiddenBelowSm => bp != Base
  }

  /** The buttons of `s` that are visible at breakpoint `bp`, in order. */
  function ShownAt(s: seq<Button>, bp: Breakpoint): (r: seq<Button>)
    ensures |r| <= |s|
    ensures forall i :: 0 <= i < |r| ==> VisibleAt(DisplayOf(r[i]), bp)
  {
    if s == [] then []
    else (if VisibleAt(DisplayOf(s[0]), bp) then [s[0]] else []) + ShownAt(s[1..], bp)
  }
}
