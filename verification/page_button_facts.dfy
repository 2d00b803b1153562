/** Properties of clicking and of showing the buttons of a rendered control. */
module PageButtonFacts {
  import opened Wrappers
  import opened Pagination
  import opened PageButton
  import opened LayoutFacts

  /** The route a navigating click produces for page `p`. */
  function PageRoute(at: Route, p: int): Route {
    Route(at.pathname, map[PageKey := Number(p)])
  }

  /** No button of the control navigates to the page already shown, whatever
      the current page: the active button ignores clicks, the other numbered
      buttons carry other pages, and the arrows lead one page away. */
  lemma NoSelfNavigation(totalPages: int, currentPage: int, at: Route)
    ensures var s := Layout(totalPages, currentPage);
      forall i :: 0 <= i < |s| && Click(s[i], at).Some? ==>
        Click(s[i], at).value.query[PageKey] != Number(currentPage)
  {
  }

  /** Every page of 1..totalPages other than the current one is reached by
      clicking its numbered button. */
  lemma OtherPagesOneClickAway(totalPages: int, currentPage: int, at: Route, p: int)
    requires totalPages >= 2
    requires 1 <= p <= totalPages && p != currentPage
    ensures var s := Layout(totalPages, currentPage);
      exists i :: 0 <= i < |s| && Click(s[i], at) == Some(PageRoute(at, p))
  {
    LayoutShape(totalPages, currentPage);
    var s := Layout(totalPages, currentPage);
    var i := Lead(currentPage) + p - 1;
    assert s[i] == Num(p, false);
  }

  /** When the current page is in range its button is shown active and a
      click on it does nothing. */
  lemma CurrentPageInert(totalPages: int, currentPage: int, at: Route)
    requires 1 <= currentPage <= totalPages && totalPages >= 2
    ensures var s := Layout(totalPages, currentPage);
      exists i :: 0 <= i < |s| && s[i] == Num(currentPage, true) && Click(s[i], at) == None
  {
    LayoutShape(totalPages, currentPage);
    var s := Layout(totalPages, currentPage);
    assert s[Lead(currentPage) + currentPage - 1] == Num(currentPage, true);
  }

  /** A button is hidden at some breakpoint exactly when it is a non-active
      numbered button and the breakpoint is the smallest one. */
  lemma HiddenIffInactiveNumber(b: Button, bp: Breakpoint)
    ensures !VisibleAt(DisplayOf(b), bp) <==> bp == Base && b.Num? && !b.active
  {
  }

  lemma {:induction false} ShownAtAppend(a: seq<Button>, b: seq<Button>, bp: Breakpoint)
    ensures ShownAt(a + b, bp) == ShownAt(a, bp) + ShownAt(b, bp)
  {
    if a == [] {
      assert a + b == b;
    } else {
      var head := if VisibleAt(DisplayOf(a[0]), bp) then [a[0]] else [];
      assert (a + b)[0] == a[0];
      assert (a + b)[1..] == a[1..] + b;
      ShownAtAppend(a[1..], b, bp);
      calc {
        ShownAt(a + b, bp);
        head + ShownAt(a[1..] + b, bp);
        head + (ShownAt(a[1..], bp) + ShownAt(b, bp));
        (head + ShownAt(a[1..], bp)) + ShownAt(b, bp);
      }
    }
  }

  /** The buttons shown at a breakpoint are exactly the buttons of the
      control that are visible there. */
  lemma {:induction false} ShownAtMembers(s: seq<Button>, bp: Breakpoint)
    ensures forall b :: b in ShownAt(s, bp) <==> b in s && VisibleAt(DisplayOf(b), bp)
  {
    if s != [] {
      ShownAtMembers(s[1..], bp);
      assert s == [s[0]] + s[1..];
    }
  }

  /** From the `sm` breakpoint up every button is shown. */
  lemma {:induction false} AllShownFromSm(s: seq<Button>, bp: Breakpoint)
    requires bp != Base
    ensures ShownAt(s, bp) == s
  {
    if s != [] {
      AllShownFromSm(s[1..], bp);
      assert s == [s[0]] + s[1..];
    }
  }

  /** At the smallest breakpoint only the active numbered button survives. */
  lemma {:induction false} ShownNumberedAtBase(n: nat, currentPage: int)
    ensures ShownAt(Numbered(n, currentPage), Base) ==
      if 1 <= currentPage <= n then [Num(currentPage, true)] else []
  {
    if n > 0 {
      var prefix, last := Numbered(n - 1, currentPage), Num(n, n == currentPage);
      assert Numbered(n, currentPage) == prefix + [last];
      ShownNumberedAtBase(n - 1, currentPage);
      ShownAtAppend(prefix, [last], Base);
      assert ShownAt([last], Base) == if n == currentPage then [last] else [] by {
        assert [last][1..] == [];
      }
    }
  }

  /** On the smallest screens the control shows the arrows it has and, when
      the current page is in range, the active page button between them. */
  lemma SmallestViewport(totalPages: int, currentPage: int)
    requires totalPages >= 2
    ensures ShownAt(Layout(totalPages, currentPage), Base) ==
      BackArrow(currentPage)
      + (if 1 <= currentPage <= totalPages then [Num(currentPage, true)] else [])
      + ForwardArrow(totalPages, currentPage)
  {
    var back, nums, fwd := BackArrow(currentPage), Numbered(totalPages, currentPage), ForwardArrow(totalPages, currentPage);
    assert Layout(totalPages, currentPage) == back + nums + fwd;
    ShownAtAppend(back + nums, fwd, Base);
    ShownAtAppend(back, nums, Base);
    ShownNumberedAtBase(totalPages, currentPage);
    assert ShownAt(back, Base) == back && ShownAt(fwd, Base) == fwd;
  }
}
