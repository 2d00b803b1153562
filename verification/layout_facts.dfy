/** Properties of the button list built by `Pagination.Layout`: which buttons
    appear, where, in what order, and which one is active. */
module LayoutFacts {
  import opened Pagination

  /** The pages of the numbered buttons of `s`, in order of appearance. */
  function Pages(s: seq<Button>): seq<int> {
    if s == [] then []
    else (if s[0].Num? then [s[0].page] else []) + Pages(s[1..])
  }

  /** How many buttons of `s` are marked active. */
  function CountActive(s: seq<Button>): nat {
    if s == [] then 0
    else (if IsActive(s[0]) then 1 else 0) + CountActive(s[1..])
  }

  /** The page numbers `1, 2, ..., n`. */
  function Ascending(n: nat): seq<int> {
    seq(n, i => i + 1)
  }

  /** The number of buttons in front of page 1: one when the back arrow shows. */
  function Lead(currentPage: int): nat {
    |BackArrow(currentPage)|
  }

  lemma {:induction false} PagesAppend(a: seq<Button>, b: seq<Button>)
    ensures Pages(a + b) == Pages(a) + Pages(b)
  {
    if a == [] {
      assert a + b == b;
    } else {
      assert (a + b)[0] == a[0];
      assert (a + b)[1..] == a[1..] + b;
      PagesAppend(a[1..], b);
    }
  }

  lemma {:induction false} CountActiveAppend(a: seq<Button>, b: seq<Button>)
    ensures CountActive(a + b) == CountActive(a) + CountActive(b)
  {
    if a == [] {
      assert a + b == b;
    } else {
      assert (a + b)[0] == a[0];
      assert (a + b)[1..] == a[1..] + b;
      CountActiveAppend(a[1..], b);
    }
  }

  /** The numbered buttons carry the pages 1 to n in ascending order. */
  lemma {:induction false} PagesOfNumbered(n: nat, currentPage: int)
    ensures Pages(Numbered(n, currentPage)) == Ascending(n)
  {
    if n > 0 {
      PagesOfNumbered(n - 1, currentPage);
      PagesAppend(Numbered(n - 1, currentPage), [Num(n, n == currentPage)]);
    }
  }

  /** Among the numbered buttons, one is active when the current page is one
      of them and none otherwise. */
  lemma {:induction false} ActiveInNumbered(n: nat, currentPage: int)
    ensures CountActive(Numbered(n, currentPage)) == if 1 <= currentPage <= n then 1 else 0
  {
    if n > 0 {
      ActiveInNumbered(n - 1, currentPage);
      CountActiveAppend(Numbered(n - 1, currentPage), [Num(n, n == currentPage)]);
    }
  }

  /** Where each kind of button sits: the back arrow first, then page k at
      position `Lead + k - 1`, then the forward arrow last. */
  lemma LayoutShape(totalPages: int, currentPage: int)
    requires totalPages >= 2
    ensures var s := Layout(totalPages, currentPage);
      && |s| == Lead(currentPage) + totalPages + (if currentPage != totalPages then 1 else 0)
      && (currentPage != 1 ==> s[0] == Back(currentPage - 1))
      && (forall i :: Lead(currentPage) <= i < Lead(currentPage) + totalPages ==>
            s[i] == Num(i - Lead(currentPage) + 1, i - Lead(currentPage) + 1 == currentPage))
      && (currentPage != totalPages ==> s[|s| - 1] == Fwd(currentPage + 1))
  {
  }

  /** A back arrow is present exactly when the current page is not 1; it is
      the first button and leads to the page before the current one. */
  lemma BackArrowFirst(totalPages: int, currentPage: int)
    requires totalPages >= 2
    ensures var s := Layout(totalPages, currentPage);
      && (forall i :: 0 <= i < |s| ==> (s[i].Back? <==> i == 0 && currentPage != 1))
      && (currentPage != 1 ==> s[0] == Back(currentPage - 1))
  {
  }

  /** A forward arrow is present exactly when the current page is not the
      last; it is the last button and leads to the page after the current one. */
  lemma ForwardArrowLast(totalPages: int, currentPage: int)
    requires totalPages >= 2
    ensures var s := Layout(totalPages, currentPage);
      && (forall i :: 0 <= i < |s| ==> (s[i].Fwd? <==> i == |s| - 1 && currentPage != totalPages))
      && (currentPage != totalPages ==> s[|s| - 1] == Fwd(currentPage + 1))
  {
  }

  /** The numbered buttons fill exactly the positions between the arrows, and
      their pages, read in order, are 1 to totalPages, each once. */
  lemma NumberedBetweenArrows(totalPages: int, currentPage: int)
    requires totalPages >= 2
    ensures var s := Layout(totalPages, currentPage);
      && (forall i :: 0 <= i < |s| ==>
            (s[i].Num? <==> Lead(currentPage) <= i < Lead(currentPage) + totalPages))
      && Pages(s) == Ascending(totalPages)
  {
    LayoutShape(totalPages, currentPage);
    var s := Layout(totalPages, currentPage);
    var back, nums, fwd := BackArrow(currentPage), Numbered(totalPages, currentPage), ForwardArrow(totalPages, currentPage);
    assert s == back + nums + fwd;
    forall i | 0 <= i < |s|
      ensures s[i].Num? <==> Lead(currentPage) <= i < Lead(currentPage) + totalPages
    {
      if i < |back| {
        assert s[i] == back[i];
      } else if i < |back| + |nums| {
        assert s[i] == nums[i - |back|];
      } else {
        assert s[i] == fwd[i - |back| - |nums|];
      }
    }
    PagesAppend(back + nums, fwd);
    PagesAppend(back, nums);
    PagesOfNumbered(totalPages, currentPage);
    assert Pages(back) == [] && Pages(fwd) == [];
  }

  /** The numbered buttons appear in strictly ascending page order. */
  lemma NumberedAscending(totalPages: int, currentPage: int)
    requires totalPages >= 2
    ensures var s := Layout(totalPages, currentPage);
      forall i, j :: 0 <= i < j < |s| && s[i].Num? && s[j].Num? ==> s[i].page < s[j].page
  {
  }

  /** A numbered button is active exactly when its page is the current page. */
  lemma ActiveIffCurrent(totalPages: int, currentPage: int)
    requires totalPages >= 2
    ensures var s := Layout(totalPages, currentPage);
      forall i :: 0 <= i < |s| && s[i].Num? ==> (s[i].active <==> s[i].page == currentPage)
  {
  }

  /** Exactly one active button when the current page is within 1..totalPages,
      and none when it is out of range. */
  lemma ActiveCount(totalPages: int, currentPage: int)
    requires totalPages >= 2
    ensures CountActive(Layout(totalPages, currentPage)) ==
      if 1 <= currentPage <= totalPages then 1 else 0
  {
    var back, nums, fwd := BackArrow(currentPage), Numbered(totalPages, currentPage), ForwardArrow(totalPages, currentPage);
    assert Layout(totalPages, currentPage) == back + nums + fwd;
    CountActiveAppend(back + nums, fwd);
    CountActiveAppend(back, nums);
    ActiveInNumbered(totalPages, currentPage);
    assert CountActive(back) == 0 && CountActive(fwd) == 0;
  }

  /** No two positions are both active. */
  lemma AtMostOneActive(totalPages: int, currentPage: int)
    ensures var s := Layout(totalPages, currentPage);
      forall i, j :: 0 <= i < |s| && 0 <= j < |s| && IsActive(s[i]) && IsActive(s[j]) ==> i == j
  {
  }

  /** Every button leads to a page within 1..totalPages exactly when the
      current page lies in that range: an out-of-range current page is not
      clamped, so at least one of the arrows then points outside it. */
  lemma TargetsInRangeIff(totalPages: int, currentPage: int)
    requires totalPages >= 2
    ensures var s := Layout(totalPages, currentPage);
      (forall i :: 0 <= i < |s| ==> 1 <= s[i].page <= totalPages) <==>
      1 <= currentPage <= totalPages
  {
    LayoutShape(totalPages, currentPage);
    NumberedBetweenArrows(totalPages, currentPage);
    BackArrowFirst(totalPages, currentPage);
    ForwardArrowLast(totalPages, currentPage);
    var s := Layout(totalPages, currentPage);
    if currentPage < 1 {
      assert s[0] == Back(currentPage - 1);
    } else if currentPage > totalPages {
      assert s[|s| - 1] == Fwd(currentPage + 1);
    }
  }
}
