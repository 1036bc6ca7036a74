/**
 * The navigation bar's scroll handler in `initNavigation`: the bar gets a
 * solid background once the page is scrolled past 50 pixels, slides out of
 * view while the reader scrolls down past 100 pixels, and remembers the last
 * position it saw to tell the direction.
 */
module NavScroll {

  /** Scroll offset past which the bar gets its solid, blurred background. */
  const SolidAfter: real := 50.0

  /** Scroll offset past which scrolling down hides the bar. */
  const HideAfter: real := 100.0

  /**
   * What the handler controls:
   *  - solid: the bar has its dark background rather than `bg-transparent`;
   *  - hidden: the bar is translated up out of view;
   *  - lastScrollTop: the offset seen by the previous scroll event.
   */
  datatype NavBar = NavBar(solid: bool, hidden: bool, lastScrollTop: real)

  /** The handler's variable before any scroll event; the looks come from the markup. */
  function Initial(solid: bool, hidden: bool): NavBar {
    NavBar(solid, hidden, 0.0)
  }

  /**
   * The scroll offset as read by the handler: `pageYOffset`, falling back to
   * the document element's `scrollTop` when it is 0 (the `||` of JavaScript).
   */
  function ScrollTop(pageYOffset: real, documentScrollTop: real): (r: real)
    ensures r == pageYOffset || r == documentScrollTop
    ensures pageYOffset != 0.0 ==> r == pageYOffset
    ensures pageYOffset == 0.0 ==> r == documentScrollTop
  {
    if pageYOffset != 0.0 then pageYOffset else documentScrollTop
  }

  /** One scroll event at offset scrollTop. */
  function OnScroll(bar: NavBar, scrollTop: real): (r: NavBar)
    ensures r.solid <==> scrollTop > SolidAfter
    ensures r.hidden <==> scrollTop > bar.lastScrollTop && scrollTop > HideAfter
    ensures r.lastScrollTop == scrollTop
    ensures r.hidden ==> r.solid
  {
    NavBar(scrollTop > SolidAfter, scrollTop > bar.lastScrollTop && scrollTop > HideAfter, scrollTop)
  }

  /** A sequence of scroll events, in order. */
  function Scrolls(bar: NavBar, offsets: seq<real>): NavBar
    decreases |offsets|
  {
    if |offsets| == 0 then bar else Scrolls(OnScroll(bar, offsets[0]), offsets[1..])
  }

  /**
   * After any nonempty run of scroll events the bar depends on the last
   * movement alone: it is solid iff the last offset is past 50, hidden iff
   * that movement went down and ended past 100, and it remembers the last
   * offset. Nothing earlier in the history matters.
   */
  lemma {:induction false} ScrollsLastMovement(bar: NavBar, offsets: seq<real>)
    requires |offsets| > 0
    ensures var last := offsets[|offsets| - 1];
      var before := if |offsets| == 1 then bar.lastScrollTop else offsets[|offsets| - 2];
      && Scrolls(bar, offsets).solid == (last > SolidAfter)
      && Scrolls(bar, offsets).hidden == (last > before && last > HideAfter)
      && Scrolls(bar, offsets).lastScrollTop == last
    decreases |offsets|
  {
    if |offsets| > 1 {
      ScrollsLastMovement(OnScroll(bar, offsets[0]), offsets[1..]);
    }
  }

  /**
   * The first scroll event after page load, read through `ScrollTop`: the
   * remembered offset starts at 0, so the bar hides iff the page is past 100
   * (a page at 0 by `pageYOffset` is read from the document element instead),
   * whatever the markup's initial looks.
   */
  lemma FirstScroll(solid: bool, hidden: bool, pageYOffset: real, documentScrollTop: real)
    ensures var top := ScrollTop(pageYOffset, documentScrollTop);
      var bar := OnScroll(Initial(solid, hidden), top);
      && (bar.hidden <==> top > HideAfter)
      && (bar.solid <==> top > SolidAfter)
      && (pageYOffset == 0.0 ==> bar.lastScrollTop == documentScrollTop)
      && (pageYOffset != 0.0 ==> bar.lastScrollTop == pageYOffset)
  {
  }

  /** Scrolling up, or not moving, always brings the bar back into view. */
  lemma NotDownShows(bar: NavBar, offsets: seq<real>, scrollTop: real)
    requires scrollTop <= Scrolls(bar, offsets).lastScrollTop
    ensures !Scrolls(bar, offsets + [scrollTop]).hidden
    ensures Scrolls(bar, offsets + [scrollTop]).lastScrollTop == scrollTop
  {
    ScrollsAppend(bar, offsets, [scrollTop]);
    assert [scrollTop][1..] == [];
  }

  lemma {:induction false} ScrollsAppend(bar: NavBar, a: seq<real>, b: seq<real>)
    ensures Scrolls(bar, a + b) == Scrolls(Scrolls(bar, a), b)
    decreases |a|
  {
    if |a| > 0 {
      assert (a + b)[0] == a[0];
      assert (a + b)[1..] == a[1..] + b;
      ScrollsAppend(OnScroll(bar, a[0]), a[1..], b);
    } else {
      assert a + b == b;
    }
  }
}
