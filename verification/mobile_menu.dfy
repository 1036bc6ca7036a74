/**
 * The mobile menu of `initNavigation`: a button toggles the menu, a click
 * anywhere outside menu and button closes it, and a click on a navigation
 * link scrolls to its section.
 */
module MobileMenu {

  import opened Wrappers

  /** Space left above a section when a navigation link scrolls to it. */
  const HeaderOffset: int := 80

  /**
   * The menu as the handlers leave it:
   *  - hidden: the menu carries the `hidden` class;
   *  - expanded: the button's `aria-expanded` attribute;
   *  - crossed: the hamburger's three bars are drawn as a cross.
   */
  datatype Menu = Menu(hidden: bool, expanded: bool, crossed: bool)

  /** The button tells assistive technology and the eye what the menu shows. */
  predicate Consistent(m: Menu) {
    m.expanded == !m.hidden && m.crossed == !m.hidden
  }

  /** Where a click landed, relative to the menu and its button. */
  datatype Target = InMenu | OnButton | Elsewhere

  /** The menu as the outside-click handler leaves it: hidden, with a consistent button. */
  const Closed: Menu := Menu(true, false, false)

  /** The button's click handler. */
  function Toggle(m: Menu): (r: Menu)
    ensures r.hidden == !m.hidden
    ensures Consistent(r)
  {
    var hidden := !m.hidden;
    Menu(hidden, !hidden, !hidden)
  }

  /** The document's click handler. */
  function OutsideClick(m: Menu, t: Target): (r: Menu)
    ensures r.hidden <==> m.hidden || t == Elsewhere
    ensures m.hidden || t != Elsewhere ==> r == m
    ensures !m.hidden && t == Elsewhere ==> !r.expanded && !r.crossed
    ensures Consistent(m) ==> Consistent(r)
  {
    if !m.hidden && t == Elsewhere then Closed else m
  }

  /**
   * A whole click: the button's own handler runs first, then the click
   * bubbles up to the document's handler.
   */
  function Click(m: Menu, t: Target): (r: Menu)
    ensures t == OnButton ==> r == Toggle(m)
    ensures t == InMenu ==> r == m
    ensures t == Elsewhere ==> r.hidden && (m.hidden ==> r == m)
    ensures !m.hidden && t == Elsewhere ==> !r.expanded && !r.crossed
    ensures Consistent(m) ==> Consistent(r)
  {
    var m' := if t == OnButton then Toggle(m) else m;
    OutsideClick(m', t)
  }

  /**
   * A click on a navigation link with the given href, whose target section
   * is at offsetTop `targetTop` when the page has one. Returns the menu and
   * where the window scrolls to, if anywhere. As written the handler adds
   * `hidden` only when the menu already has it.
   */
  function NavLinkClick(m: Menu, href: string, targetTop: Option<int>): (r: (Menu, Option<int>))
    ensures r.1.Some? <==> href != "#" && targetTop.Some?
    ensures r.1.Some? ==> r.1.value == targetTop.value - HeaderOffset
    ensures r.0 == m
  {
    if href == "#" || targetTop.None? then (m, None)
    else
      var m' := if m.hidden then m.(hidden := true) else m;
      (m', Some(targetTop.value - HeaderOffset))
  }

  /**
   * The navigation-link handler closing an open menu, as its comment says,
   * the way the outside-click handler does: `hidden` added, `aria-expanded`
   * "false" and the bars reset.
   */
  function NavLinkClickCloses(m: Menu, href: string, targetTop: Option<int>): (r: (Menu, Option<int>))
    ensures r.1.Some? <==> href != "#" && targetTop.Some?
    ensures r.1.Some? ==> r.1.value == targetTop.value - HeaderOffset && r.0.hidden
    ensures r.1.None? ==> r.0 == m
    ensures r.1.Some? && !m.hidden ==> !r.0.expanded && !r.0.crossed
    ensures r.1.Some? && m.hidden ==> r.0 == m
    ensures Consistent(m) ==> Consistent(r.0)
  {
    if href == "#" || targetTop.None? then (m, None)
    else (if m.hidden then m else Closed, Some(targetTop.value - HeaderOffset))
  }

  /** Clicking the button toggles the menu; the bubbling click does not undo it. */
  lemma ButtonClickToggles(m: Menu)
    ensures Click(m, OnButton).hidden == !m.hidden
    ensures Consistent(Click(m, OnButton))
    ensures Click(Click(m, OnButton), OnButton).hidden == m.hidden
  {
  }

  /**
   * As written, a navigation-link click never changes the menu, so an open
   * menu stays open after its link is followed; it only decides the scroll
   * target.
   */
  lemma NavLinkKeepsMenu(m: Menu, href: string, targetTop: Option<int>)
    ensures NavLinkClick(m, href, targetTop).0 == m
    ensures NavLinkClick(m, href, targetTop).1 == NavLinkClickCloses(m, href, targetTop).1
    ensures NavLinkClick(Menu(false, true, true), "#about", Some(500)) == (Menu(false, true, true), Some(420))
  {
  }
}
