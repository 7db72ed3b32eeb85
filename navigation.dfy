/**
 * Navigation state in js/main.js: marking the link of the current page,
 * the mobile menu and hamburger `active` flags, and the navbar's
 * `scrolled` class.
 */
module Navigation {
  import opened JsValues

  // ---------------------------------------------------------------------
  // updateActiveNavLink
  // ---------------------------------------------------------------------

  /** A `.nav-link`: its raw `href` attribute (absent is null) and classes. */
  datatype NavLink = NavLink(href: Option<string>, classes: set<string>)

  /** The test `href === currentPage || (currentPage === '/' && href === '/')`.
      The second disjunct implies the first, so the test is equality. */
  function IsCurrentPage(href: Option<string>, currentPage: string): (r: bool)
    ensures r <==> href == Some(currentPage)
  {
    href == Some(currentPage) || (currentPage == "/" && href == Some("/"))
  }

  /** The loop body for one link: remove `active`, then add it back when
      the link points at the current page. */
  function MarkActive(link: NavLink, currentPage: string): (r: NavLink)
    ensures r.href == link.href
    ensures "active" in r.classes <==> link.href == Some(currentPage)
    ensures r.classes - {"active"} == link.classes - {"active"}
  {
    var cleared := link.classes - {"active"};
    link.(classes := if IsCurrentPage(link.href, currentPage) then cleared + {"active"} else cleared)
  }

  /** `updateActiveNavLink()` over the page's nav links, with
      `window.location.pathname` as `currentPage`: afterwards a link is
      active exactly when its href is the current path, and nothing else
      about any link has changed. */
  method UpdateActiveNavLink(links: array<NavLink>, currentPage: string)
    modifies links
    ensures forall i :: 0 <= i < links.Length ==> links[i] == MarkActive(old(links[i]), currentPage)
    ensures forall i :: 0 <= i < links.Length ==>
      ("active" in links[i].classes <==> links[i].href == Some(currentPage))
  {
    var i := 0;
    while i < links.Length
      invariant 0 <= i <= links.Length
      invariant forall k :: 0 <= k < i ==> links[k] == MarkActive(old(links[k]), currentPage)
      invariant forall k :: i <= k < links.Length ==> links[k] == old(links[k])
    {
      links[i] := MarkActive(links[i], currentPage);
      i := i + 1;
    }
  }

  // ---------------------------------------------------------------------
  // Menu and hamburger
  // ---------------------------------------------------------------------

  /** Whether `#navMenu` and `#hamburger` carry the `active` class. */
  datatype MenuState = MenuState(menuActive: bool, hamburgerActive: bool)

  /** Which of the two elements exist on the page. */
  datatype MenuElements = MenuElements(hasMenu: bool, hasHamburger: bool)

  /** A flag of a missing element stays false. */
  predicate Consistent(s: MenuState, page: MenuElements) {
    (!page.hasMenu ==> !s.menuActive) && (!page.hasHamburger ==> !s.hamburgerActive)
  }

  /** The hamburger click handler toggles both classes. It is installed
      only when the hamburger exists; without a menu its first statement
      throws and nothing changes. */
  function HamburgerClicked(s: MenuState, page: MenuElements): MenuState {
    if page.hasHamburger && page.hasMenu then MenuState(!s.menuActive, !s.hamburgerActive) else s
  }

  /** A nav-link click removes `active` from the menu, then from the
      hamburger if there is one; without a menu it throws first. */
  function NavLinkClicked(s: MenuState, page: MenuElements): MenuState {
    if !page.hasMenu then s
    else MenuState(false, if page.hasHamburger then false else s.hamburgerActive)
  }

  /** The keydown handler: Escape removes `active` from whichever of the two
      elements exist; other keys do nothing. */
  function KeyPressed(s: MenuState, page: MenuElements, key: string): MenuState {
    if key != "Escape" then s
    else MenuState(if page.hasMenu then false else s.menuActive,
                   if page.hasHamburger then false else s.hamburgerActive)
  }

  /** Two hamburger clicks cancel out. */
  lemma HamburgerTwiceIsIdentity(s: MenuState, page: MenuElements)
    ensures HamburgerClicked(HamburgerClicked(s, page), page) == s
  {
  }

  /** Every handler keeps the flags consistent with the page, and, when
      both elements exist, keeps the two flags equal if they were equal. */
  lemma HandlersKeepFlagsInStep(s: MenuState, page: MenuElements, key: string)
    requires Consistent(s, page)
    ensures Consistent(HamburgerClicked(s, page), page)
    ensures Consistent(NavLinkClicked(s, page), page)
    ensures Consistent(KeyPressed(s, page, key), page)
    ensures page.hasMenu && page.hasHamburger && s.menuActive == s.hamburgerActive ==>
      && HamburgerClicked(s, page).menuActive == HamburgerClicked(s, page).hamburgerActive
      && NavLinkClicked(s, page).menuActive == NavLinkClicked(s, page).hamburgerActive
      && KeyPressed(s, page, key).menuActive == KeyPressed(s, page, key).hamburgerActive
  {
  }

  /** On a page with a menu, a nav-link click or Escape leaves both
      elements inactive. */
  lemma ClosingHandlersCloseBoth(s: MenuState, page: MenuElements)
    requires Consistent(s, page) && page.hasMenu
    ensures NavLinkClicked(s, page) == MenuState(false, false)
    ensures KeyPressed(s, page, "Escape") == MenuState(false, false)
  {
  }

  /** The two `active` flags of one page, updated in place by the three
      event handlers. */
  class NavMenu {
    const page: MenuElements
    var menuActive: bool
    var hamburgerActive: bool

    function State(): MenuState
      reads this
    {
      MenuState(menuActive, hamburgerActive)
    }

    ghost predicate Valid()
      reads this
    {
      Consistent(State(), page)
    }

    constructor (page: MenuElements)
      ensures Valid() && this.page == page && State() == MenuState(false, false)
    {
      this.page := page;
      menuActive := false;
      hamburgerActive := false;
    }

    method OnHamburgerClick()
      requires Valid()
      modifies this
      ensures Valid() && State() == HamburgerClicked(old(State()), page)
    {
      if page.hasHamburger && page.hasMenu {
        menuActive := !menuActive;
        hamburgerActive := !hamburgerActive;
      }
    }

    method OnNavLinkClick()
      requires Valid()
      modifies this
      ensures Valid() && State() == NavLinkClicked(old(State()), page)
    {
      if page.hasMenu {
        menuActive := false;
        if page.hasHamburger {
          hamburgerActive := false;
        }
      }
    }

    method OnKeyDown(key: string)
      requires Valid()
      modifies this
      ensures Valid() && State() == KeyPressed(old(State()), page, key)
    {
      if key == "Escape" {
        if page.hasMenu {
          menuActive := false;
        }
        if page.hasHamburger {
          hamburgerActive := false;
        }
      }
    }
  }

  // ---------------------------------------------------------------------
  // Navbar scroll effect
  // ---------------------------------------------------------------------

  const ScrolledThreshold: real := 50.0

  /** The navbar's classes after a scroll event at `scrollY`: `scrolled`
      exactly when the page is scrolled more than 50 pixels, and every other
      class untouched. */
  function NavbarOnScroll(classes: set<string>, scrollY: real): (r: set<string>)
    ensures "scrolled" in r <==> scrollY > 50.0
    ensures r - {"scrolled"} == classes - {"scrolled"}
  {
    if scrollY > ScrolledThreshold then classes + {"scrolled"} else classes - {"scrolled"}
  }
}
