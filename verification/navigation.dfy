/**
  The `Navigation` controller: the header's "scrolled" state, the mobile menu
  (menu container and hamburger button, both carrying an "active" class), and
  the smooth scroll performed when an in-page navigation link is clicked.
 */
module Navigation {

  import opened ClassList
  import opened Options

  const ScrolledClass := "scrolled"
  const ActiveClass := "active"
  /** The header turns "scrolled" strictly above this vertical offset. */
  const ScrollThreshold: real := 100.0
  /** Height of the fixed header, subtracted from a section's offset when scrolling to it. */
  const HeaderOffset := 80

  /**
    `handleScroll`, run once at start-up and on every scroll event: the header
    carries "scrolled" exactly when the page is scrolled past the threshold.
   */
  function HandleScroll(header: Classes, scrollY: real): (r: Classes)
    ensures ScrolledClass in r <==> scrollY > ScrollThreshold
    ensures r - {ScrolledClass} == header - {ScrolledClass}
  {
    if scrollY > ScrollThreshold then Add(header, ScrolledClass) else Remove(header, ScrolledClass)
  }

  /** The boundary: at exactly 100 the header is not "scrolled", just above it it is. */
  lemma ScrollBoundary(header: Classes)
    ensures ScrolledClass !in HandleScroll(header, 100.0)
    ensures ScrolledClass in HandleScroll(header, 100.5)
    ensures ScrolledClass in HandleScroll(header, 101.0)
  {
  }

  /**
    The header state depends only on the latest scroll offset: an update
    overrides any earlier one, and repeating an update changes nothing.
   */
  lemma HandleScrollLatestWins(header: Classes, earlier: real, latest: real)
    ensures HandleScroll(HandleScroll(header, earlier), latest) == HandleScroll(header, latest)
    ensures HandleScroll(HandleScroll(header, latest), latest) == HandleScroll(header, latest)
  {
  }

  /** The two elements of the mobile menu. */
  datatype Menu = Menu(navMenu: Classes, hamburger: Classes) {

    predicate Open() {
      ActiveClass in navMenu
    }

    predicate HamburgerActive() {
      ActiveClass in hamburger
    }

    /** The menu and its toggle button show the same state. */
    predicate InSync() {
      Open() == HamburgerActive()
    }
  }

  /** A click on the hamburger toggles "active" on the menu and on the button. */
  function HamburgerClick(m: Menu): (r: Menu)
    ensures r.Open() == !m.Open()
    ensures r.HamburgerActive() == !m.HamburgerActive()
    ensures r.navMenu - {ActiveClass} == m.navMenu - {ActiveClass}
    ensures r.hamburger - {ActiveClass} == m.hamburger - {ActiveClass}
  {
    Menu(Toggle(m.navMenu, ActiveClass), Toggle(m.hamburger, ActiveClass))
  }

  /** The menu after `n` hamburger clicks. */
  function HamburgerClicks(m: Menu, n: nat): Menu
    decreases n
  {
    if n == 0 then m else HamburgerClick(HamburgerClicks(m, n - 1))
  }

  /**
    Parity of hamburger clicks: an even number of clicks restores the menu
    exactly, an odd number flips both elements.
   */
  lemma {:induction false} HamburgerClicksParity(m: Menu, n: nat)
    ensures n % 2 == 0 ==> HamburgerClicks(m, n) == m
    ensures n % 2 == 1 ==> HamburgerClicks(m, n).Open() == !m.Open()
    ensures n % 2 == 1 ==> HamburgerClicks(m, n).HamburgerActive() == !m.HamburgerActive()
    decreases n
  {
    if n >= 2 {
      HamburgerClicksParity(m, n - 2);
      var k := HamburgerClicks(m, n - 2);
      ToggleTwice(k.navMenu, ActiveClass);
      ToggleTwice(k.hamburger, ActiveClass);
    }
  }

  /** Menu and button that start in agreement stay in agreement, however often the hamburger is clicked. */
  lemma HamburgerClicksKeepSync(m: Menu, n: nat)
    requires m.InSync()
    ensures HamburgerClicks(m, n).InSync()
  {
    HamburgerClicksParity(m, n);
  }

  /** What one click on a navigation link does: the new menu and where the window scrolls, if anywhere. */
  datatype LinkClick = LinkClick(menu: Menu, scrollTo: Option<int>)

  /**
    A click on a navigation link whose `href` is `href`. The first listener
    closes the menu; the second cancels the default navigation, looks up the
    section the `href` selects and, when there is one, scrolls to its offset
    less the header height. `sections` maps each selector that selects a
    section to the `offsetTop` of the first section it selects.
   */
  function NavLinkClick(m: Menu, href: string, sections: map<string, int>): (r: LinkClick)
    ensures !r.menu.Open() && !r.menu.HamburgerActive()
    ensures r.menu.navMenu - {ActiveClass} == m.navMenu - {ActiveClass}
    ensures r.menu.hamburger - {ActiveClass} == m.hamburger - {ActiveClass}
    ensures r.scrollTo.Some? <==> href in sections
    ensures href in sections ==> r.scrollTo.value + HeaderOffset == sections[href]
  {
    var closed := Menu(Remove(m.navMenu, ActiveClass), Remove(m.hamburger, ActiveClass));
    var target := if href in sections then Some(sections[href] - HeaderOffset) else None;
    LinkClick(closed, target)
  }

  /**
    The outcome of a link click does not depend on whether the menu was open:
    two menus with the same other classes end up identical, and a second click
    on the same link leaves the menu as the first one did.
   */
  lemma NavLinkClickForgetsMenuState(m1: Menu, m2: Menu, href: string, sections: map<string, int>)
    requires m1.navMenu - {ActiveClass} == m2.navMenu - {ActiveClass}
    requires m1.hamburger - {ActiveClass} == m2.hamburger - {ActiveClass}
    ensures NavLinkClick(m1, href, sections) == NavLinkClick(m2, href, sections)
    ensures NavLinkClick(NavLinkClick(m1, href, sections).menu, href, sections) == NavLinkClick(m1, href, sections)
  {
  }
}
