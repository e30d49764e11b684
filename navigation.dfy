/**
  The site navigation bar: hidden on the home page until the visitor has
  scrolled past the hero, always shown elsewhere, and restyled once the page
  is scrolled. Its links scroll within the home page, or navigate to the home
  page from anywhere else. The DOM is an input: the set of element ids present
  in the page.
 */
module Nav {

  const HomePath: string := "/"
  /** Past this many pixels the bar takes its scrolled style. */
  const ScrolledThreshold: int := 50
  /** Past this many pixels the bar appears on the home page. */
  const RevealThreshold: int := 100

  /** What a click does: scroll to the element with an id, load a URL, or nothing. */
  datatype NavAction = ScrollTo(id: string) | Navigate(href: string) | NoAction

  /** The URL of a home-page section seen from another page. */
  function SectionHref(sectionId: string): (href: string)
    ensures |href| == |sectionId| + 2 && href[..2] == "/#" && href[2..] == sectionId
  {
    "/#" + sectionId
  }

  /** `handleSectionClick`: on the home page, scroll to the section if it exists; elsewhere, load
      the home page at the section's anchor. */
  function SectionClick(pathname: string, dom: set<string>, sectionId: string): (a: NavAction)
    ensures a.Navigate? <==> pathname != HomePath
    ensures a.Navigate? ==> a.href == SectionHref(sectionId)
    ensures a.ScrollTo? ==> a.id == sectionId && sectionId in dom
    ensures a.NoAction? <==> pathname == HomePath && sectionId !in dom
  {
    if pathname == HomePath then (if sectionId in dom then ScrollTo(sectionId) else NoAction)
    else Navigate(SectionHref(sectionId))
  }

  /** `handleHomeClick`: on the home page, scroll to the hero if it exists; elsewhere, load `/`. */
  function HomeClick(pathname: string, dom: set<string>): (a: NavAction)
    ensures a.Navigate? <==> pathname != HomePath
    ensures a.Navigate? ==> a.href == HomePath
    ensures a.ScrollTo? ==> a.id == "hero" && "hero" in dom
    ensures a.NoAction? <==> pathname == HomePath && "hero" !in dom
  {
    if pathname == HomePath then (if "hero" in dom then ScrollTo("hero") else NoAction)
    else Navigate(HomePath)
  }

  /** A click never navigates to the page it is on: every link followed from another page leads to
      the home page. A `location.pathname` holds no fragment, so it never contains `#`. */
  lemma NavigateLeadsHome(pathname: string, dom: set<string>, sectionId: string)
    requires '#' !in pathname
    ensures SectionClick(pathname, dom, sectionId).Navigate? ==>
              SectionClick(pathname, dom, sectionId).href[..1] == HomePath
              && SectionClick(pathname, dom, sectionId).href != pathname
    ensures HomeClick(pathname, dom).Navigate? ==> HomeClick(pathname, dom).href != pathname
  {
    var href := SectionHref(sectionId);
    assert href[..1] == href[..2][..1];
    assert href[1] == '#';
  }

  class Navigation {
    const pathname: string
    var isScrolled: bool
    var isVisible: bool

    /** The first render: unscrolled and hidden. */
    constructor (pathname: string)
      ensures this.pathname == pathname && !isScrolled && !isVisible
    {
      this.pathname := pathname;
      isScrolled := false;
      isVisible := false;
    }

    /** The effect run after the first render: visible exactly off the home page. */
    method Mount()
      modifies this
      ensures isVisible <==> pathname != HomePath
      ensures isScrolled == old(isScrolled)
    {
      isVisible := pathname != HomePath;
    }

    /** `handleScroll`: the scrolled style past 50 px; visible off the home page, or past 100 px. */
    method HandleScroll(scrollY: int)
      modifies this
      ensures isScrolled <==> scrollY > ScrolledThreshold
      ensures isVisible <==> pathname != HomePath || scrollY > RevealThreshold
    {
      isScrolled := scrollY > ScrolledThreshold;
      isVisible := pathname != HomePath || scrollY > RevealThreshold;
    }
  }
}
