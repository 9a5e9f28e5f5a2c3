/** The threshold part of `handleScroll`: past `config.scrollThreshold` pixels
    the navbar gets the `scrolled` class and the back-to-top button the
    `visible` class; at or above it both are removed. */
module Scroll {

  /** `config.scrollThreshold` (px). */
  const ScrollThreshold := 100

  /** Whether the page is scrolled past the threshold (strictly). */
  predicate PastThreshold(scrollTop: int)
  {
    scrollTop > ScrollThreshold
  }

  class ScrollChrome {
    /** The navbar has class `scrolled`. */
    var navbarScrolled: bool
    /** The back-to-top button has class `visible`. */
    var backToTopVisible: bool

    /** Page load: neither class is set. */
    constructor ()
      ensures !navbarScrolled && !backToTopVisible
    {
      navbarScrolled, backToTopVisible := false, false;
    }

    /** One scroll event at offset `scrollTop`. */
    method HandleScroll(scrollTop: int)
      modifies this
      ensures navbarScrolled == PastThreshold(scrollTop)
      ensures backToTopVisible == PastThreshold(scrollTop)
    {
      if scrollTop > ScrollThreshold {
        navbarScrolled := true;
        backToTopVisible := true;
      } else {
        navbarScrolled := false;
        backToTopVisible := false;
      }
    }
  }
}
