/**
 * The mobile navigation menu of script.js (`setupMobileMenu`). The page state it drives is
 * four flags: the button's `active` class, the nav list's `active` class, whether the overlay
 * is shown (opacity 1 and visibility visible, versus 0 and hidden) and whether the body's
 * overflow is "hidden" (versus "").
 */
module MobileMenu {

  class Menu {
    var buttonActive: bool
    var navActive: bool
    var overlayShown: bool
    var overflowHidden: bool

    /** Overlay and scroll lock follow the nav list, and the button agrees with it. */
    ghost predicate Consistent()
      reads this
    {
      overlayShown == navActive && overflowHidden == navActive && buttonActive == navActive
    }

    /** The menu is closed. */
    ghost predicate Closed()
      reads this
    {
      !buttonActive && !navActive && !overlayShown && !overflowHidden
    }

    /**
     * The set-up: the overlay is created hidden; the button and the nav list keep the
     * `active` classes the page gave them, and the body its overflow.
     */
    constructor (buttonActive: bool, navActive: bool, overflowHidden: bool)
      ensures this.buttonActive == buttonActive && this.navActive == navActive
      ensures !overlayShown && this.overflowHidden == overflowHidden
      ensures !buttonActive && !navActive && !overflowHidden ==> Closed() && Consistent()
    {
      this.buttonActive := buttonActive;
      this.navActive := navActive;
      overlayShown := false;
      this.overflowHidden := overflowHidden;
    }

    /**
     * A click on the menu button: both classes flip, then overlay and scroll lock follow the
     * nav list. Overlay and scroll lock agree with the nav list afterwards whatever the state
     * before; the button agrees with it if it did before.
     */
    method Toggle()
      modifies this
      ensures buttonActive == !old(buttonActive) && navActive == !old(navActive)
      ensures overlayShown == navActive && overflowHidden == navActive
      ensures old(buttonActive == navActive) ==> Consistent()
    {
      buttonActive := !buttonActive;
      navActive := !navActive;
      if navActive {
        overlayShown := true;
        overflowHidden := true;
      } else {
        overlayShown := false;
        overflowHidden := false;
      }
    }

    /**
     * A click on the overlay or on a link in the nav list (the two handlers do the same):
     * the menu closes, from any state, so repeating it changes nothing.
     */
    method Close()
      modifies this
      ensures Closed() && Consistent()
    {
      buttonActive := false;
      navActive := false;
      overlayShown := false;
      overflowHidden := false;
    }
  }

  /**
   * Nothing is set up unless both the menu button and the nav list exist. Set-up only adds
   * the hidden overlay: the `active` classes and the body's overflow stay as the page had them,
   * so the menu starts closed exactly on a page where all three are off, and a page whose nav
   * list is already active starts with it out of step with the hidden overlay.
   */
  method SetupMobileMenu(hasButton: bool, hasNavLinks: bool,
                         buttonActive: bool, navActive: bool, overflowHidden: bool)
    returns (menu: Menu?)
    ensures menu == null <==> !hasButton || !hasNavLinks
    ensures menu != null ==> fresh(menu) && !menu.overlayShown
    ensures menu != null ==> menu.buttonActive == buttonActive && menu.navActive == navActive
    ensures menu != null ==> menu.overflowHidden == overflowHidden
    ensures menu != null ==> (menu.Closed() <==> !buttonActive && !navActive && !overflowHidden)
    ensures menu != null && navActive ==> !menu.Consistent()
  {
    if !hasButton || !hasNavLinks {
      return null;
    }
    menu := new Menu(buttonActive, navActive, overflowHidden);
  }
}
