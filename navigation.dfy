/** The decision logic of js/navigation.js: the Navigation object, whose
    scroll handler restyles the page header and whose menu button toggles the
    navigation list. */
module NavigationScript {
  import opened Page

  /** The two style properties the scroll handler assigns on the header. */
  datatype HeaderStyle = HeaderStyle(background: string, backdropFilter: string)

  /** Scroll offset, in CSS pixels, beyond which the header is restyled. */
  const SCROLL_THRESHOLD: real := 100.0

  /** Translucent and blurred, once the page has scrolled past the threshold. */
  const SCROLLED_STYLE: HeaderStyle := HeaderStyle("rgba(67, 97, 238, 0.95)", "blur(10px)")

  /** The gradient, without blur, near the top of the page. */
  const TOP_STYLE: HeaderStyle := HeaderStyle("linear-gradient(135deg, #4361ee, #3a0ca3)", "none")

  /** The preset the scroll handler chooses for a scroll offset. */
  function ScrollPreset(scrollY: real): (style: HeaderStyle)
    ensures style == SCROLLED_STYLE || style == TOP_STYLE
  {
    if scrollY > SCROLL_THRESHOLD then SCROLLED_STYLE else TOP_STYLE
  }

  /** The threshold is strict: an offset of exactly 100 keeps the top style.
      The two presets differ in both properties, so background and filter
      always change together. */
  lemma ScrollPresetThreshold(scrollY: real)
    ensures ScrollPreset(scrollY) == SCROLLED_STYLE <==> scrollY > 100.0
    ensures ScrollPreset(scrollY) == TOP_STYLE <==> scrollY <= 100.0
    ensures ScrollPreset(100.0) == TOP_STYLE
    ensures SCROLLED_STYLE.background != TOP_STYLE.background
    ensures SCROLLED_STYLE.backdropFilter != TOP_STYLE.backdropFilter
  {
  }

  /** The flags after one click on the menu button. Without a ".menu-btn" no
      handler is attached; without a "nav ul" the handler throws on its
      first statement, before the button is toggled. */
  function MenuClick(menuButtonPresent: bool, navListPresent: bool, f: MenuFlags): MenuFlags
  {
    if menuButtonPresent && navListPresent then Toggled(f) else f
  }

  /** The flags after `n` clicks on the menu button. */
  function Clicks(n: nat, menuButtonPresent: bool, navListPresent: bool, f: MenuFlags): MenuFlags
  {
    if n == 0 then f else Clicks(n - 1, menuButtonPresent, navListPresent, MenuClick(menuButtonPresent, navListPresent, f))
  }

  /** After `n` clicks the flags are toggled exactly when `n` is odd and both
      elements exist; without a menu button they never change. Flags that
      start equal therefore stay equal, and two clicks restore the state. */
  lemma {:induction false} ClicksParity(n: nat, menuButtonPresent: bool, navListPresent: bool, f: MenuFlags)
    ensures Clicks(n, menuButtonPresent, navListPresent, f) ==
              if menuButtonPresent && navListPresent && n % 2 == 1 then Toggled(f) else f
    ensures InSync(f) ==> InSync(Clicks(n, menuButtonPresent, navListPresent, f))
  {
    ToggledTwice(f);
    if n > 0 {
      var g := MenuClick(menuButtonPresent, navListPresent, f);
      ClicksParity(n - 1, menuButtonPresent, navListPresent, g);
      ToggledTwice(g);
    }
  }

  /** The Navigation object: the header's two style properties and the
      "active" flags of the navigation list and the menu button. The button
      and the list are looked up once, when the object is built. */
  class Navigation {
    const menuButtonPresent: bool
    const navListPresent: bool
    var background: string
    var backdropFilter: string
    var navListActive: bool
    var menuButtonActive: bool

    function Style(): HeaderStyle
      reads this
    {
      HeaderStyle(background, backdropFilter)
    }

    function Flags(): MenuFlags
      reads this
    {
      MenuFlags(navListActive, menuButtonActive)
    }

    /** Building the object only attaches the handlers: the header keeps
        its style and the elements their classes. */
    constructor (menuButtonPresent: bool, navListPresent: bool, style: HeaderStyle, flags: MenuFlags)
      ensures this.menuButtonPresent == menuButtonPresent && this.navListPresent == navListPresent
      ensures Style() == style && Flags() == flags
    {
      this.menuButtonPresent := menuButtonPresent;
      this.navListPresent := navListPresent;
      background := style.background;
      backdropFilter := style.backdropFilter;
      navListActive := flags.navActive;
      menuButtonActive := flags.buttonActive;
    }

    /** The scroll handler (handleScroll). The header is looked up on every
        scroll; when the page has none yet, the handler throws before
        assigning anything. */
    method OnScroll(scrollY: real, headerPresent: bool)
      modifies this
      ensures Style() == if headerPresent then ScrollPreset(scrollY) else old(Style())
      ensures Flags() == old(Flags())
    {
      if headerPresent {
        if scrollY > SCROLL_THRESHOLD {
          background := SCROLLED_STYLE.background;
          backdropFilter := SCROLLED_STYLE.backdropFilter;
        } else {
          background := TOP_STYLE.background;
          backdropFilter := TOP_STYLE.backdropFilter;
        }
      }
    }

    /** The menu button's click handler (handleMobileMenu). */
    method OnMenuButtonClick()
      modifies this
      ensures Flags() == MenuClick(menuButtonPresent, navListPresent, old(Flags()))
      ensures Style() == old(Style())
    {
      if menuButtonPresent && navListPresent {
        navListActive := !navListActive;
        menuButtonActive := !menuButtonActive;
      }
    }
  }
}
