/** The decision logic of js/guides.js: loading the header and footer
    fragments with a fallback header, marking the active navigation link, the
    mobile menu, and the copy buttons added to code blocks. */
module GuidesScript {
  import opened JsString
  import opened Page

  // ---------------------------------------------------------------------
  // Fragment loading (loadComponent, createFallbackHeader, initializeApp)
  // ---------------------------------------------------------------------

  /** The markup createFallbackHeader writes into the header mount: a logo
      link to the home page and a navigation list of five links (home and the
      four guides). The markup is a template literal, so the "// " before each
      list item is text in the page, not a comment. */
  const FALLBACK_HEADER: string :=
    "<header><div class=\"container\"><div class=\"header-content\"><div class=\"logo\">"
    + "<a href=\"index.html\" style=\"color: white; text-decoration: none;\">WebDev Guides</a>"
    + "</div><nav><ul>"
    + "// <li><a href=\"index.html\">Home</a></li>"
    + "// <li><a href=\"guides/ecommerce.html\">E-commerce</a></li>"
    + "// <li><a href=\"guides/blog.html\">Blog</a></li>"
    + "// <li><a href=\"guides/portfolio.html\">Portfolio</a></li>"
    + "// <li><a href=\"guides/corporate.html\">Corporate</a></li>"
    + "</ul></nav></div></div></header>"

  /** The mounts after a load, and whether the load's promise was rejected. */
  datatype Settled = Settled(mounts: Mounts, rejected: bool)

  /** loadComponent(id, path) given what the fetch of path produced. A
      delivered body replaces the mount's content. Any failure (the fetch,
      a non-ok status, reading the body, or a missing mount, whose innerHTML
      assignment throws) is caught; for the header the fallback markup is
      written instead, and when there is no header element that write
      throws out of the handler, rejecting the load. */
  function LoadComponent(mounts: Mounts, id: string, fetched: Fetched): (r: Settled)
    ensures r.mounts.Keys == mounts.Keys
    ensures forall k :: k in mounts && k != id ==> r.mounts[k] == mounts[k]
    ensures id in mounts ==>
              r.mounts[id] == if Delivered(fetched) then fetched.body.value
                              else if id == HEADER_ID then FALLBACK_HEADER
                              else mounts[id]
    ensures r.rejected <==> id == HEADER_ID && id !in mounts
  {
    if Delivered(fetched) && id in mounts then
      Settled(mounts[id := fetched.body.value], false)
    else if id == HEADER_ID then
      if HEADER_ID in mounts then Settled(mounts[HEADER_ID := FALLBACK_HEADER], false)
      else Settled(mounts, true)
    else
      Settled(mounts, false)
  }

  /** The mounts after start-up, and whether initializeNavigation was reached. */
  datatype AppStart = AppStart(mounts: Mounts, navigationInitialized: bool)

  /** initializeApp up to navigation: the header is loaded, then the footer;
      a rejected load jumps to the catch block and skips the rest. */
  function InitializeApp(mounts: Mounts, header: Fetched, footer: Fetched): (r: AppStart)
  {
    var h := LoadComponent(mounts, HEADER_ID, header);
    if h.rejected then AppStart(h.mounts, false)
    else
      var f := LoadComponent(h.mounts, FOOTER_ID, footer);
      if f.rejected then AppStart(f.mounts, false) else AppStart(f.mounts, true)
  }

  /** Navigation is initialized whenever the page has a header element,
      whatever the two fetches produce: the header then holds the fetched
      body or the fallback markup, and the footer its body or its old content. */
  lemma InitializeAppReachesNavigation(mounts: Mounts, header: Fetched, footer: Fetched)
    ensures var r := InitializeApp(mounts, header, footer);
            (r.navigationInitialized <==> HEADER_ID in mounts)
            && (HEADER_ID !in mounts ==> r.mounts == mounts)
            && (HEADER_ID in mounts ==>
                  r.mounts[HEADER_ID] == (if Delivered(header) then header.body.value else FALLBACK_HEADER))
            && (HEADER_ID in mounts && FOOTER_ID in mounts ==>
                  r.mounts[FOOTER_ID] == (if Delivered(footer) then footer.body.value else mounts[FOOTER_ID]))
  {
    var h := LoadComponent(mounts, HEADER_ID, header);
    if !h.rejected {
      var f := LoadComponent(h.mounts, FOOTER_ID, footer);
      assert !f.rejected;
    }
  }

  // ---------------------------------------------------------------------
  // Active-link highlighting (initializeNavigation, first part)
  // ---------------------------------------------------------------------

  /** The condition under which a link with href attribute `href` gets the
      "active" class on the page with key `key`. */
  predicate LinkMatches(href: string, key: string)
  {
    href == key
    || (key == HOME_KEY && href == HOME_KEY)
    || (Includes(key, "guide") && Includes(href, ReplaceFirst(key, ".html", "")))
  }

  /** The home-page disjunct is implied by equality and adds no match, and a
      match other than equality needs a key containing "guide" and an href
      containing the key without its first ".html". */
  lemma LinkMatchesCases(href: string, key: string)
    ensures LinkMatches(href, key) <==>
              href == key || (Includes(key, "guide") && Includes(href, ReplaceFirst(key, ".html", "")))
    ensures !Includes(key, "guide") ==> (LinkMatches(href, key) <==> href == key)
  {
  }

  /** Evaluating the condition on a link without an href calls includes on
      null, which throws, exactly when the key contains "guide". */
  predicate Throws(link: Link, key: string)
  {
    link.href.None? && Includes(key, "guide")
  }

  /** One iteration of the forEach on a link it gets through. */
  function Visit(link: Link, key: string): Link
  {
    if link.href.Some? && LinkMatches(link.href.value, key) then link.(active := true) else link
  }

  /** The index of the first link on which the loop throws, or the number of
      links when it gets through all of them. */
  function FirstThrow(links: seq<Link>, key: string): (n: nat)
    ensures n <= |links|
    ensures forall i :: 0 <= i < n ==> !Throws(links[i], key)
    ensures n < |links| ==> Throws(links[n], key)
  {
    if links == [] then 0
    else if Throws(links[0], key) then 0
    else 1 + FirstThrow(links[1..], key)
  }

  /** The links after the forEach: those before the first throwing one are
      visited, the rest are left as they were. */
  function Highlight(links: seq<Link>, key: string): (r: seq<Link>)
  {
    seq(|links|, i requires 0 <= i < |links| =>
      if i < FirstThrow(links, key) then Visit(links[i], key) else links[i])
  }

  /** Highlighting only ever adds "active": every href is kept, a link that
      was active stays active, and a link becomes active exactly when the
      loop reached it and it matches. Several links may end up active. */
  lemma HighlightOnlyAdds(links: seq<Link>, key: string)
    ensures var r := Highlight(links, key);
            |r| == |links|
            && forall i :: 0 <= i < |links| ==>
                 r[i].href == links[i].href
                 && (r[i].active <==>
                       links[i].active
                       || (i < FirstThrow(links, key) && links[i].href.Some?
                           && LinkMatches(links[i].href.value, key)))
  {
  }

  /** The loop gets through every link unless the key contains "guide" and
      some link has no href. */
  lemma HighlightCompletes(links: seq<Link>, key: string)
    ensures FirstThrow(links, key) == |links| <==>
              !Includes(key, "guide") || forall i :: 0 <= i < |links| ==> links[i].href.Some?
  {
  }

  /** links.forEach(...) over the links of the page, in place; returns
      whether it got through all of them without throwing. */
  method HighlightActive(links: array<Link>, key: string) returns (completed: bool)
    modifies links
    ensures links[..] == Highlight(old(links[..]), key)
    ensures completed <==> FirstThrow(old(links[..]), key) == links.Length
  {
    var i := 0;
    while i < links.Length
      invariant 0 <= i <= links.Length
      invariant forall j :: 0 <= j < i ==> !Throws(old(links[j]), key)
      invariant forall j :: 0 <= j < i ==> links[j] == Visit(old(links[j]), key)
      invariant forall j :: i <= j < links.Length ==> links[j] == old(links[j])
    {
      if links[i].href.None? && Includes(key, "guide") {
        assert FirstThrow(old(links[..]), key) == i;
        return false;
      }
      if links[i].href.Some? && LinkMatches(links[i].href.value, key) {
        links[i] := links[i].(active := true);
      }
      i := i + 1;
    }
    return true;
  }

  /** The page /guides/ecommerce.html has key "ecommerce.html", which does not
      contain "guide", so the loose rule is off and its own navigation link
      "guides/ecommerce.html" is not marked. */
  lemma GuidePageLinkNotMarked()
    ensures PageKey("/guides/ecommerce.html") == "ecommerce.html"
    ensures !LinkMatches("guides/ecommerce.html", PageKey("/guides/ecommerce.html"))
  {
    PageKeyOfFileInDirectory("guides", "ecommerce.html");
    assert "/guides/ecommerce.html" == "/" + "guides" + "/" + "ecommerce.html";
    LetterAbsentNoOccurrence("ecommerce.html", "guide");
  }

  /** With a key `stem.html` whose stem contains "guide" (and no '.'), the
      loose rule marks every link whose href contains the stem. */
  lemma LooseRuleMarksEveryLinkWithStem(links: seq<Link>, stem: string)
    requires Includes(stem, "guide") && '.' !in stem
    requires forall i :: 0 <= i < |links| ==> links[i].href.Some? && Includes(links[i].href.value, stem)
    ensures forall i :: 0 <= i < |links| ==> Highlight(links, stem + ".html")[i].active
  {
    ReplaceFirstOfSuffix(stem, ".html", "");
    assert stem + "" == stem;
    var key := stem + ".html";
    assert Includes(key, "guide") by {
      var k :| OccursAt(stem, "guide", k);
      assert key[k..k + 5] == stem[k..k + 5];
      assert OccursAt(key, "guide", k);
    }
    assert FirstThrow(links, key) == |links|;
  }

  /** On a page with key "guide.html" the links to two different guides are
      both marked: more than one link can be active at once. */
  lemma LooseRuleMarksSeveralLinks()
    ensures var r := Highlight([Link(Some("guides/blog.html"), false),
                                Link(Some("guides/portfolio.html"), false)], "guide.html");
            r[0].active && r[1].active
  {
    var links := [Link(Some("guides/blog.html"), false), Link(Some("guides/portfolio.html"), false)];
    assert OccursAt("guide", "guide", 0);
    assert OccursAt("guides/blog.html", "guide", 0);
    assert OccursAt("guides/portfolio.html", "guide", 0);
    LooseRuleMarksEveryLinkWithStem(links, "guide");
    assert "guide" + ".html" == "guide.html";
  }

  // ---------------------------------------------------------------------
  // Mobile menu (initializeNavigation, second part)
  // ---------------------------------------------------------------------

  /** Viewport width, in CSS pixels, up to which the menu behaves as the
      mobile one. */
  const MOBILE_BREAKPOINT: int := 768

  /** Both the navigation element and the toggle button are closed. */
  const CLOSED: MenuFlags := MenuFlags(false, false)

  /** A click on the toggle button, a click on a link in the navigation
      element, or a resize of the window, with the window's inner width. */
  datatype MenuEvent = ToggleClick | LinkClick(width: int) | Resize(width: int)

  /** The menu's flags after one event. Without a navigation element no
      toggle or link handler is attached, and the resize handler clears the
      button only. */
  function MenuStep(navPresent: bool, f: MenuFlags, e: MenuEvent): MenuFlags
  {
    match e
    case ToggleClick => if navPresent then Toggled(f) else f
    case LinkClick(width) => if navPresent && width <= MOBILE_BREAKPOINT then CLOSED else f
    case Resize(width) =>
      if width > MOBILE_BREAKPOINT then MenuFlags(if navPresent then false else f.navActive, false)
      else f
  }

  /** A link click at a mobile width, or a resize above the breakpoint,
      closes the menu; the same events at the other widths change nothing.
      A toggle click flips both flags, so flags that agree keep agreeing, and
      two toggle clicks restore them. */
  lemma MenuStepEffects(f: MenuFlags, width: int)
    ensures width <= MOBILE_BREAKPOINT ==> MenuStep(true, f, LinkClick(width)) == CLOSED
    ensures width > MOBILE_BREAKPOINT ==> MenuStep(true, f, LinkClick(width)) == f
    ensures width > MOBILE_BREAKPOINT ==> MenuStep(true, f, Resize(width)) == CLOSED
    ensures width <= MOBILE_BREAKPOINT ==> MenuStep(true, f, Resize(width)) == f
    ensures MenuStep(true, MenuStep(true, f, ToggleClick), ToggleClick) == f
    ensures InSync(MenuStep(true, f, ToggleClick)) == InSync(f)
  {
    ToggledTwice(f);
  }

  /** The flags after a sequence of events, in arrival order. */
  function MenuRun(navPresent: bool, f: MenuFlags, events: seq<MenuEvent>): MenuFlags
    decreases |events|
  {
    if events == [] then f else MenuRun(navPresent, MenuStep(navPresent, f, events[0]), events[1..])
  }

  /** With a navigation element, flags that start equal stay equal whatever
      events arrive. */
  lemma {:induction false} MenuRunKeepsSync(f: MenuFlags, events: seq<MenuEvent>)
    requires InSync(f)
    ensures InSync(MenuRun(true, f, events))
    decreases |events|
  {
    if events != [] {
      ToggledTwice(f);
      MenuRunKeepsSync(MenuStep(true, f, events[0]), events[1..]);
    }
  }

  /** Starting closed: a toggle click opens, a second one closes, and a
      resize above the breakpoint closes an open menu. */
  lemma MenuScenario()
    ensures MenuRun(true, CLOSED, [ToggleClick]) == MenuFlags(true, true)
    ensures MenuRun(true, CLOSED, [ToggleClick, ToggleClick]) == CLOSED
    ensures MenuRun(true, CLOSED, [ToggleClick, Resize(1024)]) == CLOSED
  {
  }

  /** The menu toggle button and the navigation element, with their
      handlers. */
  class MobileMenu {
    const navPresent: bool
    var navActive: bool
    var toggleActive: bool

    function Flags(): MenuFlags
      reads this
    {
      MenuFlags(navActive, toggleActive)
    }

    /** The button is created without "active"; the navigation element keeps
        the classes the header markup gave it. */
    constructor (navPresent: bool, navActive: bool)
      ensures this.navPresent == navPresent
      ensures Flags() == MenuFlags(navActive, false)
    {
      this.navPresent := navPresent;
      this.navActive := navActive;
      this.toggleActive := false;
    }

    method OnToggleClick()
      modifies this
      ensures Flags() == MenuStep(navPresent, old(Flags()), ToggleClick)
    {
      if navPresent {
        navActive := !navActive;
        toggleActive := !toggleActive;
      }
    }

    method OnLinkClick(width: int)
      modifies this
      ensures Flags() == MenuStep(navPresent, old(Flags()), LinkClick(width))
    {
      if navPresent && width <= MOBILE_BREAKPOINT {
        navActive := false;
        toggleActive := false;
      }
    }

    method OnResize(width: int)
      modifies this
      ensures Flags() == MenuStep(navPresent, old(Flags()), Resize(width))
    {
      if width > MOBILE_BREAKPOINT {
        if navPresent {
          navActive := false;
        }
        toggleActive := false;
      }
    }
  }

  /** initializeNavigation: mark the active links for the current pathname,
      then create the menu. When the marking loop throws, the function stops
      there and no menu handler is ever attached. */
  method InitializeNavigation(links: array<Link>, pathname: string, navPresent: bool, navActive: bool)
    returns (menu: MobileMenu?)
    modifies links
    ensures links[..] == Highlight(old(links[..]), PageKey(pathname))
    ensures menu != null <==> FirstThrow(old(links[..]), PageKey(pathname)) == links.Length
    ensures menu != null ==>
              fresh(menu) && menu.navPresent == navPresent && menu.Flags() == MenuFlags(navActive, false)
  {
    var completed := HighlightActive(links, PageKey(pathname));
    if completed {
      menu := new MobileMenu(navPresent, navActive);
    } else {
      menu := null;
    }
  }

  // ---------------------------------------------------------------------
  // Copy buttons (addBasicGuideFeatures)
  // ---------------------------------------------------------------------

  const COPY_LABEL: string := "Copy"
  const COPIED_LABEL: string := "Copied!"

  /** A click on the button, with whether the clipboard accepted the write,
      or the firing of a reset timer scheduled by a successful copy. */
  datatype CopyEvent = CopyClick(clipboardAccepts: bool) | TimerFire

  /** The button's label and the number of reset timers not yet fired. */
  datatype CopyState = CopyState(text: string, pendingTimers: nat)

  const COPY_START: CopyState := CopyState(COPY_LABEL, 0)

  /** A timer can only fire when one is pending. */
  predicate Enabled(s: CopyState, e: CopyEvent)
  {
    e.TimerFire? ==> s.pendingTimers > 0
  }

  function CopyStep(s: CopyState, e: CopyEvent): CopyState
    requires Enabled(s, e)
  {
    match e
    case CopyClick(accepted) =>
      if accepted then CopyState(COPIED_LABEL, s.pendingTimers + 1) else s
    case TimerFire => CopyState(COPY_LABEL, s.pendingTimers - 1)
  }

  /** The label is one of the two strings, and it reads "Copied!" only while
      a reset timer is pending. */
  predicate LabelInvariant(s: CopyState)
  {
    (s.text == COPY_LABEL || s.text == COPIED_LABEL)
    && (s.text == COPIED_LABEL ==> s.pendingTimers > 0)
  }

  /** Every event of the sequence can happen when it arrives. */
  predicate Feasible(s: CopyState, events: seq<CopyEvent>)
    decreases |events|
  {
    events == [] || (Enabled(s, events[0]) && Feasible(CopyStep(s, events[0]), events[1..]))
  }

  function CopyRun(s: CopyState, events: seq<CopyEvent>): CopyState
    requires Feasible(s, events)
    decreases |events|
  {
    if events == [] then s else CopyRun(CopyStep(s, events[0]), events[1..])
  }

  /** Number of successful copies in a sequence of events. */
  function Successes(events: seq<CopyEvent>): nat
  {
    if events == [] then 0
    else (if events[0] == CopyClick(true) then 1 else 0) + Successes(events[1..])
  }

  /** Number of timer firings in a sequence of events. */
  function Fires(events: seq<CopyEvent>): nat
  {
    if events == [] then 0
    else (if events[0] == TimerFire then 1 else 0) + Fires(events[1..])
  }

  /** A successful copy shows "Copied!", a timer firing shows "Copy", and a
      failed copy leaves the label as it was. */
  lemma CopyStepLabels(s: CopyState)
    ensures CopyStep(s, CopyClick(true)).text == COPIED_LABEL
    ensures CopyStep(s, CopyClick(false)) == s
    ensures s.pendingTimers > 0 ==> CopyStep(s, TimerFire).text == COPY_LABEL
  {
  }

  /** The label invariant holds after any feasible sequence of events. */
  lemma {:induction false} CopyRunKeepsInvariant(s: CopyState, events: seq<CopyEvent>)
    requires LabelInvariant(s) && Feasible(s, events)
    ensures LabelInvariant(CopyRun(s, events))
    decreases |events|
  {
    if events != [] {
      CopyRunKeepsInvariant(CopyStep(s, events[0]), events[1..]);
    }
  }

  /** Each successful copy schedules one timer and each firing consumes one. */
  lemma {:induction false} CopyRunPending(s: CopyState, events: seq<CopyEvent>)
    requires Feasible(s, events)
    ensures CopyRun(s, events).pendingTimers + Fires(events) == s.pendingTimers + Successes(events)
    decreases |events|
  {
    if events != [] {
      CopyRunPending(CopyStep(s, events[0]), events[1..]);
    }
  }

  /** However many copies were made, once every timer they scheduled has
      fired the label reads "Copy" again. */
  lemma CopyLabelSettles(events: seq<CopyEvent>)
    requires Feasible(COPY_START, events)
    requires Fires(events) == Successes(events)
    ensures CopyRun(COPY_START, events).text == COPY_LABEL
  {
    CopyRunKeepsInvariant(COPY_START, events);
    CopyRunPending(COPY_START, events);
  }

  /** The copy button added next to one code block. */
  class CopyButton {
    const code: string
    var text: string
    var pendingTimers: nat

    function State(): CopyState
      reads this
    {
      CopyState(text, pendingTimers)
    }

    ghost predicate Valid()
      reads this
    {
      LabelInvariant(State())
    }

    constructor (code: string)
      ensures this.code == code && State() == COPY_START && Valid()
    {
      this.code := code;
      text := COPY_LABEL;
      pendingTimers := 0;
    }

    /** The click handler: write the block's text to the clipboard; on
        success show "Copied!" and schedule the reset. Returns what the
        clipboard received. */
    method OnClick(clipboardAccepts: bool) returns (copied: Option<string>)
      requires Valid()
      modifies this
      ensures Valid()
      ensures State() == CopyStep(old(State()), CopyClick(clipboardAccepts))
      ensures copied == if clipboardAccepts then Some(code) else None
    {
      if clipboardAccepts {
        copied := Some(code);
        text := COPIED_LABEL;
        pendingTimers := pendingTimers + 1;
      } else {
        copied := None;
      }
    }

    /** The reset timer's callback. */
    method OnTimer()
      requires Valid() && pendingTimers > 0
      modifies this
      ensures Valid()
      ensures State() == CopyStep(old(State()), TimerFire)
    {
      text := COPY_LABEL;
      pendingTimers := pendingTimers - 1;
    }
  }

  /** addBasicGuideFeatures: one fresh button labelled "Copy" per code block,
      in document order. */
  method AddBasicGuideFeatures(codeBlocks: seq<string>) returns (buttons: seq<CopyButton>)
    ensures |buttons| == |codeBlocks|
    ensures forall i :: 0 <= i < |buttons| ==>
              fresh(buttons[i]) && buttons[i].code == codeBlocks[i]
              && buttons[i].State() == COPY_START && buttons[i].Valid()
  {
    buttons := [];
    var i := 0;
    while i < |codeBlocks|
      invariant 0 <= i <= |codeBlocks| && |buttons| == i
      invariant forall j :: 0 <= j < i ==>
                  fresh(buttons[j]) && buttons[j].code == codeBlocks[j]
                  && buttons[j].State() == COPY_START && buttons[j].Valid()
    {
      var button := new CopyButton(codeBlocks[i]);
      buttons := buttons + [button];
      i := i + 1;
    }
  }
}
