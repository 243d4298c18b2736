# Website guide hub page scripts, modelled in Dafny

The site's three browser scripts do three things. They load a shared header and
footer fragment into mount points, with a fallback header. They mark the
navigation link of the current page as active. They also drive small pieces of
interface state: a mobile menu, copy buttons on code blocks, a header that
restyles itself on scroll, and an index of a guide's sections. This project
models only the decision logic of those scripts. The page is plain data:

- links are `Link(href, active)` values in an array, the way `forEach` updates them in place;
- mount points are a map from element id to content (`Page.Mounts`);
- a fetch result is an input (`Page.Fetched`);
- a menu is two "active" flags (`Page.MenuFlags`);
- scroll offsets and window widths are numbers passed to the handlers;
- timer firings and clipboard outcomes are explicit events.

Modules, one per file:

- `jsstring.dfy`, `JsString`: the JavaScript built-ins the scripts call (`includes`, `replace` with a string pattern, first occurrence only, and `split` on one character), plus `indexOf`, the search `includes` is defined by, and `join`, the inverse of `split` used in the proofs. It proves that split and join are inverse to each other and that the last piece of a split is the text after the last separator.
- `page.dfy`, `Page`: the data shared by the scripts, and the page key. The key is `pathname.split('/').pop() || 'index.html'`. `js/guides.js:69` and `js/main.js:31` compute it with the same expression, and the model defines it once.
- `guides.js` becomes `GuidesScript` in `guides.dfy`:
  - the fragment loader with the fallback header, and the start-up sequence up to navigation;
  - highlighting, including the case where a link without an `href` makes the loop throw;
  - the mobile menu, as a state machine (`MenuStep`) and as a class (`MobileMenu`);
  - the copy-button label machine, as a state machine and as a class (`CopyButton`).
- `main.js` becomes `MainScript` in `main.dfy`: the loader, which initializes navigation only after the header loads successfully; exact and `#` highlighting; and the section index builder.
- `navigation.js` becomes `NavigationScript` in `navigation.dfy`: the `Navigation` class with its scroll presets and menu-button toggle.

Behaviours of the scripts worth knowing, each proved in the model:

- Several links can be active at once: the loose rule of `js/guides.js:76` marks two links on the page with key `guide.html` (`GuidesScript.LooseRuleMarksSeveralLinks`).
- On `/guides/ecommerce.html` the link `guides/ecommerce.html` is not marked: the key is `ecommerce.html`, which lacks `"guide"`, so only an href equal to `ecommerce.html` matches (`GuidesScript.GuidePageLinkNotMarked`).
- The loose rule marks a link when its href contains the page key with the first `".html"` removed, and only when the key contains `"guide"` (`GuidesScript.LinkMatchesCases`).
- A failed load of a mount other than the header keeps its old content (`GuidesScript.LoadComponent`).
- A link click at a mobile width closes the menu whether or not it is open (`GuidesScript.MenuStepEffects`).
- The toggle button starts inactive, while the navigation element keeps whatever classes the header markup gave it (`GuidesScript.MobileMenu.constructor`).

## Model

| member | source | states |
|---|---|---|
| `JsString.IndexOf` | js/guides.js:76 | result is -1 exactly when the pattern occurs nowhere; otherwise the pattern occurs there and at no earlier index |
| `JsString.Includes` | js/guides.js:76 | `includes` is true iff the pattern occurs at some index |
| `JsString.ReplaceFirst` | js/guides.js:76 | for a replacement without `$`: without an occurrence the string is returned unchanged; otherwise the length changes by the difference between the replacement and the pattern (where the replacement goes is stated by `ReplaceFirstUndone`) |
| `JsString.ReplaceFirstUndone` | js/guides.js:76 | the replacement stands at the first occurrence, putting the pattern back there restores the string, and there is no occurrence before that point (only the first occurrence is replaced) |
| `JsString.ReplaceFirstOfSuffix` | js/guides.js:76 | for `stem.html` with no '.' in the stem, removing `".html"` gives the stem |
| `JsString.Split` | js/guides.js:69 | split returns at least one piece, and no piece contains the separator |
| `JsString.JoinSplit` | js/guides.js:69 | joining the pieces of a split restores the string |
| `JsString.SplitJoin` | js/guides.js:69 | splitting a non-empty sequence of pieces that contain no separator, once joined, gives those pieces back |
| `JsString.SplitLast` | js/guides.js:69 | the popped piece is the suffix after the last separator, or the whole string when there is none; there is one piece iff the separator is absent |
| `Page.PageKey` | js/guides.js:69 | the page key is never empty and never contains '/' |
| `Page.PageKeyIsTextAfterLastSlash` | js/guides.js:69 | the key is `index.html` for an empty pathname or one ending in '/'; otherwise it is the text after the last '/' |
| `Page.PageKeyOfFileInDirectory` | js/main.js:31 | the key of `/dir/page` is `page` |
| `Page.Toggled` | js/guides.js:91-94 | toggling flips both the navigation flag and the button flag |
| `Page.ToggledTwice` | js/navigation.js:30-33 | toggling keeps equal flags equal, and two toggles restore the state |
| `GuidesScript.LoadComponent` | js/guides.js:24-39 | a delivered body becomes the mount's content; any failure on the header writes the fallback markup; a failure on any other mount leaves it unchanged; no other mount changes; the load rejects only for the header when there is no header element |
| `GuidesScript.InitializeAppReachesNavigation` | js/guides.js:6-21 | in `InitializeApp`, navigation is initialized iff the page has a header element, whatever the settled fetches give; the header then holds the body or the fallback markup, and the footer holds its body or its previous content |
| `GuidesScript.LinkMatchesCases` | js/guides.js:74-76 | for the predicate `LinkMatches`, the `index.html` disjunct adds no match; without `"guide"` in the key a link matches iff its href equals the key |
| `GuidesScript.FirstThrow` | js/guides.js:72-79 | the loop throws at the first link that has no href while the key contains `"guide"`; no link before that point throws |
| `GuidesScript.HighlightOnlyAdds` | js/guides.js:72-79 | hrefs are kept; active links stay active; a link becomes active iff the loop reached it and it matches |
| `GuidesScript.HighlightCompletes` | js/guides.js:72-79 | the loop gets through every link iff the key lacks `"guide"` or every link has an href |
| `GuidesScript.HighlightActive` | js/guides.js:72-79 | the in-place loop leaves the links as `Highlight` describes; it reports completion iff nothing threw |
| `GuidesScript.GuidePageLinkNotMarked` | js/guides.js:69-76 | on `/guides/ecommerce.html` the key is `ecommerce.html`, and the link `guides/ecommerce.html` is not marked |
| `GuidesScript.LooseRuleMarksEveryLinkWithStem` | js/guides.js:76 | with key `stem.html`, where the stem contains `"guide"` and no '.', every link whose href contains the stem is marked |
| `GuidesScript.LooseRuleMarksSeveralLinks` | js/guides.js:72-79 | the key `guide.html` marks both `guides/blog.html` and `guides/portfolio.html` |
| `GuidesScript.MenuStepEffects` | js/guides.js:91-113 | for the state machine `MenuStep`: a link click at width ≤ 768 or a resize at width > 768 closes both flags; the same events at the other widths change nothing; a toggle flips both flags, two toggles restore them, and equal flags stay equal |
| `GuidesScript.MenuRunKeepsSync` | js/guides.js:91-113 | when a navigation element exists, flags that start equal stay equal under any sequence of events |
| `GuidesScript.MenuScenario` | js/guides.js:91-113 | from closed: a toggle opens, a second toggle closes, and a resize to 1024 closes an open menu |
| `GuidesScript.MobileMenu.constructor` | js/guides.js:82-85 | the toggle button is created inactive |
| `GuidesScript.MobileMenu.OnToggleClick` | js/guides.js:91-94 | the flags after a click are `MenuStep(.., ToggleClick)` of the flags before |
| `GuidesScript.MobileMenu.OnLinkClick` | js/guides.js:97-104 | the flags after a link click are `MenuStep(.., LinkClick(width))` of the flags before |
| `GuidesScript.MobileMenu.OnResize` | js/guides.js:107-113 | the flags after a resize are `MenuStep(.., Resize(width))` of the flags before |
| `GuidesScript.InitializeNavigation` | js/guides.js:67-114 | links are highlighted for the pathname's key; a menu is created iff the loop did not throw, with the toggle button inactive |
| `GuidesScript.CopyStepLabels` | js/guides.js:199-208 | for the state machine `CopyStep`: a successful copy shows "Copied!", a timer firing shows "Copy", and a failed copy leaves the label unchanged |
| `GuidesScript.CopyRunKeepsInvariant` | js/guides.js:197-208 | after any feasible sequence of events the label is "Copy" or "Copied!", and it is "Copied!" only while a reset timer is pending |
| `GuidesScript.CopyRunPending` | js/guides.js:199-205 | pending timers plus fired timers equals the initial pending count plus the successful copies |
| `GuidesScript.CopyLabelSettles` | js/guides.js:197-208 | once every timer scheduled by the copies has fired, the label is "Copy" again |
| `GuidesScript.CopyButton.constructor` | js/guides.js:195-197 | a new button reads "Copy" and has no pending timer |
| `GuidesScript.CopyButton.OnClick` | js/guides.js:199-209 | the state after a click is `CopyStep(.., CopyClick(ok))` of the state before; on success the clipboard receives the code block's text |
| `GuidesScript.CopyButton.OnTimer` | js/guides.js:203-205 | the timer callback sets the label back to "Copy" and uses up one pending timer |
| `GuidesScript.AddBasicGuideFeatures` | js/guides.js:190-214 | one fresh button per code block, in order, each reading "Copy" and holding that block's text |
| `MainScript.LoadComponent` | js/main.js:8-26 | a delivered body becomes the mount's content, and a failure changes nothing; no other mount changes; navigation is initialized iff a header load succeeded into an existing mount |
| `MainScript.LoadOrderIrrelevant` | js/main.js:2-5 | the header and footer loads give the same mount contents whichever completes first; a footer load never initializes navigation |
| `MainScript.HomePageMarksHash` | js/main.js:31-36 | on the home page (empty pathname, one ending in '/', or key `index.html`) both `#` and `index.html` are marked |
| `MainScript.HashOnlyOnHomePage` | js/main.js:36 | for the predicate `LinkMatches`: away from the home page, `#` is never marked |
| `MainScript.InitializeNavigation` | js/main.js:29-40 | each link becomes active iff it was active or matches the key (exact href, or `#` on the home page); hrefs are kept and no link loses `active` |
| `MainScript.Headed` | js/main.js:48-50 | the positions of the sections that have an h3, strictly increasing, covering every such section, and no more of them than there are sections |
| `MainScript.SectionIndexEntries` | js/main.js:48-56 | the index built by `SectionIndex` is no longer than the sections; each entry is `#` + id with the heading text of some section; every section with an h3 has its entry |
| `MainScript.SectionIndexSnoc` | js/main.js:48-56 | appending a section appends its entry when it has an h3, and nothing otherwise (order is kept) |
| `MainScript.HighlightCurrentSection` | js/main.js:43-61 | the loop builds exactly `SectionIndex(sections)`, which is inserted iff a `.guide-content` element exists |
| `NavigationScript.ScrollPreset` | js/navigation.js:15-21 | only two (background, filter) pairs are ever chosen |
| `NavigationScript.ScrollPresetThreshold` | js/navigation.js:15-21 | an offset above 100 selects the translucent style with `blur(10px)`; any offset ≤ 100, including exactly 100, selects the gradient with `none`; the two presets differ in both properties |
| `NavigationScript.ClicksParity` | js/navigation.js:25-35 | after n clicks the flags are toggled iff n is odd and both the button and the list exist; without a menu button nothing ever changes; equal flags stay equal |
| `NavigationScript.Navigation.constructor` | js/navigation.js:3-10 | building the object attaches handlers and changes no style and no class |
| `NavigationScript.Navigation.OnScroll` | js/navigation.js:12-22 | with a header present, the style becomes `ScrollPreset(scrollY)`; without one, nothing changes; the menu flags never change |
| `NavigationScript.Navigation.OnMenuButtonClick` | js/navigation.js:25-35 | the flags become `MenuClick` of the old flags, and the header style is kept |

## Left out

- Network I/O. `fetch` and `response.text()` are not modelled; their result is the input `Fetched` (network error, or a response with its ok flag and a body that may fail to be read). `makeApiCall` (js/guides.js:237-254) is unused network plumbing and is not modelled.
- A fetch that never settles is not modelled. In js/guides.js a hung header or footer fetch stops `initializeApp` before `initializeNavigation`, and the header gets no fallback. In js/main.js a hung load leaves its mount unchanged.
- `loadGuidesFeatures` (js/guides.js:170-187) is not modelled. It loads a script that is not part of this model and then checks for a global `GuidesManager`. `AddBasicGuideFeatures`, its fallback, is modelled.
- Cosmetic effects are not modelled: `initializePageSpecificFeatures` with smooth scrolling, the category-card transforms, and the loading-animation style (js/guides.js:117-167, 216-234). The toggle button's glyph and hidden display (js/guides.js:83-85) are left out too.
- `GuidesScript.InitializeApp` stops at the point where `initializeNavigation` is reached. The calls that follow it in `initializeApp` are the cosmetic features and the guide script above.
- Also left out: a throw inside `initializeNavigation` (the forEach at js/guides.js:72-79) ends in the catch at js/guides.js:18-20. `GuidesScript.InitializeNavigation` models the throw, but `InitializeApp` is not connected to it.
- Timers have no timing semantics: the 150 ms and 2000 ms delays are not modelled. A firing is an explicit event, and it can only occur while a timer is pending.
- The clipboard is a boolean input: whether `writeText` succeeded.
- `FALLBACK_HEADER` is one constant string holding the logo link and the five list items, each after its literal "// " text. The indentation and line breaks of the markup are not reproduced. The links it holds are not parsed out of the string.
- DOM querying is replaced by data. The links are the `nav a` elements present once the header is in, given as an array. Whether an element exists (nav, menu button, `nav ul`, header, `.guide-content`) is a boolean. Which element an inserted node goes before is not modelled: `HighlightCurrentSection` returns the generated navigation it inserts.
- Event dispatch and concurrency are not modelled. Handlers run one at a time, in arrival order. The two unawaited loads of js/main.js:3-4 are covered by proving that both completion orders give the same mount contents.
- Which links `initializeNavigation` of js/main.js highlights can depend on the order in which the two loads complete. It queries `nav a` across the whole document, so links inside the footer are seen only when the footer arrived first. In the model the links are an input, unrelated to the mounts.
- The `module.exports` block (js/guides.js:257-259) and the `DOMContentLoaded` wiring (js/navigation.js:39-41) are not modelled.
- Strings are sequences of Unicode code points, so indices and lengths count code points, not the UTF-16 code units JavaScript counts. No decision of the scripts depends on an index: `includes`, the `.html` replace and the split on '/' give the same answers.
- `JsString.ReplaceFirst` inserts the replacement literally and requires it to hold no '$'. It does not model the `$&`, `$$`, `` $` `` and `$'` patterns that `replace` expands; the scripts only pass the empty replacement.
