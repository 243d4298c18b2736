/** The decision logic of js/main.js: loading the header and footer
    fragments, marking the active navigation link once the header is in, and
    building the index of a guide's sections. */
module MainScript {
  import opened JsString
  import opened Page

  // ---------------------------------------------------------------------
  // Fragment loading (loadComponent and the DOMContentLoaded handler)
  // ---------------------------------------------------------------------

  /** The mounts after a load, and whether it went on to initializeNavigation. */
  datatype Loaded = Loaded(mounts: Mounts, navigationInitialized: bool)

  /** loadComponent(id, path) given what the fetch of path produced: a
      delivered body replaces the mount's content and, for the header,
      navigation is initialized next. Every failure, including a missing
      mount, is caught and logged: no fallback, nothing changes. */
  function LoadComponent(mounts: Mounts, id: string, fetched: Fetched): (r: Loaded)
    ensures r.mounts.Keys == mounts.Keys
    ensures forall k :: k in mounts && k != id ==> r.mounts[k] == mounts[k]
    ensures id in mounts ==> r.mounts[id] == if Delivered(fetched) then fetched.body.value else mounts[id]
    ensures r.navigationInitialized <==> id == HEADER_ID && id in mounts && Delivered(fetched)
  {
    if Delivered(fetched) && id in mounts then
      Loaded(mounts[id := fetched.body.value], id == HEADER_ID)
    else
      Loaded(mounts, false)
  }

  /** The two loads started on DOMContentLoaded are not awaited and may
      complete in either order; both orders give the same mounts, and
      navigation is initialized in both exactly when the header load
      succeeded. A footer load never initializes navigation. */
  lemma LoadOrderIrrelevant(mounts: Mounts, header: Fetched, footer: Fetched)
    ensures var h1 := LoadComponent(mounts, HEADER_ID, header);
            var f1 := LoadComponent(h1.mounts, FOOTER_ID, footer);
            var f2 := LoadComponent(mounts, FOOTER_ID, footer);
            var h2 := LoadComponent(f2.mounts, HEADER_ID, header);
            f1.mounts == h2.mounts
            && !f1.navigationInitialized && !f2.navigationInitialized
            && h1.navigationInitialized == h2.navigationInitialized
            && (h1.navigationInitialized <==> HEADER_ID in mounts && Delivered(header))
  {
    var h1 := LoadComponent(mounts, HEADER_ID, header);
    var f1 := LoadComponent(h1.mounts, FOOTER_ID, footer);
    var f2 := LoadComponent(mounts, FOOTER_ID, footer);
    var h2 := LoadComponent(f2.mounts, HEADER_ID, header);
    assert f1.mounts.Keys == h2.mounts.Keys;
    assert forall k :: k in f1.mounts ==> f1.mounts[k] == h2.mounts[k];
  }

  // ---------------------------------------------------------------------
  // Active-link highlighting (initializeNavigation)
  // ---------------------------------------------------------------------

  /** A link is marked when its href is the page key, or when the page is
      the home page and the href is "#". A link without href never is. */
  predicate LinkMatches(href: Option<string>, key: string)
  {
    href == Some(key) || (key == HOME_KEY && href == Some("#"))
  }

  /** On the home page, reached as an empty pathname, one ending in '/' or
      one ending in "/index.html", both the "index.html" link and the "#"
      link are marked; elsewhere "#" never is. */
  lemma HomePageMarksHash(pathname: string)
    requires pathname == [] || pathname[|pathname| - 1] == '/'
             || PageKey(pathname) == HOME_KEY
    ensures LinkMatches(Some("#"), PageKey(pathname))
    ensures LinkMatches(Some(HOME_KEY), PageKey(pathname))
  {
    PageKeyIsTextAfterLastSlash(pathname);
  }

  /** "#" matches only on the home page. The key "#" itself is excluded at no
      cost: location.pathname never holds a literal '#' (that starts the
      hash), so no page key is "#". */
  lemma HashOnlyOnHomePage(key: string)
    requires key != HOME_KEY && key != "#"
    ensures !LinkMatches(Some("#"), key)
  {
  }

  /** navLinks.forEach(...): every link matching the key of the current page
      gets "active"; no link loses it, and the others are untouched. */
  method InitializeNavigation(links: array<Link>, pathname: string)
    modifies links
    ensures forall i :: 0 <= i < links.Length ==>
              links[i].href == old(links[i].href)
              && links[i].active == (old(links[i].active) || LinkMatches(old(links[i].href), PageKey(pathname)))
  {
    var key := PageKey(pathname);
    var i := 0;
    while i < links.Length
      invariant 0 <= i <= links.Length
      invariant forall j :: 0 <= j < i ==>
                  links[j].href == old(links[j].href)
                  && links[j].active == (old(links[j].active) || LinkMatches(old(links[j].href), key))
      invariant forall j :: i <= j < links.Length ==> links[j] == old(links[j])
    {
      if LinkMatches(links[i].href, key) {
        links[i] := links[i].(active := true);
      }
      i := i + 1;
    }
  }

  // ---------------------------------------------------------------------
  // Section index (highlightCurrentSection)
  // ---------------------------------------------------------------------

  /** A ".guide-section" element: its id and the text of its first h3, if
      it has one. */
  datatype Section = Section(id: string, heading: Option<string>)

  /** An anchor of the generated navigation. */
  datatype Anchor = Anchor(href: string, text: string)

  /** The positions of the sections that have an h3, in increasing order. */
  function Headed(sections: seq<Section>): (idx: seq<nat>)
    ensures |idx| <= |sections|
    ensures forall k :: 0 <= k < |idx| ==> idx[k] < |sections| && sections[idx[k]].heading.Some?
    ensures forall k, l :: 0 <= k < l < |idx| ==> idx[k] < idx[l]
    ensures forall i :: 0 <= i < |sections| && sections[i].heading.Some? ==> i in idx
  {
    if sections == [] then []
    else
      var n := |sections| - 1;
      var rest := Headed(sections[..n]);
      assert forall i :: 0 <= i < n ==> sections[..n][i] == sections[i];
      if sections[n].heading.Some? then rest + [n] else rest
  }

  /** The anchor generated for a section with an h3. */
  function Entry(section: Section): Anchor
    requires section.heading.Some?
  {
    Anchor("#" + section.id, section.heading.value)
  }

  /** The generated navigation: one anchor per section with an h3, in the
      order of the sections. */
  function SectionIndex(sections: seq<Section>): seq<Anchor>
  {
    var idx := Headed(sections);
    seq(|idx|, k requires 0 <= k < |idx| => Entry(sections[idx[k]]))
  }

  /** Each anchor links to "#" followed by its section's id and shows that
      section's heading text; there is one per section with an h3, in order,
      and never more anchors than sections. */
  lemma SectionIndexEntries(sections: seq<Section>)
    ensures var r := SectionIndex(sections);
            |r| <= |sections|
            && (forall k :: 0 <= k < |r| ==>
                  exists i :: 0 <= i < |sections| && sections[i].heading == Some(r[k].text)
                              && r[k].href == "#" + sections[i].id)
            && (forall i :: 0 <= i < |sections| && sections[i].heading.Some? ==>
                  Entry(sections[i]) in r)
  {
    var r := SectionIndex(sections);
    var idx := Headed(sections);
    forall k | 0 <= k < |r|
      ensures exists i :: 0 <= i < |sections| && sections[i].heading == Some(r[k].text)
                          && r[k].href == "#" + sections[i].id
    {
      var i := idx[k];
      assert sections[i].heading == Some(r[k].text) && r[k].href == "#" + sections[i].id;
    }
    forall i | 0 <= i < |sections| && sections[i].heading.Some?
      ensures Entry(sections[i]) in r
    {
      var k :| 0 <= k < |idx| && idx[k] == i;
      assert r[k] == Entry(sections[i]);
    }
  }

  /** Sections without an h3 contribute nothing, and the index of a
      sequence of sections extended by one more is extended by that
      section's anchor when it has an h3. */
  lemma SectionIndexSnoc(sections: seq<Section>, s: Section)
    ensures SectionIndex(sections + [s]) ==
              SectionIndex(sections) + (if s.heading.Some? then [Entry(s)] else [])
  {
    var all := sections + [s];
    assert all[..|sections|] == sections;
    var idx := Headed(sections);
    var r := SectionIndex(all);
    var expected := SectionIndex(sections) + (if s.heading.Some? then [Entry(s)] else []);
    assert |r| == |expected|;
    forall k | 0 <= k < |r|
      ensures r[k] == expected[k]
    {
      if k < |idx| {
        assert Headed(all)[k] == idx[k];
        assert all[idx[k]] == sections[idx[k]];
      }
    }
  }

  /** highlightCurrentSection: build the navigation section by section; it
      is inserted only when the page has a ".guide-content" element.
      Returns the inserted navigation, if any. */
  method HighlightCurrentSection(sections: seq<Section>, guideContentPresent: bool)
    returns (inserted: Option<seq<Anchor>>)
    ensures inserted == if guideContentPresent then Some(SectionIndex(sections)) else None
  {
    var nav: seq<Anchor> := [];
    var i := 0;
    while i < |sections|
      invariant 0 <= i <= |sections|
      invariant nav == SectionIndex(sections[..i])
    {
      assert sections[..i + 1] == sections[..i] + [sections[i]];
      SectionIndexSnoc(sections[..i], sections[i]);
      if sections[i].heading.Some? {
        nav := nav + [Entry(sections[i])];
      }
      i := i + 1;
    }
    assert sections[..i] == sections;
    if guideContentPresent {
      inserted := Some(nav);
    } else {
      inserted := None;
    }
  }
}
