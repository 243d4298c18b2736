/** The page as plain data: navigation links, the key of the current page,
    the mount points of the document and the class flags of a mobile menu.
    The three scripts share these. */
module Page {
  import opened JsString

  datatype Option<T> = None | Some(value: T)

  /** A navigation anchor: its href attribute (None when the element has none,
      so that getAttribute returns null) and whether its class list holds
      "active". */
  datatype Link = Link(href: Option<string>, active: bool)

  /** The key of the site's home page. */
  const HOME_KEY: string := "index.html"

  /** The last '/'-separated segment of a pathname: pathname.split('/').pop(). */
  function LastSegment(pathname: string): string
  {
    var parts := Split(pathname, '/');
    parts[|parts| - 1]
  }

  /** The key of the current page: the last segment of the pathname, or the
      home key when that segment is empty (`... .pop() || 'index.html'`). */
  function PageKey(pathname: string): (key: string)
    ensures key != [] && '/' !in key
  {
    var seg := LastSegment(pathname);
    if seg == [] then HOME_KEY else seg
  }

  /** The page key is the home key when the pathname is empty or ends with
      '/' (and also when the pathname ends in "/index.html"); otherwise it is
      the text after the last '/' (the whole pathname when it has none). */
  lemma PageKeyIsTextAfterLastSlash(pathname: string)
    ensures var key := PageKey(pathname);
            if pathname == [] || pathname[|pathname| - 1] == '/' then key == HOME_KEY
            else
              |key| <= |pathname| && pathname[|pathname| - |key|..] == key
              && (|key| == |pathname| || pathname[|pathname| - |key| - 1] == '/')
  {
    SplitLast(pathname, '/');
  }

  /** On a page `/dir/page` the key is the file name `page`: the directory
      plays no part in it. */
  lemma PageKeyOfFileInDirectory(dir: string, page: string)
    requires '/' !in dir && '/' !in page && page != []
    ensures PageKey("/" + dir + "/" + page) == page
  {
    SplitLast(page, '/');
    SplitAtSeparator(dir, page, '/');
    SplitAtSeparator("", dir + "/" + page, '/');
    assert "/" + dir + "/" + page == "" + "/" + (dir + "/" + page);
  }

  /** The document's mount points, by element id, with their current content
      (innerHTML). An id that is not a key has no element in the document. */
  type Mounts = map<string, string>

  const HEADER_ID: string := "header"
  const FOOTER_ID: string := "footer"

  /** What fetching a fragment gives: the request fails outright, or a
      response arrives with its ok flag and its body text (None when reading
      the body fails). */
  datatype Fetched = NetworkError | Response(ok: bool, body: Option<string>)

  /** The fetch produced an ok response whose body could be read. */
  predicate Delivered(fetched: Fetched)
  {
    fetched.Response? && fetched.ok && fetched.body.Some?
  }

  /** The "active" class flags of a menu's navigation element and of the
      button that opens it. */
  datatype MenuFlags = MenuFlags(navActive: bool, buttonActive: bool)

  /** classList.toggle('active') on both elements. */
  function Toggled(f: MenuFlags): (g: MenuFlags)
    ensures g.navActive != f.navActive && g.buttonActive != f.buttonActive
  {
    MenuFlags(!f.navActive, !f.buttonActive)
  }

  /** Both elements agree on being open. */
  predicate InSync(f: MenuFlags)
  {
    f.navActive == f.buttonActive
  }

  /** Toggling keeps the flags in step, and toggling twice restores them. */
  lemma ToggledTwice(f: MenuFlags)
    ensures InSync(Toggled(f)) == InSync(f)
    ensures Toggled(Toggled(f)) == f
  {
  }
}
