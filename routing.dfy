/** refreshCurrentPage: which renderer runs is decided by the last segment
    of the location's path (script.js:215-222). */
module Routing {

  datatype Page = Home | Explore | Save | AddBook | BookDetail

  datatype Route = Render(page: Page) | NoRenderer

  /** pathname.split("/").pop(): what follows the last '/', or the whole
      path when it has none. */
  function LastSegment(path: string): (r: string)
    ensures '/' !in r
    ensures |r| <= |path| && r == path[|path| - |r|..]
    ensures |r| < |path| ==> path[|path| - |r| - 1] == '/'
  {
    if path == [] then []
    else if path[|path| - 1] == '/' then []
    else
      var r := LastSegment(path[..|path| - 1]);
      assert path[..|path| - 1][|path| - 1 - |r|..] + [path[|path| - 1]] == path[|path| - |r| - 1..];
      r + [path[|path| - 1]]
  }

  /** The renderer for a last segment: "home.html" or nothing is Home. */
  function RouteFor(segment: string): Route
  {
    if segment == "home.html" || segment == "" then Render(Home)
    else if segment == "explore.html" then Render(Explore)
    else if segment == "save.html" then Render(Save)
    else if segment == "add_book.html" then Render(AddBook)
    else if segment == "book_detail.html" then Render(BookDetail)
    else NoRenderer
  }

  /** refreshCurrentPage's dispatch. */
  function Dispatch(path: string): Route
  {
    RouteFor(LastSegment(path))
  }

  /** The file each page is served from, the one the navigation targets. */
  function FileOf(page: Page): string
  {
    match page
    case Home => "home.html"
    case Explore => "explore.html"
    case Save => "save.html"
    case AddBook => "add_book.html"
    case BookDetail => "book_detail.html"
  }

  /** The directories in front of the file do not matter: a path ending in
      "/" and a segment is dispatched on that segment alone. */
  lemma {:induction false} LastSegmentOfJoin(dir: string, segment: string)
    requires '/' !in segment
    ensures LastSegment(dir + "/" + segment) == segment
  {
    var path := dir + "/" + segment;
    if segment == [] {
      assert path[|path| - 1] == '/';
    } else {
      var n := |segment| - 1;
      assert path[|path| - 1] == segment[n];
      assert path[..|path| - 1] == dir + "/" + segment[..n];
      assert segment[n] != '/';
      LastSegmentOfJoin(dir, segment[..n]);
      assert segment == segment[..n] + [segment[n]];
    }
  }

  /** Navigating to a page's file under any directory renders that page,
      and a path ending in '/' renders Home. */
  lemma DispatchFinds(dir: string, page: Page)
    ensures Dispatch(dir + "/" + FileOf(page)) == Render(page)
    ensures Dispatch(dir + "/") == Render(Home)
  {
    LastSegmentOfJoin(dir, FileOf(page));
    LastSegmentOfJoin(dir, "");
    assert dir + "/" + "" == dir + "/";
  }

  /** A path is dispatched to a renderer exactly when its last segment is
      one of the five page files or empty. */
  lemma DispatchTotal(path: string)
    ensures Dispatch(path).NoRenderer? <==>
      LastSegment(path) !in {"", "home.html", "explore.html", "save.html", "add_book.html", "book_detail.html"}
  {
  }
}
