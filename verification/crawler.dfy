/**
 * `get_category_members`: the titles of a category, read page by page from the
 * category-members query. Each response lists some titles and, while more remain,
 * a continuation cursor that the next request echoes back.
 */
module Crawler {
  import opened Wrappers

  /** The answer to one category-members request. */
  datatype PageResponse =
    | Page(titles: seq<string>, cont: Option<string>)  // a decoded page; `cont` is its `continue` cursor
    | PageFailed                                       // the request or its decoding raised

  /** A failed page request: the category and the cursor that request carried. */
  datatype CrawlError = CrawlError(category: string, cursor: Option<string>)

  /**
   * `get_category_members(category, cmcontinue)`: `pages` are the responses to this
   * request and to the ones that follow it, in order. The titles of a page are followed
   * by those of the next page while the page carries a cursor; a request that fails, or
   * that has no response, stops the crawl with an error.
   */
  function CategoryMembers(category: string, pages: seq<PageResponse>, cursor: Option<string>)
    : (r: Result<seq<string>, CrawlError>)
    ensures r.Failure? ==> r.error.category == category
    decreases |pages|
  {
    if pages == [] then
      Failure(CrawlError(category, cursor))
    else
      match pages[0]
      case PageFailed => Failure(CrawlError(category, cursor))
      case Page(titles, None) => Success(titles)
      case Page(titles, Some(next)) =>
        match CategoryMembers(category, pages[1..], Some(next))
        case Failure(e) => Failure(e)
        case Success(rest) => Success(titles + rest)
  }

  /** Every page before `k` is a decoded page with a cursor. */
  ghost predicate ContinuesBefore(pages: seq<PageResponse>, k: int)
  {
    0 <= k <= |pages| && forall j :: 0 <= j < k ==> pages[j].Page? && pages[j].cont.Some?
  }

  /** Page `k` is the first page without a cursor, and every page before it has one. */
  ghost predicate LastPageAt(pages: seq<PageResponse>, k: int)
  {
    0 <= k < |pages| && ContinuesBefore(pages, k) && pages[k].Page? && pages[k].cont.None?
  }

  /** The titles of the given pages, one page after the other. */
  function AllTitles(pages: seq<PageResponse>): seq<string>
  {
    if pages == [] then []
    else (if pages[0].Page? then pages[0].titles else []) + AllTitles(pages[1..])
  }

  /** The number of titles the given pages list. */
  function TitleCount(pages: seq<PageResponse>): nat
  {
    if pages == [] then 0
    else (if pages[0].Page? then |pages[0].titles| else 0) + TitleCount(pages[1..])
  }

  /** Concatenating the pages' titles loses and adds none. */
  lemma {:induction false} AllTitlesLength(pages: seq<PageResponse>)
    ensures |AllTitles(pages)| == TitleCount(pages)
  {
    if pages != [] {
      AllTitlesLength(pages[1..]);
    }
  }

  /**
   * When page `k` is the first without a cursor, the crawl returns the titles of the
   * pages up to and including `k`, in page order, and ignores everything after it.
   */
  lemma {:induction false} CollectsUpToLastPage(
    category: string, pages: seq<PageResponse>, cursor: Option<string>, k: int)
    requires LastPageAt(pages, k)
    ensures CategoryMembers(category, pages, cursor) == Success(AllTitles(pages[..k + 1]))
    ensures |CategoryMembers(category, pages, cursor).value| == TitleCount(pages[..k + 1])
  {
    AllTitlesLength(pages[..k + 1]);
    if k == 0 {
      var first := pages[..1];
      assert first[0] == pages[0] && first[1..] == [];
      assert AllTitles(first) == pages[0].titles + [];
      assert pages[0].titles + [] == pages[0].titles;
    } else {
      assert LastPageAt(pages[1..], k - 1) by {
        assert forall j :: 0 <= j < k - 1 ==> pages[1..][j] == pages[j + 1];
      }
      CollectsUpToLastPage(category, pages[1..], pages[0].cont, k - 1);
      assert pages[..k + 1][1..] == pages[1..][..k];
    }
  }

  /** A crawl succeeds only when some page without a cursor ends it. */
  lemma {:induction false} SucceedsOnlyAtLastPage(
    category: string, pages: seq<PageResponse>, cursor: Option<string>)
    requires CategoryMembers(category, pages, cursor).Success?
    ensures exists k :: LastPageAt(pages, k)
  {
    if pages[0].cont.Some? {
      SucceedsOnlyAtLastPage(category, pages[1..], pages[0].cont);
      var k :| LastPageAt(pages[1..], k);
      assert forall j :: 0 < j < k + 1 ==> pages[j] == pages[1..][j - 1];
      assert LastPageAt(pages, k + 1);
    } else {
      assert LastPageAt(pages, 0);
    }
  }

  /** The request for page `k` fails: every page before it has a cursor, and page `k` failed or is missing. */
  ghost predicate FailsAt(pages: seq<PageResponse>, k: int)
  {
    ContinuesBefore(pages, k) && (k == |pages| || pages[k].PageFailed?)
  }

  /** The cursor that the request for page `k` carries. */
  function CursorFor(pages: seq<PageResponse>, k: int, cursor: Option<string>): Option<string>
    requires ContinuesBefore(pages, k)
  {
    if k == 0 then cursor else pages[k - 1].cont
  }

  /**
   * A failed crawl names its category and the cursor of the request that failed: the
   * first failed request, or the request for a page after the last response.
   */
  lemma {:induction false} FailureNamesRequest(
    category: string, pages: seq<PageResponse>, cursor: Option<string>)
    requires CategoryMembers(category, pages, cursor).Failure?
    ensures exists k :: (FailsAt(pages, k) &&
      CategoryMembers(category, pages, cursor).error == CrawlError(category, CursorFor(pages, k, cursor)))
  {
    if pages == [] || pages[0].PageFailed? {
      assert FailsAt(pages, 0);
    } else {
      var next := pages[0].cont;
      FailureNamesRequest(category, pages[1..], next);
      var k :| FailsAt(pages[1..], k) &&
        CategoryMembers(category, pages[1..], next).error == CrawlError(category, CursorFor(pages[1..], k, next));
      assert forall j :: 0 < j < k + 1 ==> pages[j] == pages[1..][j - 1];
      assert FailsAt(pages, k + 1);
      assert CursorFor(pages, k + 1, cursor) == CursorFor(pages[1..], k, next);
    }
  }
}
