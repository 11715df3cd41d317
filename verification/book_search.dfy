/** The search hook src/hooks/useBookSearch.ts. Each asynchronous action is split in
    two: starting it (the state set before the `await` and the request sent) and
    finishing it (the state set once the API answered or failed). The API call
    itself is left to the caller, which passes its outcome in. */
module BookSearch {
  import opened Common
  import opened Types

  /** The hook's state, including the query and filters remembered for loadMore. */
  datatype SearchState = SearchState(
    books: seq<Book>,
    loading: bool,
    error: Option<string>,
    hasMore: bool,
    totalCount: int,
    currentPage: int,
    lastQuery: string,
    lastFilters: SearchFilters)

  const Initial := SearchState([], false, None, false, 0, 1, "", NoFilters)

  const SearchFailedMessage := "Failed to search books"
  const IsbnFailedMessage := "Book not found"
  const PageSize := 20

  /** The object handed to `bookAPI.searchBooks`: `{ q, page, limit: 20, ...filters }`.
      Filter members that are present override `page` and `limit`. */
  datatype Params = Params(q: string, page: int, limit: int, filters: SearchFilters)

  /** A search in flight: the arguments searchBooks was called with (the code keeps
      using them after the `await`) and the parameters sent. */
  datatype Request = Request(query: string, filters: SearchFilters, page: int, params: Params)

  datatype Begin = Begin(state: SearchState, request: Option<Request>)

  /** The guard of searchBooks: a blank query and neither a category nor an author
      (an id of 0 counts as none). */
  predicate NothingToSearch(query: string, filters: SearchFilters) {
    Blank(query) && !TruthyNumber(filters.categoryId) && !TruthyNumber(filters.authorId)
  }

  /** clearSearch: back to the state the hook starts in. */
  function ClearSearch(st: SearchState): (r: SearchState)
    ensures r.books == [] && !r.loading && r.error.None? && !r.hasMore
    ensures r.totalCount == 0 && r.currentPage == 1 && r.lastQuery == "" && r.lastFilters == NoFilters
  {
    Initial
  }

  /** The search parameters for a query, filters and page. */
  function SearchParams(query: string, filters: SearchFilters, page: int): (p: Params)
    ensures p.q == Trim(query) && p.filters == filters
    ensures filters.page.None? ==> p.page == page
    ensures filters.limit.None? ==> p.limit == PageSize
    ensures filters.page.Some? ==> p.page == filters.page.value
    ensures filters.limit.Some? ==> p.limit == filters.limit.value
  {
    Params(Trim(query), filters.page.GetOr(page), filters.limit.GetOr(PageSize), filters)
  }

  /** searchBooks up to the `await`: with nothing to search, the search is cleared
      and no request is made; otherwise loading starts, the error is cleared and
      the request goes out with the trimmed query. */
  function StartSearch(st: SearchState, query: string, filters: SearchFilters, page: int): (r: Begin)
    ensures r.request.None? <==> NothingToSearch(query, filters)
    ensures r.request.None? ==> r.state == ClearSearch(st)
    ensures r.request.Some? ==> r.state == st.(loading := true, error := None)
    ensures r.request.Some? ==>
      var q := r.request.value;
      q.query == query && q.filters == filters && q.page == page && q.params == SearchParams(query, filters, page)
  {
    if NothingToSearch(query, filters) then Begin(ClearSearch(st), None)
    else Begin(st.(loading := true, error := None), Some(Request(query, filters, page, SearchParams(query, filters, page))))
  }

  /** A page of results as `bookAPI.searchBooks` returns it. */
  datatype Response = Response(books: seq<Book>, total: int, hasMore: bool)

  /** How the request ended: an answer, or an error carrying the server's message
      (`err.response?.data?.message`), if any. */
  datatype Outcome = Answered(response: Response) | Failed(message: Option<string>)

  /** searchBooks after the `await`. An answer to page 1 replaces the list and an
      answer to a later page appends to it; either records the totals, the page and
      the query and filters for loadMore. A failure shows the server's message or
      the fallback and, for page 1 only, empties the results; a later page's
      failure keeps what is already shown. Loading always ends. */
  function FinishSearch(st: SearchState, req: Request, outcome: Outcome): (r: SearchState)
    ensures !r.loading
    ensures outcome.Answered? ==>
      (r.books == if req.page == 1 then outcome.response.books else st.books + outcome.response.books) &&
      r.totalCount == outcome.response.total && r.hasMore == outcome.response.hasMore &&
      r.currentPage == req.page && r.lastQuery == req.query && r.lastFilters == req.filters &&
      r.error == st.error
    ensures outcome.Failed? ==> r.error == Some(MessageOr(outcome.message, SearchFailedMessage))
    ensures outcome.Failed? && req.page == 1 ==> r.books == [] && r.totalCount == 0 && !r.hasMore
    ensures outcome.Failed? && req.page != 1 ==>
      r.books == st.books && r.totalCount == st.totalCount && r.hasMore == st.hasMore
    ensures outcome.Failed? ==>
      r.currentPage == st.currentPage && r.lastQuery == st.lastQuery && r.lastFilters == st.lastFilters
  {
    match outcome
    case Answered(resp) =>
      var books := if req.page == 1 then resp.books else st.books + resp.books;
      st.(books := books, totalCount := resp.total, hasMore := resp.hasMore, currentPage := req.page,
          lastQuery := req.query, lastFilters := req.filters, loading := false)
    case Failed(message) =>
      var st1 := st.(error := Some(MessageOr(message, SearchFailedMessage)));
      var st2 := if req.page == 1 then st1.(books := [], totalCount := 0, hasMore := false) else st1;
      st2.(loading := false)
  }

  /** loadMore: nothing while no more results are announced or a search is loading;
      otherwise the remembered search for the next page. */
  function LoadMore(st: SearchState): (r: Begin)
    ensures !st.hasMore || st.loading ==> r == Begin(st, None)
    ensures st.hasMore && !st.loading && r.request.Some? ==>
      r.request.value.page == st.currentPage + 1 &&
      r.request.value.query == st.lastQuery && r.request.value.filters == st.lastFilters
    ensures st.hasMore && !st.loading ==> (r.request.None? <==> NothingToSearch(st.lastQuery, st.lastFilters))
    ensures r.request.Some? ==> r.state == st.(loading := true, error := None)
    ensures st.hasMore && !st.loading && r.request.None? ==> r.state == ClearSearch(st)
  {
    if !st.hasMore || st.loading then Begin(st, None)
    else StartSearch(st, st.lastQuery, st.lastFilters, st.currentPage + 1)
  }

  /** A load-more in flight blocks the next one: whatever the state, calling loadMore
      again on the state the first call left sends no second request. */
  lemma NoSecondLoadMore(st: SearchState)
    ensures LoadMore(LoadMore(st).state).request.None?
  {
  }

  /** A successful page-1 search is never undone by loadMore: each answered later page
      appends to the books already shown, in order. */
  lemma LoadMoreAppends(st: SearchState, resp: Response)
    requires st.hasMore && !st.loading && LoadMore(st).request.Some?
    requires st.currentPage >= 1
    ensures var b := LoadMore(st);
      FinishSearch(b.state, b.request.value, Answered(resp)).books == st.books + resp.books
  {
  }

  /** One loadMore, answered by `resp` if it sends a request at all. */
  function LoadPage(st: SearchState, resp: Response): SearchState {
    var b := LoadMore(st);
    if b.request.None? then st else FinishSearch(b.state, b.request.value, Answered(resp))
  }

  /** Repeated loadMore calls, answered by the responses in order. */
  function LoadPages(st: SearchState, responses: seq<Response>): SearchState
    decreases |responses|
  {
    if responses == [] then st else LoadPages(LoadPage(st, responses[0]), responses[1..])
  }

  /** The books of a run of pages, in order. */
  function AllBooks(responses: seq<Response>): seq<Book> {
    if responses == [] then [] else responses[0].books + AllBooks(responses[1..])
  }

  /** Every response but the last announces more results. */
  predicate MoreUntilLast(responses: seq<Response>) {
    |responses| <= 1 || (responses[0].hasMore && MoreUntilLast(responses[1..]))
  }

  /** A state in which loadMore sends a request: more results were announced, none
      is loading, and the remembered search is not empty. */
  predicate Scrollable(st: SearchState) {
    st.hasMore && !st.loading && st.currentPage >= 1 && !NothingToSearch(st.lastQuery, st.lastFilters)
  }

  /** One answered loadMore: the page's books are appended, the counter moves on by
      one, the totals come from the answer and the remembered search stays. */
  lemma LoadOnePage(st: SearchState, resp: Response)
    requires Scrollable(st)
    ensures LoadPage(st, resp) == st.(books := st.books + resp.books, totalCount := resp.total,
      hasMore := resp.hasMore, currentPage := st.currentPage + 1, error := None)
  {
  }

  /** The page counter advances once per loaded page. */
  lemma {:induction false} PagesCount(st: SearchState, responses: seq<Response>)
    requires Scrollable(st) && MoreUntilLast(responses)
    ensures LoadPages(st, responses).currentPage == st.currentPage + |responses|
    decreases |responses|
  {
    if responses != [] {
      var first, rest := responses[0], responses[1..];
      var next := LoadPage(st, first);
      LoadOnePage(st, first);
      if rest != [] {
        PagesCount(next, rest);
      }
    }
  }

  /** Each loaded page's books come after the ones already shown. */
  lemma {:induction false} PagesAppend(st: SearchState, responses: seq<Response>)
    requires Scrollable(st) && MoreUntilLast(responses)
    ensures LoadPages(st, responses).books == st.books + AllBooks(responses)
    decreases |responses|
  {
    if responses != [] {
      var first, rest := responses[0], responses[1..];
      var next := LoadPage(st, first);
      LoadOnePage(st, first);
      var tail := AllBooks(rest);
      if rest != [] {
        PagesAppend(next, rest);
      } else {
        assert LoadPages(next, rest) == next;
        AppendEmpty(next.books);
      }
      assert LoadPages(st, responses).books == next.books + tail;
      AppendAssoc(st.books, first.books, tail);
    }
  }

  /** Infinite scrolling: after a search that announced more results, loading page
      after page (each announcing more, except perhaps the last) shows the first
      page's books followed by every later page's books, and the page counter has
      advanced once per page. */
  lemma PagesAccumulate(st: SearchState, responses: seq<Response>)
    requires Scrollable(st) && MoreUntilLast(responses)
    ensures LoadPages(st, responses).books == st.books + AllBooks(responses)
    ensures LoadPages(st, responses).currentPage == st.currentPage + |responses|
  {
    PagesAppend(st, responses);
    PagesCount(st, responses);
  }

  /** With a page in the filters, the page sent to the API is that page, whatever
      page loadMore asks for: the spread of the filters comes after `page`. */
  lemma FilterPageOverridesLoadMore(st: SearchState)
    requires st.hasMore && !st.loading && st.lastFilters.page.Some?
    requires !NothingToSearch(st.lastQuery, st.lastFilters)
    ensures LoadMore(st).request.value.params.page == st.lastFilters.page.value
    ensures LoadMore(st).request.value.page == st.currentPage + 1
  {
  }

  // ---------------------------------------------------------------------------
  // searchByISBN

  /** searchByISBN up to the `await`: a blank code answers `null` at once, leaving
      the state alone; otherwise loading starts and the code is sent as given
      (untrimmed). */
  datatype IsbnBegin = IsbnBegin(state: SearchState, sent: Option<string>)

  function StartIsbnSearch(st: SearchState, isbn: string): (r: IsbnBegin)
    ensures r.sent.None? <==> Blank(isbn)
    ensures r.sent.None? ==> r.state == st
    ensures r.sent.Some? ==> r.sent.value == isbn && r.state == st.(loading := true, error := None)
  {
    if Blank(isbn) then IsbnBegin(st, None)
    else IsbnBegin(st.(loading := true, error := None), Some(isbn))
  }

  /** How `bookAPI.searchByIsbn` ended: an answer carrying a book or not, or an
      error carrying the server's message, if any. */
  datatype IsbnOutcome = Found(book: Option<Book>) | Missing(message: Option<string>)

  datatype IsbnFinish = IsbnFinish(state: SearchState, book: Option<Book>)

  /** searchByISBN after the `await`: the book of an answer, or `null` and an error
      message on failure; loading ends and the search results are not touched. */
  function FinishIsbnSearch(st: SearchState, outcome: IsbnOutcome): (r: IsbnFinish)
    ensures !r.state.loading
    ensures r.state.books == st.books && r.state.totalCount == st.totalCount && r.state.hasMore == st.hasMore
    ensures r.state.currentPage == st.currentPage && r.state.lastQuery == st.lastQuery
    ensures outcome.Found? ==> r.book == outcome.book && r.state.error == st.error
    ensures outcome.Missing? ==> r.book.None? && r.state.error == Some(MessageOr(outcome.message, IsbnFailedMessage))
  {
    match outcome
    case Found(book) => IsbnFinish(st.(loading := false), book)
    case Missing(message) => IsbnFinish(st.(loading := false, error := Some(MessageOr(message, IsbnFailedMessage))), None)
  }

  /** Looking a code up never disturbs the search results on display. */
  lemma IsbnLookupKeepsResults(st: SearchState, isbn: string, outcome: IsbnOutcome)
    ensures var b := StartIsbnSearch(st, isbn);
      var f := FinishIsbnSearch(b.state, outcome);
      f.state.books == st.books && f.state.currentPage == st.currentPage && f.state.lastFilters == st.lastFilters
  {
  }
}
