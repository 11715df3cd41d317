/** The search form src/components/Search/BookSearchForm.tsx: the query box, the
    advanced filters, and the check that runs before `onSearch` is called. The
    search page hands the form's query and filters straight to the search hook, so
    the last lemmas follow a submit through to BookSearch.StartSearch. */
module SearchForm {
  import opened Common
  import opened Types
  import BookSearch

  /** The form's state. */
  datatype Form = Form(query: string, filters: SearchFilters, selectedAuthor: Option<Author>, validationError: Option<string>)

  const EmptyForm := Form("", NoFilters, None, None)

  const TooShortMessage := "Please enter at least 2 characters in the search box or select an advanced filter."

  /** `Object.values(filters).some(v => v !== undefined && v !== '' && v !== null)`:
      some filter member is present, an empty string not counting (a zero id does). */
  predicate HasFilters(f: SearchFilters) {
    (f.query.Some? && f.query.value != "") || f.status.Some? || f.authorId.Some? || f.categoryId.Some? ||
    f.sortBy.Some? || f.page.Some? || f.limit.Some?
  }

  /** What handleSubmit did: the form after it and the `onSearch` call, if any. */
  datatype SubmitStep = SubmitStep(form: Form, search: Option<(string, SearchFilters)>)

  /** handleSubmit: a query of fewer than two characters once trimmed, with no
      filter set, is refused with a message; anything else clears the message and
      searches for the query as typed (untrimmed) with the filters. */
  function Submit(f: Form): (r: SubmitStep)
    ensures r.search.None? <==> |Trim(f.query)| < 2 && !HasFilters(f.filters)
    ensures r.search.None? ==> r.form == f.(validationError := Some(TooShortMessage))
    ensures r.search.Some? ==> r.search.value == (f.query, f.filters) && r.form == f.(validationError := None)
  {
    var hasValidQuery := |Trim(f.query)| >= 2;
    if !hasValidQuery && !HasFilters(f.filters) then SubmitStep(f.(validationError := Some(TooShortMessage)), None)
    else SubmitStep(f.(validationError := None), Some((f.query, f.filters)))
  }

  /** The controls that call handleFilterChange, each with the value it passes:
      the category select passes a parsed id or nothing, the status and sort
      selects their option or nothing for the empty option. */
  datatype FilterEdit =
    | SetCategory(categoryId: Option<int>)
    | SetStatus(status: Option<Status>)
    | SetSortBy(sortBy: Option<SortKey>)
    | SetAuthorId(authorId: Option<int>)

  /** `value || undefined` on a number: 0 becomes undefined. */
  function PresentNumber(n: Option<int>): (r: Option<int>)
    ensures r.Some? <==> TruthyNumber(n)
    ensures r.Some? ==> r == n
  {
    if TruthyNumber(n) then n else None
  }

  /** handleFilterChange: the edited member takes the new value (a zero id becomes
      absent), no other member changes, and the message goes. */
  function FilterChange(f: Form, edit: FilterEdit): (r: Form)
    ensures r.query == f.query && r.selectedAuthor == f.selectedAuthor && r.validationError.None?
    ensures edit.SetCategory? ==> r.filters == f.filters.(categoryId := PresentNumber(edit.categoryId))
    ensures edit.SetStatus? ==> r.filters == f.filters.(status := edit.status)
    ensures edit.SetSortBy? ==> r.filters == f.filters.(sortBy := edit.sortBy)
    ensures edit.SetAuthorId? ==> r.filters == f.filters.(authorId := PresentNumber(edit.authorId))
  {
    var filters := match edit
      case SetCategory(id) => f.filters.(categoryId := PresentNumber(id))
      case SetStatus(s) => f.filters.(status := s)
      case SetSortBy(k) => f.filters.(sortBy := k)
      case SetAuthorId(id) => f.filters.(authorId := PresentNumber(id));
    f.(filters := filters, validationError := None)
  }

  /** handleAuthorChange: the chosen author is shown and its id (or nothing) becomes
      the author filter. */
  function AuthorChange(f: Form, author: Option<Author>): (r: Form)
    ensures r.selectedAuthor == author && r.query == f.query && r.validationError.None?
    ensures author.None? ==> r.filters == f.filters.(authorId := None)
    ensures author.Some? && author.value.id != 0 ==> r.filters == f.filters.(authorId := Some(author.value.id))
    ensures author.Some? && author.value.id == 0 ==> r.filters == f.filters.(authorId := None)
  {
    var id := if author.Some? then Some(author.value.id) else None;
    FilterChange(f.(selectedAuthor := author), SetAuthorId(id))
  }

  /** clearFilters: every filter, the query, the author and the message are cleared. */
  function ClearFilters(f: Form): (r: Form)
    ensures !HasFilters(r.filters) && r.query == "" && r.selectedAuthor.None? && r.validationError.None?
  {
    EmptyForm
  }

  /** handleQueryChange: the query takes the typed text and the message goes. */
  function QueryChange(f: Form, text: string): (r: Form)
    ensures r.query == text && r.filters == f.filters && r.selectedAuthor == f.selectedAuthor
    ensures r.validationError.None?
  {
    f.(query := text, validationError := None)
  }

  /** The filters the form's own controls can produce: ids are never 0 and the
      members it has no control for (query, page, limit) stay absent. */
  predicate FormFilters(f: SearchFilters) {
    (f.authorId.Some? ==> f.authorId.value != 0) && (f.categoryId.Some? ==> f.categoryId.value != 0) &&
    f.query.None? && f.page.None? && f.limit.None?
  }

  /** Every handler keeps the filters within what the controls can produce. */
  lemma HandlersKeepFormFilters(f: Form, edit: FilterEdit, author: Option<Author>, text: string)
    requires FormFilters(f.filters)
    ensures FormFilters(FilterChange(f, edit).filters)
    ensures FormFilters(AuthorChange(f, author).filters)
    ensures FormFilters(ClearFilters(f).filters)
    ensures FormFilters(QueryChange(f, text).filters)
    ensures FormFilters(Submit(f).form.filters)
  {
  }

  /** A submit that reaches the search hook is turned away there exactly when the
      query is blank and neither a category nor an author is set: status and sort
      order count as filters for the form but not for the search. */
  lemma SubmittedSearchCleared(f: Form, st: BookSearch.SearchState)
    requires FormFilters(f.filters) && Submit(f).search.Some?
    ensures BookSearch.StartSearch(st, f.query, f.filters, 1).request.None? <==>
      Blank(f.query) && f.filters.categoryId.None? && f.filters.authorId.None?
  {
  }

  /** The concrete case: with only a sort order chosen and an empty query, the form
      accepts the submit, and the search hook answers it by clearing the results. */
  lemma SortOnlySubmitClears(k: SortKey, st: BookSearch.SearchState)
    ensures var f := FilterChange(EmptyForm, SetSortBy(Some(k)));
      Submit(f).search == Some(("", NoFilters.(sortBy := Some(k)))) &&
      BookSearch.StartSearch(st, "", NoFilters.(sortBy := Some(k)), 1) ==
        BookSearch.Begin(BookSearch.Initial, None)
  {
    var filters := NoFilters.(sortBy := Some(k));
    var f := FilterChange(EmptyForm, SetSortBy(Some(k)));
    assert f == Form("", filters, None, None);
    assert HasFilters(filters);
    assert BookSearch.NothingToSearch("", filters);
  }
}
