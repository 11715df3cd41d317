/** The records the components exchange (src/types/index.ts), reduced to the fields
    the modelled logic reads or writes. */
module Types {
  import opened Common

  /** A book's reading status, `'in progress' | 'paused' | 'finished'`. */
  datatype Status = InProgress | Paused | Finished

  datatype Author = Author(id: int, name: string, surname: string)

  datatype Category = Category(id: int, name: string)

  /** A book as the API returns it; optional members are `Option`s. */
  datatype Book = Book(
    id: int,
    isbnCode: string,
    title: string,
    editionNumber: Option<int>,
    editionDate: Option<string>,
    status: Option<Status>,
    notes: Option<string>,
    authors: Option<seq<Author>>,
    categories: Option<seq<Category>>)

  /** `'title' | 'author' | 'date-added'`. */
  datatype SortKey = ByTitle | ByAuthor | ByDateAdded

  /** `SearchFilters`: every member optional. */
  datatype SearchFilters = SearchFilters(
    query: Option<string>,
    status: Option<Status>,
    authorId: Option<int>,
    categoryId: Option<int>,
    sortBy: Option<SortKey>,
    page: Option<int>,
    limit: Option<int>)

  /** The empty filter object `{}`. */
  const NoFilters := SearchFilters(None, None, None, None, None, None, None)

  /** The result both ISBN entry paths hand to their caller. */
  datatype ScanResult = ScanResult(isbn: string, success: bool, error: Option<string>)
}
