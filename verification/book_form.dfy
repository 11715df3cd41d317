/** The add/edit form src/components/Book/BookForm.tsx: its data, the validation run
    on submit, and the handlers that edit fields, authors and categories. */
module BookForm {
  import opened Common
  import opened Types
  import Isbn

  /** `BookFormData`. */
  datatype FormData = FormData(
    title: string,
    isbnCode: string,
    editionNumber: Option<int>,
    editionDate: string,
    status: Option<Status>,
    notes: string,
    selectedAuthors: seq<Author>,
    selectedCategories: seq<int>)

  const EmptyData := FormData("", "", None, "", None, "", [], [])

  /** The keys of `BookFormData`, naming the field an error belongs to. */
  datatype Field = TitleField | IsbnField | EditionNumberField | EditionDateField
                 | StatusField | NotesField | AuthorsField | CategoriesField

  /** The errors on display; a cleared error is an absent key. */
  type Errors = map<Field, string>

  const TitleRequired := "Title is required"
  const IsbnRequired := "ISBN is required"
  const IsbnMalformed := "Invalid ISBN format"
  const EditionTooSmall := "Edition number must be at least 1"

  /** A character allowed by the class `[\d\-X]`. */
  predicate IsbnPatternChar(c: char) {
    Isbn.IsDigit(c) || c == '-' || c == 'X'
  }

  /** `/^[\d\-X]{10,17}$/.test(s)`. */
  predicate MatchesIsbnPattern(s: string) {
    10 <= |s| <= 17 && forall i :: 0 <= i < |s| ==> IsbnPatternChar(s[i])
  }

  /** The title's check: a blank title is required. */
  function TitleError(d: FormData): (m: Option<string>)
    ensures m.Some? <==> Blank(d.title)
    ensures m.Some? ==> m.value == TitleRequired
  {
    if Trim(d.title) == [] then Some(TitleRequired) else None
  }

  /** The ISBN's check: blank is required, and otherwise the code without its
      whitespace must match the pattern. */
  function IsbnError(d: FormData): (m: Option<string>)
    ensures m.Some? <==> Blank(d.isbnCode) || !MatchesIsbnPattern(StripSpaces(d.isbnCode))
    ensures m.Some? ==> m.value == if Blank(d.isbnCode) then IsbnRequired else IsbnMalformed
  {
    if Trim(d.isbnCode) == [] then Some(IsbnRequired)
    else if !MatchesIsbnPattern(StripSpaces(d.isbnCode)) then Some(IsbnMalformed)
    else None
  }

  /** The edition number's check: a number given must be at least 1. */
  function EditionError(d: FormData): (m: Option<string>)
    ensures m.Some? <==> d.editionNumber.Some? && d.editionNumber.value < 1
    ensures m.Some? ==> m.value == EditionTooSmall
  {
    if d.editionNumber.Some? && d.editionNumber.value < 1 then Some(EditionTooSmall) else None
  }

  /** `newErrors.f = message` when a check produced a message. */
  function Record(errs: Errors, f: Field, m: Option<string>): (r: Errors)
    ensures f in r <==> m.Some? || f in errs
    ensures m.Some? ==> r[f] == m.value
    ensures forall g :: g != f ==> (g in r <==> g in errs)
    ensures forall g :: g != f && g in r ==> r[g] == errs[g]
  {
    if m.Some? then errs[f := m.value] else errs
  }

  /** validateForm: a blank title, a blank ISBN, an ISBN that (without its
      whitespace) is not 10 to 17 digits, hyphens and `X`, and an edition number
      below 1 each put their message on their field; no other field gets one. */
  function Validate(d: FormData): (errs: Errors)
    ensures errs.Keys <= {TitleField, IsbnField, EditionNumberField}
    ensures TitleField in errs <==> Blank(d.title)
    ensures TitleField in errs ==> errs[TitleField] == TitleRequired
    ensures IsbnField in errs <==> Blank(d.isbnCode) || !MatchesIsbnPattern(StripSpaces(d.isbnCode))
    ensures IsbnField in errs ==>
      errs[IsbnField] == if Blank(d.isbnCode) then IsbnRequired else IsbnMalformed
    ensures EditionNumberField in errs <==> d.editionNumber.Some? && d.editionNumber.value < 1
    ensures EditionNumberField in errs ==> errs[EditionNumberField] == EditionTooSmall
  {
    var e1 := Record(map[], TitleField, TitleError(d));
    var e2 := Record(e1, IsbnField, IsbnError(d));
    Record(e2, EditionNumberField, EditionError(d))
  }

  /** What handleSubmit did: the errors now shown and the data handed to
      `onSubmit`, if any. */
  datatype SubmitStep = SubmitStep(errors: Errors, submitted: Option<FormData>)

  /** handleSubmit: the data goes to `onSubmit` unchanged exactly when validation
      found nothing; the errors shown are always the fresh ones. */
  function Submit(d: FormData): (r: SubmitStep)
    ensures r.errors == Validate(d)
    ensures r.submitted.Some? <==>
      (!Blank(d.title) && !Blank(d.isbnCode) && MatchesIsbnPattern(StripSpaces(d.isbnCode)) &&
       (d.editionNumber.Some? ==> d.editionNumber.value >= 1))
    ensures r.submitted.Some? ==> r.submitted.value == d
  {
    var errs := Validate(d);
    if |errs| == 0 then SubmitStep(errs, Some(d)) else SubmitStep(errs, None)
  }

  /** One call of handleInputChange: a field and its new value. */
  datatype Edit =
    | SetTitle(title: string)
    | SetIsbn(isbnCode: string)
    | SetEditionNumber(editionNumber: Option<int>)
    | SetEditionDate(editionDate: string)
    | SetStatus(status: Option<Status>)
    | SetNotes(notes: string)
    | SetAuthors(authors: seq<Author>)
    | SetCategories(categories: seq<int>)

  function FieldOf(e: Edit): Field {
    match e
    case SetTitle(_) => TitleField
    case SetIsbn(_) => IsbnField
    case SetEditionNumber(_) => EditionNumberField
    case SetEditionDate(_) => EditionDateField
    case SetStatus(_) => StatusField
    case SetNotes(_) => NotesField
    case SetAuthors(_) => AuthorsField
    case SetCategories(_) => CategoriesField
  }

  /** The value of a field. */
  datatype Value =
    | Text(s: string) | Number(n: Option<int>) | Choice(st: Option<Status>)
    | AuthorList(authors: seq<Author>) | IdList(ids: seq<int>)

  function Get(d: FormData, f: Field): Value {
    match f
    case TitleField => Text(d.title)
    case IsbnField => Text(d.isbnCode)
    case EditionNumberField => Number(d.editionNumber)
    case EditionDateField => Text(d.editionDate)
    case StatusField => Choice(d.status)
    case NotesField => Text(d.notes)
    case AuthorsField => AuthorList(d.selectedAuthors)
    case CategoriesField => IdList(d.selectedCategories)
  }

  /** The value an edit writes. */
  function Written(e: Edit): Value {
    match e
    case SetTitle(s) => Text(s)
    case SetIsbn(s) => Text(s)
    case SetEditionNumber(n) => Number(n)
    case SetEditionDate(s) => Text(s)
    case SetStatus(s) => Choice(s)
    case SetNotes(s) => Text(s)
    case SetAuthors(a) => AuthorList(a)
    case SetCategories(c) => IdList(c)
  }

  datatype Editing = Editing(data: FormData, errors: Errors)

  /** Form data is determined by the values of its fields. */
  lemma SameFields(a: FormData, b: FormData)
    requires forall f :: Get(a, f) == Get(b, f)
    ensures a == b
  {
    assert Get(a, TitleField) == Get(b, TitleField) && Get(a, IsbnField) == Get(b, IsbnField);
    assert Get(a, EditionNumberField) == Get(b, EditionNumberField);
    assert Get(a, EditionDateField) == Get(b, EditionDateField) && Get(a, StatusField) == Get(b, StatusField);
    assert Get(a, NotesField) == Get(b, NotesField) && Get(a, AuthorsField) == Get(b, AuthorsField);
    assert Get(a, CategoriesField) == Get(b, CategoriesField);
  }

  /** handleInputChange: the edited field takes the new value, every other field
      keeps its value, and only the edited field's error is cleared. */
  function InputChange(s: Editing, e: Edit): (r: Editing)
    ensures Get(r.data, FieldOf(e)) == Written(e)
    ensures forall f :: f != FieldOf(e) ==> Get(r.data, f) == Get(s.data, f)
    ensures FieldOf(e) !in r.errors
    ensures forall f :: f != FieldOf(e) ==> (f in r.errors <==> f in s.errors)
    ensures forall f :: f != FieldOf(e) && f in r.errors ==> r.errors[f] == s.errors[f]
  {
    var d := s.data;
    var data := match e
      case SetTitle(v) => d.(title := v)
      case SetIsbn(v) => d.(isbnCode := v)
      case SetEditionNumber(v) => d.(editionNumber := v)
      case SetEditionDate(v) => d.(editionDate := v)
      case SetStatus(v) => d.(status := v)
      case SetNotes(v) => d.(notes := v)
      case SetAuthors(v) => d.(selectedAuthors := v)
      case SetCategories(v) => d.(selectedCategories := v);
    Editing(data, s.errors - {FieldOf(e)})
  }

  // ---------------------------------------------------------------------------
  // Authors and categories

  /** `authors.find(a => a.id === id)` finds something. */
  predicate HasAuthor(authors: seq<Author>, id: int) {
    exists i :: 0 <= i < |authors| && authors[i].id == id
  }

  /** No two selected authors share an id. */
  predicate UniqueAuthorIds(authors: seq<Author>) {
    forall i, j :: 0 <= i < j < |authors| ==> authors[i].id != authors[j].id
  }

  /** handleAuthorAdd: a chosen author whose id is not yet selected is appended;
      no author, or one already selected by id, changes nothing. */
  function AuthorAdd(s: Editing, author: Option<Author>): (r: Editing)
    ensures author.None? || HasAuthor(s.data.selectedAuthors, author.value.id) ==> r == s
    ensures author.Some? && !HasAuthor(s.data.selectedAuthors, author.value.id) ==>
      r.data.selectedAuthors == s.data.selectedAuthors + [author.value] && AuthorsField !in r.errors
    ensures UniqueAuthorIds(s.data.selectedAuthors) ==> UniqueAuthorIds(r.data.selectedAuthors)
    ensures author.Some? ==> HasAuthor(r.data.selectedAuthors, author.value.id)
    ensures forall f :: f != AuthorsField ==> Get(r.data, f) == Get(s.data, f)
  {
    if author.Some? && !HasAuthor(s.data.selectedAuthors, author.value.id) then
      var r := InputChange(s, SetAuthors(s.data.selectedAuthors + [author.value]));
      assert r.data.selectedAuthors[|s.data.selectedAuthors|] == author.value;
      r
    else s
  }

  /** `authors.filter(a => a.id !== id)`. */
  function WithoutAuthor(authors: seq<Author>, id: int): (r: seq<Author>)
    ensures |r| <= |authors|
    ensures !HasAuthor(r, id)
    ensures forall a :: a in r <==> a in authors && a.id != id
  {
    if authors == [] then []
    else
      var rest := WithoutAuthor(authors[1..], id);
      assert authors == [authors[0]] + authors[1..];
      if authors[0].id == id then rest else [authors[0]] + rest
  }

  /** handleAuthorRemove: every selected author with the id goes, the others stay. */
  function AuthorRemove(s: Editing, id: int): (r: Editing)
    ensures r.data.selectedAuthors == WithoutAuthor(s.data.selectedAuthors, id)
    ensures AuthorsField !in r.errors
    ensures forall f :: f != AuthorsField ==> Get(r.data, f) == Get(s.data, f)
  {
    InputChange(s, SetAuthors(WithoutAuthor(s.data.selectedAuthors, id)))
  }

  /** Filtering out an id no author has changes nothing. */
  lemma {:induction false} WithoutAbsentAuthor(authors: seq<Author>, id: int)
    requires !HasAuthor(authors, id)
    ensures WithoutAuthor(authors, id) == authors
  {
    if authors != [] {
      var rest := authors[1..];
      assert !HasAuthor(rest, id) by {
        forall i | 0 <= i < |rest|
          ensures rest[i].id != id
        {
          assert rest[i] == authors[i + 1];
        }
      }
      WithoutAbsentAuthor(rest, id);
      assert authors[0].id != id;
      assert authors == [authors[0]] + rest;
    }
  }

  lemma {:induction false} WithoutAuthorConcat(a: seq<Author>, b: seq<Author>, id: int)
    ensures WithoutAuthor(a + b, id) == WithoutAuthor(a, id) + WithoutAuthor(b, id)
  {
    if a == [] {
      assert a + b == b;
    } else {
      assert (a + b)[1..] == a[1..] + b;
      WithoutAuthorConcat(a[1..], b, id);
    }
  }

  /** Adding a new author and removing it again restores the selection. */
  lemma AddThenRemoveAuthor(s: Editing, author: Author)
    requires !HasAuthor(s.data.selectedAuthors, author.id)
    ensures AuthorRemove(AuthorAdd(s, Some(author)), author.id).data == s.data
  {
    var authors := s.data.selectedAuthors;
    var added := AuthorAdd(s, Some(author));
    var removed := AuthorRemove(added, author.id);
    WithoutAuthorConcat(authors, [author], author.id);
    WithoutAbsentAuthor(authors, author.id);
    assert WithoutAuthor([author], author.id) == [];
    AppendEmpty(authors);
    assert removed.data.selectedAuthors == authors;
    forall f
      ensures Get(removed.data, f) == Get(s.data, f)
    {
      if f != AuthorsField {
        assert Get(removed.data, f) == Get(added.data, f);
        assert Get(added.data, f) == Get(s.data, f);
      }
    }
    SameFields(removed.data, s.data);
  }

  /** `ids.filter(x => x !== id)`. */
  function WithoutId(ids: seq<int>, id: int): (r: seq<int>)
    ensures |r| <= |ids| && id !in r
    ensures forall x :: x in r <==> x in ids && x != id
  {
    if ids == [] then []
    else
      var rest := WithoutId(ids[1..], id);
      assert ids == [ids[0]] + ids[1..];
      if ids[0] == id then rest else [ids[0]] + rest
  }

  /** handleCategoryChange: checking appends the id, unchecking removes every copy
      of it. */
  function CategoryChange(s: Editing, id: int, checked: bool): (r: Editing)
    ensures checked ==> r.data.selectedCategories == s.data.selectedCategories + [id]
    ensures !checked ==> r.data.selectedCategories == WithoutId(s.data.selectedCategories, id)
    ensures checked <==> id in r.data.selectedCategories
    ensures forall x :: x != id ==> (x in r.data.selectedCategories <==> x in s.data.selectedCategories)
    ensures CategoriesField !in r.errors
    ensures forall f :: f != CategoriesField ==> Get(r.data, f) == Get(s.data, f)
  {
    if checked then InputChange(s, SetCategories(s.data.selectedCategories + [id]))
    else InputChange(s, SetCategories(WithoutId(s.data.selectedCategories, id)))
  }

  lemma {:induction false} WithoutAbsentId(ids: seq<int>, id: int)
    requires id !in ids
    ensures WithoutId(ids, id) == ids
  {
    if ids != [] {
      assert ids == [ids[0]] + ids[1..];
      WithoutAbsentId(ids[1..], id);
    }
  }

  lemma {:induction false} WithoutIdConcat(a: seq<int>, b: seq<int>, id: int)
    ensures WithoutId(a + b, id) == WithoutId(a, id) + WithoutId(b, id)
  {
    if a == [] {
      assert a + b == b;
    } else {
      assert (a + b)[1..] == a[1..] + b;
      WithoutIdConcat(a[1..], b, id);
    }
  }

  /** Checking an unselected category and unchecking it again restores the selection. */
  lemma CheckThenUncheck(s: Editing, id: int)
    requires id !in s.data.selectedCategories
    ensures CategoryChange(CategoryChange(s, id, true), id, false).data == s.data
  {
    var ids := s.data.selectedCategories;
    var checked := CategoryChange(s, id, true);
    var unchecked := CategoryChange(checked, id, false);
    WithoutIdConcat(ids, [id], id);
    WithoutAbsentId(ids, id);
    assert WithoutId([id], id) == [];
    AppendEmpty(ids);
    assert unchecked.data.selectedCategories == ids;
    forall f
      ensures Get(unchecked.data, f) == Get(s.data, f)
    {
      if f != CategoriesField {
        assert Get(unchecked.data, f) == Get(checked.data, f);
      }
    }
    SameFields(unchecked.data, s.data);
  }

  // ---------------------------------------------------------------------------
  // Editing an existing book

  /** The form data an existing book initialises the form with: the edition date
      cut at its `T` (the date part of an ISO timestamp), absent notes as "", absent
      author and category lists as empty, and categories by id. */
  function FromBook(b: Book): (d: FormData)
    ensures d.title == b.title && d.isbnCode == b.isbnCode && d.editionNumber == b.editionNumber
    ensures d.status == b.status
    ensures 'T' !in d.editionDate
    ensures Truthy(b.editionDate) ==> d.editionDate <= b.editionDate.value
    ensures Truthy(b.editionDate) && |d.editionDate| < |b.editionDate.value| ==>
      b.editionDate.value[|d.editionDate|] == 'T'
    ensures !Truthy(b.editionDate) ==> d.editionDate == ""
    ensures d.notes == if Truthy(b.notes) then b.notes.value else ""
    ensures d.selectedAuthors == b.authors.GetOr([])
    ensures b.categories.Some? ==>
      (|d.selectedCategories| == |b.categories.value| &&
       forall i :: 0 <= i < |d.selectedCategories| ==> d.selectedCategories[i] == b.categories.value[i].id)
    ensures b.categories.None? ==> d.selectedCategories == []
  {
    var date := if Truthy(b.editionDate) then BeforeFirst(b.editionDate.value, 'T') else "";
    var notes := if Truthy(b.notes) then b.notes.value else "";
    var categories := if b.categories.Some? then CategoryIds(b.categories.value) else [];
    FormData(b.title, b.isbnCode, b.editionNumber, date, b.status, notes, b.authors.GetOr([]), categories)
  }

  /** `categories.map(cat => cat.id)`. */
  function CategoryIds(cs: seq<Category>): (r: seq<int>)
    ensures |r| == |cs| && forall i :: 0 <= i < |cs| ==> r[i] == cs[i].id
  {
    if cs == [] then [] else [cs[0].id] + CategoryIds(cs[1..])
  }

  /** A date that is already a plain date (no `T`) is kept whole. */
  lemma PlainDateKept(b: Book)
    requires b.editionDate.Some? && b.editionDate.value != "" && 'T' !in b.editionDate.value
    ensures FromBook(b).editionDate == b.editionDate.value
  {
  }

  /** An ISO timestamp keeps its date part: whatever follows the first `T` goes. */
  lemma TimestampCutToDate(b: Book, date: string, time: string)
    requires 'T' !in date
    requires b.editionDate == Some(date + "T" + time)
    ensures FromBook(b).editionDate == date
  {
    var full := date + "T" + time;
    var d := FromBook(b).editionDate;
    assert full[..|date|] == date;
    assert full[|date|] == 'T';
    assert d == full[..|d|];
  }

  // ---------------------------------------------------------------------------
  // The form's pattern against the codec

  /** A grouping of a normalized code holds only pattern characters, and one more
      character than the code per extra group. */
  lemma {:induction false} GroupedMatchesPatternChars(r: string, c: string, sizes: seq<nat>)
    requires forall i :: 0 <= i < |c| ==> Isbn.Canonical(c[i])
    requires Isbn.Grouped(r, c, sizes)
    ensures |sizes| >= 1 && |r| == |c| + |sizes| - 1
    ensures forall i :: 0 <= i < |r| ==> IsbnPatternChar(r[i])
    decreases |sizes|
  {
    if |sizes| > 1 {
      var k := sizes[0];
      var tail := r[k + 1..];
      GroupedMatchesPatternChars(tail, c[k..], sizes[1..]);
      forall i | 0 <= i < |r| ensures IsbnPatternChar(r[i]) {
        if i < k {
          assert r[i] == r[..k][i] == c[..k][i] == c[i];
        } else if i > k {
          assert r[i] == tail[i - k - 1];
        }
      }
    }
  }

  /** The form accepts every valid ISBN in the codec's normal form and in the codec's
      hyphenated format: the pattern is wide enough for both. */
  lemma ValidIsbnMatchesPattern(s: string)
    requires Isbn.Validate(s).isValid
    ensures MatchesIsbnPattern(Isbn.Normalize(s))
    ensures MatchesIsbnPattern(Isbn.Format(s))
  {
    var c := Isbn.Normalize(s);
    if |c| == 10 {
      GroupedMatchesPatternChars(Isbn.Format(s), c, [1, 5, 3, 1]);
    } else {
      GroupedMatchesPatternChars(Isbn.Format(s), c, [3, 1, 5, 3, 1]);
    }
  }

  /** The pattern is only a shape check: ten hyphens pass it though they are no
      ISBN at all. */
  lemma PatternAdmitsNonIsbn()
    ensures MatchesIsbnPattern("----------") && !Isbn.Validate("----------").isValid
  {
    Isbn.CleanDropsRest("----------");
    assert Isbn.Normalize("----------") == [];
  }
}
