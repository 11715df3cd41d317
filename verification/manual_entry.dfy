/** The manual ISBN entry form (src/components/Scanner/ManualISBNInput.tsx): the text
    typed so far, the error on display, and the three handlers that change them. */
module ManualEntry {
  import opened Common
  import opened Types
  import Isbn
  import InlineCheck
  import ScanSession

  /** The form's state: the `isbn` text field and the `error` alert. */
  datatype Entry = Entry(input: string, error: Option<string>)

  const Empty := Entry("", None)

  const EmptyMessage := "Please enter an ISBN"
  const InvalidMessage := "Invalid ISBN format. Please enter a valid 10 or 13 digit ISBN."

  /** The form after a submit, and the result handed to `onSubmit`, if any. */
  datatype SubmitStep = SubmitStep(entry: Entry, submitted: Option<ScanResult>)

  /** Validating the cleaned text is validating the text: cleaning twice is cleaning
      once, and cleaning keeps every lower-case `x`. */
  lemma ValidateCleaned(s: string)
    ensures InlineCheck.Validate(Isbn.Clean(s)) == InlineCheck.Validate(s)
  {
    var c := Isbn.Clean(s);
    Isbn.CleanFixesKept(c);
    Isbn.CleanKeeps(s, 'x');
    Isbn.CleanKeeps(c, 'x');
    assert Isbn.Normalize(c) == Isbn.Normalize(s);
    Isbn.SameNormalFormSameValidation(c, s);
  }

  /** handleSubmit. Nothing left after cleaning asks for an ISBN; a cleaned text the
      inline validator rejects is reported as invalid; in both cases the typed text
      stays for correction. An accepted text is submitted in its cleaned form (which
      is then its normal form), the alert cleared and the field emptied. */
  function Submit(e: Entry): (r: SubmitStep)
    ensures r.submitted.Some? <==> InlineCheck.Validate(e.input)
    ensures Isbn.Clean(e.input) == [] ==> r == SubmitStep(e.(error := Some(EmptyMessage)), None)
    ensures Isbn.Clean(e.input) != [] && !InlineCheck.Validate(e.input) ==>
      r == SubmitStep(e.(error := Some(InvalidMessage)), None)
    ensures r.submitted.Some? ==>
      r.submitted.value == ScanResult(Isbn.Normalize(e.input), true, None) && r.entry == Empty
  {
    var clean := Isbn.Clean(e.input);
    ValidateCleaned(e.input);
    if clean == [] then
      SubmitStep(e.(error := Some(EmptyMessage)), None)
    else if !InlineCheck.Validate(clean) then
      SubmitStep(e.(error := Some(InvalidMessage)), None)
    else
      InlineCheck.CleanIsNormalWithoutLowercaseX(e.input);
      SubmitStep(Empty, Some(ScanResult(clean, true, None)))
  }

  /** handleCancel: the field and the alert are cleared (and `onCancel` called). */
  function Cancel(e: Entry): (r: Entry)
    ensures r.input == [] && r.error.None?
  {
    Empty
  }

  /** handleInputChange: the field takes the typed text verbatim and any alert goes. */
  function InputChange(e: Entry, text: string): (r: Entry)
    ensures r.input == text && r.error.None?
  {
    Entry(text, None)
  }

  /** Submitting right after cancelling asks for an ISBN and submits nothing. */
  lemma CancelThenSubmit(e: Entry)
    ensures Submit(Cancel(e)) == SubmitStep(Entry("", Some(EmptyMessage)), None)
  {
    assert Isbn.Clean("") == [];
  }

  /** An accepted submit leaves the form as after a cancel, ready for the next code. */
  lemma AcceptedSubmitResets(e: Entry)
    requires Submit(e).submitted.Some?
    ensures Submit(e).entry == Cancel(e)
  {
  }

  /** The typed text alone decides the outcome: the alert on display before a
      submit does not matter. */
  lemma SubmitIgnoresShownError(input: string, a: Option<string>, b: Option<string>)
    ensures Submit(Entry(input, a)).submitted == Submit(Entry(input, b)).submitted
    ensures Submit(Entry(input, a)).entry.error == Submit(Entry(input, b)).entry.error
  {
  }

  /** Typing and scanning agree: for the same text, the manual form submits exactly
      when a running scan reports a success, and both hand over the same result. */
  lemma ManualMatchesScanner(st: ScanSession.Session, text: string, shown: Option<string>)
    requires st.decoding
    ensures Submit(Entry(text, shown)).submitted.Some? <==>
      ScanSession.OnFrame(st, ScanSession.Frame(Some(text), ScanSession.NoError)).reports != []
    ensures Submit(Entry(text, shown)).submitted.Some? ==>
      ScanSession.OnFrame(st, ScanSession.Frame(Some(text), ScanSession.NoError)).reports ==
        [ScanSession.Succeeded(Submit(Entry(text, shown)).submitted.value)]
  {
  }
}
