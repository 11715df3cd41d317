# Book library client: ISBN codec, scanner session and form state, in Dafny

This project models the client-side logic of a React book-library application:

- the ISBN codec. It cleans a code down to digits and `X` and classifies it by length. It checks the ISBN-10 check character (modulus 11, weights 10..1, the rule of ISO 2108) and the ISBN-13 check digit (modulus 10, weights 1 and 3, the EAN-13 rule of section 7.9 of the GS1 General Specifications). It hyphenates with a fixed 1-5-3-1 or 3-1-5-3-1 pattern and converts an ISBN-10 to an ISBN-13 with the `978` prefix;
- the second copy of the ISBN validator, inlined in both the barcode-scanner hook and the manual-entry dialog;
- the scanner hook as a state machine. It covers the permission request, the device listing and rear-camera preference, start and stop, the decode callback and camera switching;
- the manual ISBN entry dialog;
- the paged book search hook (search, load more, clear, look-up by ISBN);
- the search form, the add/edit book form and the sign-up form;
- the theme provider (seven themes, the automatic mode, persistence).

JavaScript details are written out explicitly:

- `parseInt` of a character is an `Option<nat>` whose `None` is `NaN`. The source's sums are sums over `Option<int>`, with `NaN` absorbing.
- `a || b` on strings and numbers becomes `Common.MessageOr` and `SearchForm.PresentNumber`.
- Object spread becomes explicit record updates.
- An asynchronous handler is split in two at its `await`: a function up to the call, which returns the request it makes, and a function after it, which takes the outcome as an input.
- The camera, the decoder, `getUserMedia`, the API client and `localStorage` are inputs. For the camera, the decoder and `getUserMedia`, only their outcomes are passed in. `localStorage` is a map from keys to strings.

Modules: `Common` (options, ASCII trimming and case, the index ring), `Types` (the shared records), `Isbn`, `InlineCheck`, `ScanSession`, `ManualEntry`, `BookSearch`, `SearchForm`, `BookForm`, `Theme`, `RegisterForm`.

Where the code and its documentation differ, the model follows the code. For example, a permission result that arrives after the scanner was closed is applied like any other, because the hook keeps no flag to ignore it.

## Model

| member | source | states |
|---|---|---|
| Isbn.ParseDigit | src/utils/isbn.ts:21 | `parseInt` of one character is a number below ten exactly for a decimal digit, NaN otherwise |
| Isbn.Clean | src/utils/isbn.ts:7 | cleaning keeps only digits and `X`/`x` and never lengthens the input |
| Isbn.CleanKeeps | src/utils/isbn.ts:7 | a digit, `X` or `x` occurs in the cleaned string exactly when it occurs in the input |
| Isbn.CleanDropsRest | src/utils/isbn.ts:7 | a string with no digit, `X` or `x` (for example `---`) cleans to the empty string |
| Isbn.Normalize | src/utils/isbn.ts:77-79 | the normal form holds only digits and upper-case `X` and is never longer than the input |
| Isbn.NormalizeChar | src/utils/isbn.ts:77-79 | per character: a digit stays, `x` and `X` become `X`, anything else disappears |
| Isbn.NormalizeConcat | src/utils/isbn.ts:77-79 | normalizing a concatenation is concatenating the normal forms |
| Isbn.NormalizeFixesCanonical | src/utils/isbn.ts:77-79 | a string of digits and `X` is its own normal form |
| Isbn.NormalizeIdempotent | src/utils/isbn.ts:77-79 | normalizing twice is normalizing once |
| Isbn.LoopSum10Facts | src/utils/isbn.ts:19-22 | the ISBN-10 loop's sum is a number exactly when the characters read are digits, and is then the weighted sum with weights 10..1 |
| Isbn.LoopSum13Facts | src/utils/isbn.ts:31-35 | the ISBN-13 loop's sum is a number exactly when the characters read are digits, and is then the sum with alternating weights 1 and 3 |
| Isbn.LoopSum13Prefix | src/utils/isbn.ts:66-70 | the ISBN-13 loop reads only the prefix it runs over |
| Isbn.CheckDigitRule | src/utils/isbn.ts:38-40 | the code's `(10 - sum % 10) % 10` check equals the standard's rule that the weighted sum with the check digit is a multiple of ten |
| Isbn.Valid10 | src/utils/isbn.ts:18-28 | a ten-character cleaned code passes exactly when it is an ISO 2108 ISBN-10: nine digits and a digit or `X` making the weighted sum divisible by 11; an `X` or other character in the first nine positions fails |
| Isbn.Valid13 | src/utils/isbn.ts:30-41 | a thirteen-character cleaned code passes exactly when it is an EAN-13: thirteen digits with the check digit the weights call for |
| Isbn.Validate | src/utils/isbn.ts:5-16 | the type is ISBN-10 exactly for a normal form of length 10 and ISBN-13 exactly for length 13; otherwise it is null and the code is invalid; the code is valid exactly when its normal form is an ISBN-10 or an ISBN-13 |
| Isbn.ValidateSeesNormalForm | src/utils/isbn.ts:7 | validating a code is validating its normal form |
| Isbn.SameNormalFormSameValidation | src/utils/isbn.ts:7 | two codes with the same normal form validate alike |
| Isbn.SeparatorsAreIgnored | src/utils/isbn.ts:7 | inserting hyphens, spaces or any other characters that are not digits or `X`/`x` does not change validation |
| Isbn.GroupStep | src/utils/isbn.ts:47-49 | a group, a hyphen and a grouping of the rest form a grouping of the whole |
| Isbn.Cut531Grouped | src/utils/isbn.ts:47 | the tail cut of nine characters is a 5-3-1 grouping of them |
| Isbn.Cut10Grouped | src/utils/isbn.ts:47 | the ten-character cut is a 1-5-3-1 grouping of the code |
| Isbn.Cut13Grouped | src/utils/isbn.ts:49 | the thirteen-character cut is a 3-1-5-3-1 grouping of the code |
| Isbn.Format | src/utils/isbn.ts:43-53 | a normal form of length 10 comes out as its 1-5-3-1 hyphenated grouping and one of length 13 as its 3-1-5-3-1 grouping; any other input comes back unchanged, not cleaned |
| Isbn.NormalizeHyphenJoin | src/utils/isbn.ts:47-49 | a hyphen between two strings vanishes on normalization |
| Isbn.NormalizeGrouped | src/utils/isbn.ts:47-49 | removing the hyphens from a grouping of a normal form gives the normal form back |
| Isbn.NormalizeFormat | src/utils/isbn.ts:43-53 | formatting never changes the normal form |
| Isbn.FormatIdempotent | src/utils/isbn.ts:43-53 | formatting an already formatted code gives the same string |
| Isbn.Convert10To13 | src/utils/isbn.ts:55-75 | the result is null exactly when the normal form is not a valid ISBN-10; otherwise it is thirteen characters, `978` followed by the first nine cleaned characters, and a valid EAN-13 |
| Isbn.ConvertedIsValid13 | src/utils/isbn.ts:55-75 | every converted code is reported by the validator as a valid ISBN-13 |
| InlineCheck.Accumulate10Facts | src/hooks/useISBNScanner.ts:108-113 | the loop with its early NaN exit finishes exactly when the first nine characters are digits, with the weighted sum |
| InlineCheck.Accumulate13Facts | src/hooks/useISBNScanner.ts:126-131 | the loop with its early NaN exit finishes exactly when the first twelve characters are digits, with the weighted sum |
| InlineCheck.Validate10 | src/hooks/useISBNScanner.ts:105-121 | accepts exactly the ISO 2108 ISBN-10s with an upper-case `X`, and nothing of any other length |
| InlineCheck.Validate13 | src/hooks/useISBNScanner.ts:123-138 | accepts exactly the EAN-13 strings, and nothing of any other length |
| InlineCheck.CleanIsNormalWithoutLowercaseX | src/hooks/useISBNScanner.ts:142 | without a lower-case `x`, cleaning without upper-casing gives the codec's normal form |
| InlineCheck.LowercaseXIsNoIsbn | src/components/Scanner/ManualISBNInput.tsx:30 | a string holding a lower-case `x` is neither an ISBN-10 nor an ISBN-13 |
| InlineCheck.CleanedDispatch | src/hooks/useISBNScanner.ts:142-151 | the length dispatch on the cleaned (not upper-cased) string accepts exactly what the codec accepts, minus every input holding a lower-case `x` |
| InlineCheck.Validate | src/hooks/useISBNScanner.ts:140-152 | the inline validator, the same code in the scanner and the dialog, cleans, dispatches by length and accepts exactly what the codec accepts, as long as there is no lower-case `x` |
| InlineCheck.LowercaseCheckCharacterDiverges | src/components/Scanner/ManualISBNInput.tsx:29-74 | an ISBN-10 ending in `X`, typed with `x`, is valid for the codec and rejected by the inline copies |
| InlineCheck.WitnessIsIsbn10 | src/utils/isbn.ts:18-28 | `080442957X` is an ISBN-10 |
| InlineCheck.LowercaseWitness | src/hooks/useISBNScanner.ts:142 | `080442957x` is valid for the codec and invalid for the inline copies |
| ScanSession.VideoInputs | src/hooks/useISBNScanner.ts:50 | exactly the devices of kind `videoinput` are kept |
| ScanSession.VideoInputsOne | src/hooks/useISBNScanner.ts:50 | one device passes the filter exactly when it is a video input |
| ScanSession.VideoInputsConcat | src/hooks/useISBNScanner.ts:50 | the filter works device by device and keeps the enumeration order |
| ScanSession.PreferredIndex | src/hooks/useISBNScanner.ts:54-60 | the first device whose lower-cased label mentions back, rear or environment; failing that, the first device; none for an empty list |
| ScanSession.ReceiveDevices | src/hooks/useISBNScanner.ts:47-71 | stores the video inputs; selects the preferred device only when nothing is selected, and keeps the selection when no video input is listed; a failed listing only sets its error |
| ScanSession.RearCameraPreferred | src/hooks/useISBNScanner.ts:54-63 | with nothing selected, a listing that contains a rear-looking camera selects one |
| ScanSession.SelectionSurvivesRelisting | src/hooks/useISBNScanner.ts:61 | a selection already made is never overridden by a new listing |
| ScanSession.RequestPermission | src/hooks/useISBNScanner.ts:74-102 | a grant records permission, clears the error and lists devices; a refusal records no permission, picks the message by error name (`NotAllowedError`, `NotFoundError`, other) and reports a failure |
| ScanSession.TargetDevice | src/hooks/useISBNScanner.ts:170 | the device is the selected id when one is selected (non-empty), otherwise the first listed device's id, and none for an empty list; so a usable id is found exactly when one is selected or the first listed device has a non-empty id |
| ScanSession.StartScanning | src/hooks/useISBNScanner.ts:155-207 | decoding starts only with a video element, a device and a working decoder; a refused permission aborts; without a video element the initialisation error is set and nothing else changes; without a device the error is set but scanning stays marked; a failing decoder unmarks scanning and reports the failure; a decoder that starts runs on the target device, recorded as the session's camera, and the camera is otherwise unchanged; the device list and selection change only through the permission request's listing |
| ScanSession.FirstStartFindsNoDevice | src/hooks/useISBNScanner.ts:155-174 | a first start whose permission request lists a camera still finds no device, because the device is read from the state at call time |
| ScanSession.PermissionThenStart | src/hooks/useISBNScanner.ts:74-207 | a granted permission that lists a video input selects the preferred camera, and the start that follows decodes with that camera's id as the session's camera, without error or report |
| ScanSession.StopScanning | src/hooks/useISBNScanner.ts:210-215 | scanning and decoding are off afterwards, and permission, error, devices, selection and camera are untouched |
| ScanSession.StopIdempotent | src/hooks/useISBNScanner.ts:210-215 | stopping twice is stopping once |
| ScanSession.OnFrame | src/hooks/useISBNScanner.ts:179-199 | a valid text is reported once as its cleaned form and scanning stops; invalid text and NotFound change nothing; another decoder error sets and reports the scanning error and changes nothing else, so scanning goes on; permission, devices and selection never change; after a reset nothing arrives |
| ScanSession.CountSucceededConcat | src/hooks/useISBNScanner.ts:189 | successes of two report runs add up |
| ScanSession.DetachedRunIsSilent | src/hooks/useISBNScanner.ts:190 | after the reader is reset, no run of frames changes the session or reports anything |
| ScanSession.AtMostOneSuccess | src/hooks/useISBNScanner.ts:179-199 | whatever frames arrive, at most one ISBN reaches `onScanSuccess`, and after it the decoder has stopped |
| ScanSession.IndexOfSelected | src/hooks/useISBNScanner.ts:221 | a position holding the selected id, or -1 |
| ScanSession.IndexOfSelectedFirst | src/hooks/useISBNScanner.ts:221 | it is the first position holding the id, and -1 exactly when none holds it |
| ScanSession.SwitchCamera | src/hooks/useISBNScanner.ts:218-234 | with at most one device nothing changes; otherwise the device after the current one is selected, and the first when the current one is not listed; a running scan is stopped and a restart scheduled exactly when scanning; the device list, permission, error and camera are untouched |
| ScanSession.FoundInPlaceIffDistinct | src/hooks/useISBNScanner.ts:221 | `findIndex` finds every device at its own position exactly when the ids are distinct |
| ScanSession.SwitchTimesSelection | src/hooks/useISBNScanner.ts:218-225 | repeated switching keeps the device list and only moves the selection |
| ScanSession.SwitchFromPosition | src/hooks/useISBNScanner.ts:221-225 | with distinct ids, switching from position i selects position i+1, wrapping to 0 |
| ScanSession.SelectionTracksPosition | src/hooks/useISBNScanner.ts:221-225 | with distinct ids, k switches select the device k steps further round the list |
| ScanSession.SwitchRoundRobin | src/hooks/useISBNScanner.ts:218-234 | switching visits the devices in list order, wrapping round |
| ScanSession.FullCircle | src/hooks/useISBNScanner.ts:218-234 | as many switches as there are devices return to the starting device |
| ManualEntry.ValidateCleaned | src/components/Scanner/ManualISBNInput.tsx:79-86 | validating the cleaned text is validating the text |
| ManualEntry.Submit | src/components/Scanner/ManualISBNInput.tsx:76-99 | nothing left after cleaning asks for an ISBN; an invalid cleaned text shows the format error; a valid one hands `{isbn: cleaned, success: true}` to `onSubmit` and empties the field and the error; the text is submitted exactly when the inline validator accepts it |
| ManualEntry.Cancel | src/components/Scanner/ManualISBNInput.tsx:101-105 | the field and the error are cleared |
| ManualEntry.InputChange | src/components/Scanner/ManualISBNInput.tsx:120-128 | the field takes the raw text and any error goes |
| ManualEntry.CancelThenSubmit | src/components/Scanner/ManualISBNInput.tsx:79-84 | submitting right after cancelling asks for an ISBN and submits nothing |
| ManualEntry.AcceptedSubmitResets | src/components/Scanner/ManualISBNInput.tsx:91-98 | an accepted submit leaves the dialog as a cancel does |
| ManualEntry.SubmitIgnoresShownError | src/components/Scanner/ManualISBNInput.tsx:76-99 | the outcome depends only on the typed text, not on the error shown before |
| ManualEntry.ManualMatchesScanner | src/components/Scanner/ManualISBNInput.tsx:91-95 | for the same text, the dialog submits exactly when a running scan reports success, and both hand over the same result |
| BookSearch.ClearSearch | src/hooks/useBookSearch.ts:108-117 | every field returns to its initial value |
| BookSearch.SearchParams | src/hooks/useBookSearch.ts:45-50 | `q` is the trimmed query, page and limit 20 are taken unless the filters carry their own, which win |
| BookSearch.StartSearch | src/hooks/useBookSearch.ts:31-52 | a blank query with neither category nor author clears the search and sends nothing; otherwise loading starts, the error is cleared and the request carries the arguments |
| BookSearch.FinishSearch | src/hooks/useBookSearch.ts:54-77 | an answer to page 1 replaces the books and a later page appends them; total, more-flag, page, query and filters come from the answer and the request; a failure shows the message or the fallback, empties the results for page 1 only and keeps them for later pages; loading always ends |
| BookSearch.LoadMore | src/hooks/useBookSearch.ts:100-106 | nothing while no more results are announced or a search is loading; otherwise the remembered search for the next page, sent with loading set and the error cleared, or the search cleared when the remembered search is empty |
| BookSearch.NoSecondLoadMore | src/hooks/useBookSearch.ts:100-106 | a second loadMore on the state the first left sends no request, because a sent request sets loading |
| BookSearch.LoadMoreAppends | src/hooks/useBookSearch.ts:54-58 | an answered load-more appends the new page after the books shown |
| BookSearch.LoadOnePage | src/hooks/useBookSearch.ts:100-106 | one answered load-more appends the page's books, takes total and more-flag from the answer and advances the page by one |
| BookSearch.PagesCount | src/hooks/useBookSearch.ts:62 | the page counter advances by one per loaded page |
| BookSearch.PagesAppend | src/hooks/useBookSearch.ts:57 | after loading pages, the books are the earlier ones followed by each page's, in order |
| BookSearch.PagesAccumulate | src/hooks/useBookSearch.ts:54-64 | infinite scrolling: the books accumulate page by page and the counter tracks the pages loaded |
| BookSearch.FilterPageOverridesLoadMore | src/hooks/useBookSearch.ts:45-50 | with a page among the filters, load-more asks the API for that page, not the next one |
| BookSearch.StartIsbnSearch | src/hooks/useBookSearch.ts:80-86 | a blank code returns null at once and changes nothing; otherwise loading starts with the error cleared |
| BookSearch.FinishIsbnSearch | src/hooks/useBookSearch.ts:88-97 | the answer's book, or null with the message or `Book not found`; the search results stay and loading ends |
| BookSearch.IsbnLookupKeepsResults | src/hooks/useBookSearch.ts:80-98 | a look-up by ISBN never disturbs the search results on display |
| SearchForm.Submit | src/components/Search/BookSearchForm.tsx:49-63 | refused with the message exactly when the trimmed query is shorter than two and no filter is set (an empty string is no filter, a zero id is); otherwise the message goes and the untrimmed query and the filters are searched |
| SearchForm.PresentNumber | src/components/Search/BookSearchForm.tsx:68 | `value || undefined` keeps a number exactly when it is present and not zero |
| SearchForm.FilterChange | src/components/Search/BookSearchForm.tsx:65-74 | only the edited filter changes, a zero id becomes absent, and the message goes |
| SearchForm.AuthorChange | src/components/Search/BookSearchForm.tsx:76-79 | the author filter becomes the chosen author's id, or absent when the author is cleared |
| SearchForm.ClearFilters | src/components/Search/BookSearchForm.tsx:81-86 | filters, query, author and message are all cleared |
| SearchForm.QueryChange | src/components/Search/BookSearchForm.tsx:88-94 | the query takes the text, the filters stay and the message goes |
| SearchForm.HandlersKeepFormFilters | src/components/Search/BookSearchForm.tsx:65-86 | no handler produces a zero id or a filter the form has no control for |
| SearchForm.SubmittedSearchCleared | src/hooks/useBookSearch.ts:36-39 | a submit the form accepts is turned into a clear by the hook exactly when the query is blank and neither category nor author is set |
| SearchForm.SortOnlySubmitClears | src/components/Search/BookSearchForm.tsx:54 | a sort order alone lets the form submit an empty query, which the hook answers by clearing the results |
| BookForm.TitleError | src/components/Book/BookForm.tsx:86-88 | a title that is blank once trimmed gives `Title is required`, and only then |
| BookForm.IsbnError | src/components/Book/BookForm.tsx:90-94 | a blank code is required; otherwise the code without whitespace must be 10 to 17 digits, hyphens or `X`; there is no checksum check |
| BookForm.EditionError | src/components/Book/BookForm.tsx:96-98 | an edition number is an error only when given and below one |
| BookForm.Validate | src/components/Book/BookForm.tsx:83-102 | exactly the failed checks are recorded, each with its message, and no other key |
| BookForm.Submit | src/components/Book/BookForm.tsx:104-116 | the data is handed on unchanged exactly when no error was recorded |
| BookForm.SameFields | src/components/Book/BookForm.tsx:36-45 | form data is determined by its field values |
| BookForm.InputChange | src/components/Book/BookForm.tsx:118-125 | only the edited field changes, and only its error is cleared |
| BookForm.AuthorAdd | src/components/Book/BookForm.tsx:127-131 | no author or an id already selected changes nothing; otherwise the author is appended; unique ids stay unique; no other field changes |
| BookForm.WithoutAuthor | src/components/Book/BookForm.tsx:135 | exactly the authors without the id remain |
| BookForm.AuthorRemove | src/components/Book/BookForm.tsx:133-137 | every author with the id goes and the others stay in order; no other field changes |
| BookForm.WithoutAbsentAuthor | src/components/Book/BookForm.tsx:135 | removing an id nobody has changes nothing |
| BookForm.WithoutAuthorConcat | src/components/Book/BookForm.tsx:135 | removal distributes over concatenation, so order is kept |
| BookForm.AddThenRemoveAuthor | src/components/Book/BookForm.tsx:127-137 | adding a new author and removing it restores the form data |
| BookForm.WithoutId | src/components/Book/BookForm.tsx:144 | exactly the ids other than the given one remain |
| BookForm.CategoryChange | src/components/Book/BookForm.tsx:139-147 | checking appends the id without a duplicate check; unchecking removes every copy; other ids and fields stay |
| BookForm.WithoutAbsentId | src/components/Book/BookForm.tsx:144 | unchecking an id not selected changes nothing |
| BookForm.WithoutIdConcat | src/components/Book/BookForm.tsx:144 | unchecking distributes over concatenation |
| BookForm.CheckThenUncheck | src/components/Book/BookForm.tsx:139-147 | checking an unselected category and unchecking it restores the form data |
| BookForm.FromBook | src/components/Book/BookForm.tsx:68-81 | the form starts from the book's fields, with the edition date cut before its first `T`, the categories mapped to their ids, and empty defaults for absent members |
| BookForm.CategoryIds | src/components/Book/BookForm.tsx:78 | one id per category, in order |
| BookForm.TimestampCutToDate | src/components/Book/BookForm.tsx:74 | an ISO timestamp `date` + `T` + `time` is cut to its date part |
| BookForm.PlainDateKept | src/components/Book/BookForm.tsx:74 | a date without a `T` is kept whole |
| BookForm.GroupedMatchesPatternChars | src/components/Book/BookForm.tsx:92 | a hyphenated grouping of a normal form has only pattern characters |
| BookForm.ValidIsbnMatchesPattern | src/components/Book/BookForm.tsx:92 | every valid ISBN passes the form's pattern, both normalized and formatted |
| BookForm.PatternAdmitsNonIsbn | src/components/Book/BookForm.tsx:92 | the pattern is only a shape check: ten hyphens pass it |
| Theme.AutoTheme | src/contexts/ThemeContext.tsx:63-64 | the automatic theme is `dark` exactly for a dark system preference, and `default` otherwise |
| Theme.LabelsCoverNames | src/contexts/ThemeContext.tsx:46-54 | every theme has a label and every label a theme |
| Theme.SevenThemes | src/hooks/__tests__/useTheme.simple.test.tsx:45 | there are exactly seven themes |
| Theme.IndexOfTheme | src/contexts/ThemeContext.tsx:101 | the position of a theme in the list, or -1 exactly for an unknown name |
| Theme.NamesDistinct | src/contexts/ThemeContext.tsx:46-54 | no theme name occurs twice |
| Theme.SetTheme | src/contexts/ThemeContext.tsx:86-89 | the given theme is set and the automatic mode goes off |
| Theme.Toggle | src/contexts/ThemeContext.tsx:99-104 | the next theme in order, `lavender` wrapping to `default` and an unknown theme going to `default`; automatic mode goes off |
| Theme.ToggleTimesPosition | src/contexts/ThemeContext.tsx:99-104 | k toggles move k places round the list |
| Theme.SevenTogglesReturn | src/contexts/ThemeContext.tsx:99-104 | seven toggles return to the starting theme |
| Theme.SetAutoTheme | src/contexts/ThemeContext.tsx:91-97 | switching it on picks the system's theme and forgets the stored theme; switching it off keeps the theme |
| Theme.SystemChange | src/contexts/ThemeContext.tsx:57-73 | the system theme always follows the preference; the theme follows only in automatic mode |
| Theme.Persist | src/contexts/ThemeContext.tsx:75-84 | the theme is stored only when not automatic, the mode always, and no other key changes |
| Theme.Mount | src/contexts/ThemeContext.tsx:30-44 | the mode as stored; the theme from the system when automatic, otherwise the stored theme or `default` |
| Theme.AutoFollowsSystem | src/contexts/ThemeContext.tsx:30-97 | after mounting and after every handler, the theme is the system's choice while the automatic mode is on |
| Theme.ManualThemeSurvivesReload | src/contexts/ThemeContext.tsx:34-44 | a manual theme persisted and reloaded comes back, still manual |
| Theme.AutoModeSurvivesReload | src/contexts/ThemeContext.tsx:30-44 | the automatic mode survives a reload and the theme follows the system at that time |
| Theme.ChosenThemeSurvivesReload | src/contexts/ThemeContext.tsx:75-89 | a chosen theme is shown again after a reload |
| Theme.AutoModeForgetsManualTheme | src/contexts/ThemeContext.tsx:91-97 | after switching the automatic mode on, a reload never brings back the old manual theme |
| RegisterForm.Submit | src/components/Auth/RegisterForm.tsx:20-43 | `register` is called exactly when the passwords match and have at least eight characters, with email, password, name and surname; a mismatch is reported first, then the length; loading ends on either error |
| RegisterForm.Settle | src/components/Auth/RegisterForm.tsx:45-50 | loading ends; a rejection shows its message or `Registration failed` |
| RegisterForm.InputChange | src/components/Auth/RegisterForm.tsx:53-56 | only the edited field changes and the error goes |
| RegisterForm.LoadingAlwaysEnds | src/components/Auth/RegisterForm.tsx:20-51 | a submit never leaves the form loading, and ends without error exactly when the checks pass and `register` resolves |
| RegisterForm.MismatchReportedFirst | src/components/Auth/RegisterForm.tsx:25-35 | a short, mistyped password is reported as a mismatch |
| RegisterForm.LengthIsTheOnlyStrengthCheck | src/components/Auth/RegisterForm.tsx:31-32 | eight lower-case letters are sent, though the message asks for upper-case letters and digits |
| RegisterForm.SubmitDependsOnFieldsOnly | src/components/Auth/RegisterForm.tsx:25-43 | the outcome depends on the fields and on whether the passwords match, not on how the confirmation differs or on the error shown |
| RegisterForm.RetypedConfirmation | src/components/Auth/RegisterForm.tsx:25-56 | after a mismatch, retyping the confirmation clears the error and the next submit sends the registration exactly when the password is long enough |

## Left out

- Camera and decoder plumbing (`getUserMedia`, `enumerateDevices`, the ZXing `decodeFromVideoDevice` and `reset`, the video element) is browser and library code. Its outcomes are inputs to the scan session.
- The `setTimeout` restart in `switchCamera` runs a `startScanning` closure captured before the selection changed. `ScanSession.SwitchCamera` only records that a restart was scheduled and does not claim which device it will use.
- The message passed to `onScanError` on a permission failure reads the previous render's `error`. The model records only that a failure is reported (`PermissionReported`).
- `console` logging and the unmount clean-up of the scanner hook are left out; they have no effect on the state.
- `src/services/api.ts` (the HTTP client, its token interceptor and response reshaping) is not part of this model; API answers and failures are inputs.
- The authentication context, the login form, the auth page and the protected route are not part of this model; they delegate to the hosted identity service and the router. The `register` call of the sign-up form is an input outcome.
- The book pages, the search page, the presentation components, the PWA components and `usePWA` are left out as rendering, routing and browser events.
- The author autocomplete (debounce timers and an API call) and `useCategories` (sorting with locale-dependent `localeCompare`) are left out.
- The `parseInt` and `NaN` handling of the book form's edition input, and its `new Date` year extraction, are left out. The edition number is an `Option<int>`.
- The search form's category `parseInt` is likewise left out. The category select hands over an `Option<int>`.
- Theme DOM effects (`document.documentElement` classes and attributes) are left out. `matchMedia` is a boolean input and `localStorage` a map.
- `Common.Trim`, `Common.Blank`, `Common.StripSpaces`: only ASCII whitespace counts as space, not the other Unicode spaces JavaScript's `trim` and `\s` also remove.
- `Common.ToUpper`, `Common.ToLower`: only ASCII letters change case, unlike JavaScript's full Unicode case mapping.
- `SearchForm.Submit`: the trimmed query's length is its number of characters, not of UTF-16 code units as in JavaScript, so a query of one character outside the Basic Multilingual Plane (an emoji) is refused here and accepted by the form.
- `RegisterForm.Submit`: a password's length is its number of characters, not of UTF-16 code units as in JavaScript.
- `BookSearch.SearchParams`: a filter member explicitly set to `undefined` still overrides `page` or `limit` in the spread; the model has no such member, because an absent member and an `undefined` one are both `None`.
- `BookForm.InputChange`: a cleared error is an absent key rather than a key holding `undefined`; the two read alike.
- Concurrency is left out. Responses are applied in the order given, so overlapping searches and out-of-order responses are not modelled.
- Exceptions thrown by the caller's `onSubmit` in the book form are left out. They are caught and logged and have no effect on the state.
