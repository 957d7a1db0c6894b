# Mini library — a Dafny model of its core logic

The system is a small library web application: books with their loans, a catalogue that can
be searched, filtered by availability and sorted, borrowing and returning, an overdue report, a
dashboard of counts, administrators named in an environment variable, role checks for writes,
members' acquisition suggestions, and suggestions from a language model. This project models
the logic that decides what those screens and API routes answer:

- the derived state of a book and of a loan (`LoanStatus`, from `lib/status.ts`);
- the catalogue query, status filter and response shapes (`BookList`, `lib/books.ts`);
- the dashboard counters, as the two loops that compute them (`StatsRoute`, `Dashboard`);
- the borrow form's validators and its submit handler, a class whose fields are the form state
  (`BorrowModal`);
- the request schemas (`Validators`, `lib/validators.ts`), over a model of JSON values
  (`JsValues`);
- the administrator list and the session callback, which updates the stored user and the
  session in place (`Auth`), and the capability checks (`AuthServer`);
- the list and create routes for books (`BooksRoute`), the suggestion route
  (`BookSuggestionsRoute`), the post-processing of the language model's answer (`AiSuggest`);
- the sign-in page's report of missing settings and its error texts (`SignIn`).

Shared modules: `Wrappers` (option and result values, the subsequence relation), `Text`
(JavaScript's whitespace set, `trim`, ASCII case mapping, `split`/`join`).

Times are integer milliseconds since the epoch and "now" is a parameter; the start of the UTC
day is `now - now % 86400000`. The database, the model service, the environment and date parsing
are parameters: a route receives the rows a query returns (or `None` when it throws), the outcome
of an insert, or the parsed reply of a model call.

## Model

| member | source | states |
|---|---|---|
| LoanStatus.StartOfDay | lib/status.ts:17-18 | the result is midnight UTC of the same day, at or before the time and less than a day before it |
| LoanStatus.ActiveLoan | lib/status.ts:5-7 | no result exactly when no loan is unreturned; otherwise an unreturned loan from the list |
| LoanStatus.ActiveLoanIsFirst | lib/status.ts:5-7 | the active loan is the first unreturned loan in list order |
| LoanStatus.ActiveLoanUnique | lib/status.ts:5-11 | with at most one unreturned loan, it is the active loan and the book is BORROWED |
| LoanStatus.DerivedStatus | lib/status.ts:9-11 | BORROWED exactly when some loan is unreturned, exactly when there is an active loan |
| LoanStatus.ReturnedLoanIrrelevant | lib/status.ts:5-11 | inserting a returned loan anywhere changes neither the active loan nor the status |
| LoanStatus.AppendReturnedLoans | lib/status.ts:5-7 | appending returned loans does not change the active loan |
| LoanStatus.IsOverdue | lib/status.ts:14-20 | a returned loan or one without a due date is never overdue; otherwise overdue exactly when due on an earlier UTC day |
| LoanStatus.DueTodayNotOverdue | lib/status.ts:17-19 | a loan due at or after today's midnight is not overdue |
| LoanStatus.SingleLoanScenarios | lib/status.ts:9-20 | no loans means AVAILABLE; one unreturned loan due yesterday is BORROWED and overdue |
| LoanStatus.SeedScenarios | lib/status.ts:14-20 | the four seed loans: due in 7 days and returned are not overdue, 5 and 2 days late are |
| BookList.Normalize | lib/books.ts:17-19 | the query is trimmed and empty exactly when absent or blank; the status defaults to `ALL`, otherwise is the given status upper-cased letter by letter (same length, same letters up to case, no lower-case left); the sort defaults to `title` |
| BookList.NormalizeDefaults | lib/books.ts:17-19 | with no parameters: empty query, status `ALL`, sort `title` |
| BookList.SearchFields | lib/books.ts:24-36 | an empty query searches nothing; a non-empty one searches title, author, category and description, and the ISBN exactly when it is a digit followed by digits and dashes |
| BookList.OrderFor | lib/books.ts:38-45 | `title` and `author` ascending, `newest` creation descending, anything else creation ascending |
| BookList.OrderForDistinct | lib/books.ts:38-45 | the four allowed sort keys give four different orders |
| BookList.ListQuery | lib/books.ts:17-46 | the query searched for is the trimmed text; its fields are `SearchFields` of that text, so none when blank; the order is that of the sort key |
| BookList.FilterStatus | lib/books.ts:48-53 | keeps exactly the books with the given status, in their order |
| BookList.FilterStatusPartition | lib/books.ts:48-53 | the AVAILABLE and BORROWED filters together keep every book once |
| BookList.FilterStatusCounts | lib/books.ts:48-53 | each book occurs in the filtered list as often as in the input when it has the status, and not at all otherwise |
| BookList.ApplyStatusFilter | lib/books.ts:48-53 | `AVAILABLE` and `BORROWED` filter; any other status keeps every book |
| BookList.ToBookResponse | lib/books.ts:66-92 | the book's own fields are copied; BORROWED exactly when an active loan is shown, and that is the first unreturned loan; overdue only for an active loan that is overdue |
| BookList.NewBookResponse | lib/books.ts:66-92 | a book without loans is AVAILABLE, with no active loan, not overdue |
| BookList.MapResponses | lib/books.ts:55 | one response per book, in order |
| BookList.BooksList | lib/books.ts:16-56 | with AVAILABLE or BORROWED every listed book has that status; otherwise every fetched book is listed |
| BookList.BooksListExact | lib/books.ts:48-55 | the list is the responses of an order-preserving selection of the fetched rows that holds every row the status filter keeps and no other |
| BookList.BooksListMembers | lib/books.ts:48-55 | a response is listed exactly when it is the response of a fetched row the status filter keeps |
| BookList.InsertByBorrowed | lib/books.ts:96-100 | inserting into a list sorted newest-borrowed first keeps it sorted and adds exactly that loan |
| BookList.SortByBorrowedDesc | lib/books.ts:96-100 | sorted newest-borrowed first and a permutation of the loans |
| BookList.BorrowedAt | lib/books.ts:96-100 | the loans borrowed at a given time, in their order |
| BookList.InsertBorrowedAt | lib/books.ts:96-100 | an inserted loan goes before the loans borrowed at the same time |
| BookList.SortStable | lib/books.ts:96-100 | the sort is stable: loans borrowed at the same time keep their order |
| BookList.ToBookDetailResponse | lib/books.ts:94-111 | the list response plus one history entry per loan, newest borrowed first, a permutation of the loans |
| BookList.BorrowerFlagAgrees | lib/books.ts:153-156 | the borrower page's inline overdue test is `isOverdue` |
| BookList.LoansByBorrower | lib/books.ts:145-157 | one item per loan, in order, with its id, book title and overdue flag |
| BookList.WhereActiveWithDue | lib/books.ts:161-167 | only unreturned loans with a due date are fetched |
| BookList.DueBeforeToday | lib/books.ts:170-171 | only loans due before today's midnight are kept |
| BookList.OverdueRows | lib/status.ts:14-20 | exactly the overdue loans, in their order |
| BookList.OverdueItems | lib/books.ts:172-181 | one report item per row, in order |
| BookList.OverdueLoans | lib/books.ts:160-182 | every reported loan was due before today's midnight |
| BookList.OverdueLoansExact | lib/books.ts:160-182 | the query plus the filter select exactly the loans `isOverdue` calls overdue |
| StatsRoute.CountStatus | app/api/stats/route.ts:13-21 | the number of books with a status is at most the number of books |
| StatsRoute.CountOverdue | app/api/stats/route.ts:17-19 | the number of books whose active loan is overdue is at most the number of books |
| StatsRoute.CountsPartition | app/api/stats/route.ts:13-21 | available plus borrowed is the total |
| StatsRoute.OverdueAtMostBorrowed | app/api/stats/route.ts:16-20 | no more books are overdue than borrowed |
| StatsRoute.CountMatchesFilter | app/api/stats/route.ts:13-21 | each counter equals the length of the catalogue's status filter |
| StatsRoute.Get | app/api/stats/route.ts:10-27 | the loop returns the total, the two status counts and the overdue count, available plus borrowed being the total and overdue at most borrowed |
| StatsRoute.SeedStats | app/api/stats/route.ts:10-27 | the seed data (ten books, the first four with one loan each, the other six without loans) counts 7 available, 3 borrowed, 2 overdue |
| Dashboard.GetStats | app/page.tsx:9-24 | the dashboard loop computes the same four numbers as the stats route |
| BorrowModal.IndexOf | app/books/borrow-modal.tsx:5 | the position of the first occurrence, or the length when absent |
| BorrowModal.PatternGivesDomain | app/books/borrow-modal.tsx:5 | a string matching the email pattern has a local part, an `@` and a dotted domain, none with spaces or further `@` |
| BorrowModal.DomainGivesPattern | app/books/borrow-modal.tsx:5 | the converse: such a string matches the pattern |
| BorrowModal.MatchesEmail | app/books/borrow-modal.tsx:5 | the executable test agrees with the pattern, and with the local-part/domain reading |
| BorrowModal.ValidateEmail | app/books/borrow-modal.tsx:8-12 | a blank value has no error; otherwise no error exactly when the trimmed value matches the pattern, else the fixed message |
| BorrowModal.MatchesPhone | app/books/borrow-modal.tsx:6 | the executable test agrees with the phone pattern (optional `+`, ten or more digits, spaces, dashes, parentheses, dots) |
| BorrowModal.DigitsOnly | app/books/borrow-modal.tsx:17 | the result is all digits and no longer than the input; an all-digit input is unchanged |
| BorrowModal.ValidatePhone | app/books/borrow-modal.tsx:14-20 | blank has no error; fewer than ten digits gives the digit message; otherwise the format message exactly when the pattern fails |
| BorrowModal.Submission | app/books/borrow-modal.tsx:64-80 | data is submitted exactly when the name is not blank and neither contact has an error; it carries the trimmed name and the trimmed contacts, absent when blank |
| BorrowModal.SubmitStep | app/books/borrow-modal.tsx:64-80 | a blank name changes nothing; otherwise both errors are recomputed, and the data is submitted exactly when `Submission` gives it |
| BorrowModal.BorrowForm.constructor | app/books/borrow-modal.tsx:44-60 | the form opens with empty fields, no errors and nothing submitted |
| BorrowModal.BorrowForm.HandleSubmit | app/books/borrow-modal.tsx:64-80 | the fields are kept; the errors and the submissions change as `SubmitStep` says |
| JsValues.Field | lib/validators.ts:3-10 | a field is present exactly when the value is an object holding that key |
| JsValues.ToNumber | lib/validators.ts:8 | `Number()` coercion: null and blank strings are 0, booleans 0 or 1, a number (finite or infinite) itself, objects and arrays of two or more `NaN` |
| JsValues.ElementToNumber | lib/validators.ts:8 | a single array element converts through its string form: null is 0, booleans and objects are `NaN` |
| JsValues.NestedSingletonNumber | lib/validators.ts:8 | a value wrapped in any number of one-element arrays converts like the element |
| Validators.TypeMessage | lib/validators.ts:3-10 | a wrong-typed value's text is `Required` exactly when it is missing, and otherwise is exactly `Expected `, the expected type, `, received ` and the received type |
| Validators.RequiredText | lib/validators.ts:4-5 | accepts exactly a non-empty string, untrimmed; an empty string gives one too-small issue with the field's message or zod's default; a missing or non-string value one type issue |
| Validators.OptionalNonEmptyText | lib/validators.ts:13-14 | absent, or a non-empty string |
| Validators.OptionalString | lib/validators.ts:6-9 | absent or a string; anything else is one type issue |
| Validators.NullableString | lib/validators.ts:15-18 | absent leaves the field, null clears it, a string sets it |
| Validators.Year | lib/validators.ts:8 | accepted exactly when the coerced number is an integer from 1 to 2100, which is the result; `NaN` is one type issue (`Expected number, received nan`); an infinity is a non-integer issue followed by the bound it passes, each with zod's text |
| Validators.OptionalYear | lib/validators.ts:8 | absent, or a valid year |
| Validators.NullableYear | lib/validators.ts:17 | absent, null (clears the year) or a valid year |
| Validators.CreateBook | lib/validators.ts:3-10 | accepts exactly an object with non-empty title and author and well-typed optional fields; title, author, isbn, category and description are copied untrimmed, the year is the coerced number, each absent exactly when its field is; any rejection carries issues |
| Validators.UpdateBook | lib/validators.ts:12-19 | every field optional, title and author non-empty when present, the others also nullable; each output field is unset when its field is absent, cleared when it is null, and otherwise the string given or the coerced year |
| Validators.EmptyUpdate | lib/validators.ts:12-19 | an empty object is a valid update that changes nothing |
| Validators.CreateIsValidUpdate | lib/validators.ts:3-19 | whatever creates a book is also a valid update setting the same values |
| Validators.NullYear | lib/validators.ts:8-17 | a null year is coerced to 0 and rejected on create, and clears the year on update |
| Validators.OnlyYearIssues | lib/validators.ts:3-10 | with a title, an author and no other text field, a new book is rejected exactly with its year's issues |
| Validators.InfiniteYear | lib/validators.ts:8 | a year string that reads as `Infinity` is rejected as not an integer and too big, not as an invalid type |
| Validators.TwoTypeIssues | lib/validators.ts:3-10 | no title and a non-string ISBN give exactly two type issues, title first, each on what was received |
| Validators.UntrimmedTitle | lib/validators.ts:4 | a title of one space is accepted as it is; an empty title is rejected with its message |
| Validators.YearAgreement | lib/validators.ts:8-17 | both schemas accept the same non-null years and read the same number |
| Validators.TrimmedOrUndefined | lib/validators.ts:23-24 | a string is trimmed and becomes absent when blank; anything else is one issue |
| Validators.DueAt | lib/validators.ts:25-28 | a date is kept, a non-empty string is parsed, absent or empty is absent, anything else is one union issue |
| Validators.Checkout | lib/validators.ts:21-29 | accepts exactly an object with a non-empty name and well-typed contacts and due date; contacts trimmed and absent when blank |
| Validators.CheckoutContactsTrimmed | lib/validators.ts:23-24 | accepted contacts are non-empty and already trimmed |
| Validators.UpdateUserRole | lib/validators.ts:31-33 | accepts exactly `ADMIN` or `MEMBER`; anything else is one issue with the schema's message |
| Validators.NoLibrarianByRequest | lib/validators.ts:31-33 | no request body yields the LIBRARIAN role |
| Auth.NormalizeEmail | lib/auth.ts:10 | the result is trimmed and has no upper-case letter, and is empty exactly when the input is blank |
| Auth.CleanEntries | lib/auth.ts:10-11 | no more entries than pieces |
| Auth.CleanEntriesAreEntries | lib/auth.ts:10-11 | every entry is non-empty, trimmed and lower-case |
| Auth.CleanEntriesMembers | lib/auth.ts:10-11 | an entry is present exactly when it is the non-empty normalisation of some piece |
| Auth.Pieces | lib/auth.ts:8-9 | an unset variable gives the single empty piece |
| Auth.AdminEmails | lib/auth.ts:8-11 | an unset variable gives no administrators; every entry is non-empty, trimmed and lower-case |
| Auth.AdminEmailsMembers | lib/auth.ts:8-11 | an address is listed exactly when it is the non-empty normalisation of some comma-separated piece |
| Auth.AdminEmailCaseInsensitive | lib/auth.ts:10-32 | two emails differing only in letter case are both administrators or neither |
| Auth.EmptyEmailNeverAdmin | lib/auth.ts:11-32 | the empty email is never an administrator |
| Auth.PaddedEmailNeverAdmin | lib/auth.ts:10-32 | a stored email with surrounding whitespace never matches |
| Auth.AdminEmailsExamples | lib/auth.ts:8-11 | unset gives no entries; a padded entry with a trailing comma gives just that entry |
| Auth.SessionRole | lib/auth.ts:31-39 | an administrator's email gives ADMIN; otherwise the stored role |
| Auth.SessionRoleIdempotent | lib/auth.ts:31-39 | applying the callback's role to its own result changes nothing |
| Auth.UserTable.constructor | lib/auth.ts:26-29 | the table holds the given rows |
| Auth.SessionUser.constructor | lib/auth.ts:39 | a session user starts without a role |
| Auth.SessionCallback | lib/auth.ts:24-43 | without a session user or a stored row nothing changes; otherwise the session gets the callback's role and the stored row is promoted to ADMIN exactly when its email is listed |
| AuthServer.EffectiveRole | lib/auth-server.ts:13-24 | the session's role, MEMBER when missing |
| AuthServer.RequireAuth | lib/auth-server.ts:10-19 | without a session user: no session and no write access; otherwise writes exactly for ADMIN and LIBRARIAN |
| AuthServer.RequireAdmin | lib/auth-server.ts:21-26 | without a session user: not an administrator; otherwise exactly for ADMIN |
| AuthServer.CapabilityOrder | lib/auth-server.ts:4-25 | an administrator can write; a member can do neither; a librarian can write but is not an administrator; a missing role cannot write |
| Text.Trim | lib/books.ts:17 | the result is empty exactly for a blank string and has no whitespace at either end |
| Text.TrimIsInfix | lib/books.ts:17 | the result is the input with only whitespace removed from its two ends |
| Text.TrimIdempotent | lib/books.ts:17 | trimming twice is trimming once |
| Text.ToUpper | lib/books.ts:18 | same length and no lower-case letter left |
| Text.Split | lib/auth.ts:9 | at least one piece, none containing the separator |
| Text.JoinSplit | lib/auth.ts:9 | joining the pieces with the separator gives back the string |
| Text.SplitJoin | lib/auth.ts:9 | splitting pieces joined by the separator gives back the pieces |
| BooksRoute.Get | app/api/books/route.ts:9-38 | an unknown status (after upper-casing) is a 400, checked before the sort key, which is compared as given; with valid parameters a failed fetch is exactly the 500 `Failed to list books`; otherwise the library's list |
| BooksRoute.RejectedBeforeFetch | app/api/books/route.ts:16-27 | a rejected request does not depend on the books, so none are fetched |
| BooksRoute.GetAgreesWithLibrary | app/api/books/route.ts:13-30 | the answer equals the library's list for the raw parameters |
| BooksRoute.StatusCaseInsensitive | app/api/books/route.ts:13-16 | status values differing only in letter case give the same answer |
| BooksRoute.AbsentStatusIsAll | app/api/books/route.ts:13 | no status means `ALL`; no parameters and no books answers an empty list |
| BooksRoute.SortCaseSensitive | app/api/books/route.ts:14-27 | the sort key `Title` is a 400 |
| BooksRoute.IssueTexts | app/api/books/route.ts:45 | one text per issue, in order: its message, which is the schema's own text or zod's default for what was received |
| BooksRoute.ValidationError | app/api/books/route.ts:45-47 | the messages joined with `; ` when that join is non-empty, otherwise `Validation failed`; the join is empty exactly when there is no issue or one with an empty message |
| BooksRoute.EmptyTitleAndAuthor | app/api/books/route.ts:43-48 | empty title and author give a 400 with both messages joined by `; ` |
| BooksRoute.MissingTitleNumericIsbn | app/api/books/route.ts:43-48 | a missing title and a numeric ISBN give a 400 reading `Required; Expected string, received number` |
| BooksRoute.Post | app/api/books/route.ts:40-76 | a rejected body is a 400 whose text is `ValidationError` of its issues; a created book is answered with its response; a duplicate ISBN is the only 409; any other insert failure is a 500 |
| BooksRoute.InvalidBodyNotInserted | app/api/books/route.ts:43-48 | a rejected body is answered before anything is inserted |
| BooksRoute.CreatedBookAvailable | app/api/books/route.ts:60-62 | a created book without loans is answered as AVAILABLE, with no active loan, not overdue |
| BookSuggestionsRoute.TrimmedRequired | app/api/books/suggestions/route.ts:6-7 | accepts exactly a string that is not blank, trimmed; a blank one gives the field's message |
| BookSuggestionsRoute.TrimmedOptional | app/api/books/suggestions/route.ts:8-9 | absent, or a string trimmed; null and other values are one issue |
| BookSuggestionsRoute.CreateSchema | app/api/books/suggestions/route.ts:5-10 | accepts exactly an object with non-blank title and author and optional string category and notes; title and author trimmed |
| BookSuggestionsRoute.OrNull | app/api/books/suggestions/route.ts:56-57 | absent or empty becomes null, anything else is kept |
| BookSuggestionsRoute.Post | app/api/books/suggestions/route.ts:39-81 | a rejected body is a 400; the created row is answered exactly when validation and the insert succeed; a failed insert of a valid body is the 500 `Failed to add suggestion` |
| BookSuggestionsRoute.StoredData | app/api/books/suggestions/route.ts:52-58 | the stored title and author are the trimmed, non-empty values; category and notes are trimmed, null when absent or blank |
| BookSuggestionsRoute.RejectedBeforeCreate | app/api/books/suggestions/route.ts:43-51 | a rejected body is answered before anything is created |
| BookSuggestionsRoute.BlankTitleRejected | app/api/books/suggestions/route.ts:6-51 | a title of spaces is rejected with the title message |
| AiSuggest.TrimAll | app/api/ai/suggest/route.ts:6-8 | each input is trimmed, one result per input |
| AiSuggest.ParseInputs | app/api/ai/suggest/route.ts:5-21 | accepted exactly when `inputs` is an array of one to five strings; the result is those strings trimmed, blank ones kept |
| AiSuggest.Items | app/api/ai/suggest/route.ts:118-126 | an answer that is not JSON or not an array has no items; an array gives its elements |
| AiSuggest.KeepPicks | app/api/ai/suggest/route.ts:128-135 | no more picks than items, each naming an available book |
| AiSuggest.KeepPicksAppend | app/api/ai/suggest/route.ts:128-135 | the filter distributes over concatenation, so it keeps the model's order |
| AiSuggest.KeepPicksMembers | app/api/ai/suggest/route.ts:128-135 | a pick is kept exactly when some item with a string id of an available book and a string reason gives it |
| AiSuggest.FindBook | app/api/ai/suggest/route.ts:139 | found exactly when the id is among the books, and then it is the first book with that id |
| AiSuggest.ToSuggestions | app/api/ai/suggest/route.ts:138-150 | every pick's lookup succeeds: one suggestion per pick, with its book and reason |
| AiSuggest.Suggestions | app/api/ai/suggest/route.ts:128-150 | at most five suggestions, each of an available book |
| AiSuggest.SuggestionsArePicks | app/api/ai/suggest/route.ts:128-150 | the suggestions are the first five kept items in order, each with its own reason |
| AiSuggest.NonArrayNoSuggestions | app/api/ai/suggest/route.ts:120-126 | an answer that is not an array gives no suggestions |
| AiSuggest.DuplicatesKept | app/api/ai/suggest/route.ts:128-136 | the same item twice gives two suggestions |
| AiSuggest.FallbackBook | app/api/ai/suggest/route.ts:174-180 | a book is proposed exactly when the answer has string title and author; title, author and category are the answer's strings trimmed, the category present exactly when it is a string |
| AiSuggest.FallbackOutcome | app/api/ai/suggest/route.ts:152-185 | a thrown call is an error; a failed reply proposes nothing; an answer proposes exactly the `FallbackBook` read from it (string title and author, trimmed) |
| AiSuggest.FallbackAnswer | app/api/ai/suggest/route.ts:152-187 | a thrown fallback is a 500; otherwise no suggestions, the message and the proposed book |
| AiSuggest.Answer | app/api/ai/suggest/route.ts:26-194 | at most five suggestions of available books; no books gives the no-books message, with the fallback's answer when there is a key; books without a key a 503; a failed main call a 502, a thrown one a 500; a reply with kept items is answered alone, one without gets the fallback answer |
| AiSuggest.Post | app/api/ai/suggest/route.ts:12-194 | bad input is a 400, a failed book query a 500, and otherwise the answer is `Answer` for the books, key and calls |
| AiSuggest.NoBooksEmpty | app/api/ai/suggest/route.ts:26-66 | with no available books the answer is a 200 without suggestions and with the no-books message, whatever the main call does; the proposed book is the fallback's with a key and none without |
| AiSuggest.NoKeyUnavailable | app/api/ai/suggest/route.ts:68-76 | with books but no key the answer is a 503 |
| AiSuggest.FallbackOnlyWhenEmpty | app/api/ai/suggest/route.ts:152-153 | when suggestions remain, the fallback call does not affect the answer |
| AiSuggest.Excerpt | app/api/ai/suggest/route.ts:81 | a description of at most 200 characters is kept; a longer one is cut to 200 with `…` appended |
| AiSuggest.ExcerptBounds | app/api/ai/suggest/route.ts:81 | at most 201 characters, 201 exactly when cut, and a prefix of the description before the ellipsis |
| AiSuggest.BookLine | app/api/ai/suggest/route.ts:78-83 | every book line starts with its head: `- id: "…"`, then the quoted title, then the author |
| AiSuggest.BookLineShape | app/api/ai/suggest/route.ts:81 | after the head comes the category part exactly when the category is non-empty and the description part exactly when the description is non-empty, the latter showing only the description's excerpt; the line is exactly as long as those parts |
| AiSuggest.LongDescriptionCut | app/api/ai/suggest/route.ts:78-83 | the line of a book with a long description and no category, written out |
| SignIn.MissingOf | app/auth/signin/page.tsx:14-17 | no more keys reported than given |
| SignIn.MissingOfMembers | app/auth/signin/page.tsx:14-17 | a key is reported exactly when it is one of the keys and is unset or blank |
| SignIn.MissingOfSubsequence | app/auth/signin/page.tsx:14-17 | the reported keys keep the declared order |
| SignIn.GetMissingAuthEnv | app/auth/signin/page.tsx:13-18 | at most the four keys |
| SignIn.MissingAuthEnvExact | app/auth/signin/page.tsx:6-18 | exactly the unset or blank keys among the four, in declared order |
| SignIn.NothingMissing | app/auth/signin/page.tsx:14-17 | keys all set to non-blank values report nothing |
| SignIn.AllSetNothingMissing | app/auth/signin/page.tsx:13-18 | all four set and not blank: nothing is reported |
| SignIn.NoneSetAllMissing | app/auth/signin/page.tsx:6-18 | an empty environment reports all four keys in order |
| SignIn.ParseCode | app/auth/signin/page.tsx:22-33 | a code is recognised exactly when it is the name of one of the seven entries |
| SignIn.ErrorMessage | app/auth/signin/page.tsx:20-35 | nothing for an absent or empty code; the entry's text for a known code; `Sign-in error: ` and the code otherwise |
| SignIn.ParseCodeName | app/auth/signin/page.tsx:22-33 | each entry's name is recognised as that entry |
| SignIn.KnownCodes | app/auth/signin/page.tsx:22-34 | each of the seven codes gets its own text |
| SignIn.AccessDeniedText | app/auth/signin/page.tsx:25 | `AccessDenied` reads `Access denied.` |
| SignIn.UnknownCodesDistinct | app/auth/signin/page.tsx:34 | different unknown codes give different texts |
| SignIn.LookupAsWritten | app/auth/signin/page.tsx:22-34 | the record lookup yields an own text for the seven codes, an inherited member for the names every object inherits, nothing otherwise |
| SignIn.ErrorMessageAsWritten | app/auth/signin/page.tsx:20-35 | agrees with `ErrorMessage` whenever it yields text, and yields a non-string exactly for an inherited name |
| SignIn.ConstructorIsNotAMessage | app/auth/signin/page.tsx:34 | the code `constructor` yields a non-string where the generic text was intended |

## Left out

- Database access (the Prisma client): queries, `contains` matching, `orderBy` execution, unique
  indexes and cascades. The model builds the query (`BookList.ListQuery`) and takes the rows the
  database returns, in its order, as input; a failed query is `None`, an insert's failure an
  error code.
- `lib/prisma.ts` (client singleton and file paths) is not part of this model.
- Date values: times are integer milliseconds; `toISOString` formatting, invalid dates in stored
  rows and `new Date(string)` are not modelled — date parsing is the `parseDate`/`toIso`
  parameter.
- The clock: "now" is a parameter of every operation that reads it.
- Letter case: `toUpperCase`/`toLowerCase` map ASCII letters only; Unicode case mappings (for
  instance ones that change length) are not modelled.
- Strings are sequences of characters, not UTF-16 code units, so the 200-character excerpt and
  `length` checks count characters.
- The stats route's 500 answer when the query throws is not modelled: `StatsRoute.Get` takes the
  fetched books.
- `Number()` on a string (decimal, hex, exponent syntax, `Infinity`) is the `parse` parameter,
  which gives a finite number, an infinity or `NaN`; only its blank-string case is fixed. Objects
  with their own `valueOf`/`toString` are not modelled. `JSON.parse` itself is not modelled: a
  body is a value whose numbers may be infinite, as `1e400` parses.
- Error answers carry their status and `error` text only; other fields of an error body (the
  503's `message`, the 400's `details`) are not modelled.
- zod's default issue texts are zod 3's English texts for the checks these schemas make; the
  details of `flatten()` / `fieldErrors` in the 400 bodies are not modelled; the issue paths,
  codes and messages are.
- The OpenAI calls, the prompt text except the per-book line, the stripping of code fences and
  `JSON.parse` of the model's reply: each call is an input, already parsed.
- `getAvailableBooksForSuggestions` and the suggestions route's `GET` (a database read and ISO
  formatting) are not part of this model; the route takes the available books as input.
- The `Unknown` title in the overdue report is unreachable in the model: every loan row carries
  its book.
- NextAuth, Google OAuth and `getServerSession`: the session and the stored user rows are
  inputs; the session callback's database update is an update of `Auth.UserTable`.
- `process.env` is a map from names to strings.
- React rendering and effects beyond the borrow form's state and `handleSubmit`; the form's reset
  on opening is its constructor.
- The checkout and checkin routes and concurrency between requests: their source is not part of
  this model, so the status lemmas take "at most one unreturned loan" as a hypothesis where it is
  needed.
- `app/api/users/route.ts` only combines `requireAdmin` with a read and is not modelled
  separately.

## Findings

| source | as written | input that shows it | evidently intended | confidence | as-written member | corrected member |
|---|---|---|---|---|---|---|
| app/auth/signin/page.tsx:34 | `messages[code] ?? ...` looks the code up on a plain object literal, so names inherited from `Object.prototype` find a function (or the prototype) and `??` does not replace it | the error code `constructor` (also `toString`, `valueOf`, `__proto__`, ...) | only the seven own entries have texts; every other code shows `Sign-in error: <code>` | medium, not executed | SignIn.ErrorMessageAsWritten, SignIn.ConstructorIsNotAMessage | SignIn.ErrorMessage, SignIn.KnownCodes |
