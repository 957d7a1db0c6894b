/** app/api/books/route.ts: the checks on the list parameters of `GET` and the mapping of
    `POST` outcomes to HTTP statuses. The database is an input: the rows a list query returns,
    and the outcome of an insert. */
module BooksRoute {
  import opened Wrappers
  import opened Text
  import opened JsValues
  import opened LoanStatus
  import opened BookList
  import opened Validators

  /** A JSON response: a 200 with a body, or an error status with the `error` text. */
  datatype Response<T> = Json(body: T) | HttpError(status: int, error: string)

  const StatusValues: seq<string> := ["ALL", "AVAILABLE", "BORROWED"]
  const SortValues: seq<string> := ["title", "author", "newest", "oldest"]

  const InvalidStatus := "Invalid status; use ALL, AVAILABLE, or BORROWED"
  const InvalidSort := "Invalid sort; use title, author, newest, or oldest"
  const ListFailed := "Failed to list books"
  const ValidationFailed := "Validation failed"
  const DuplicateIsbn := "A book with this ISBN already exists"
  const CreateFailed := "Failed to create book"

  /** The parameters `GET` hands to `getBooksList` once they have passed its checks. */
  function RouteParams(query: Option<string>, status: Option<string>, sort: Option<string>): ListParams {
    ListParams(Some(query.GetOr("")), Some(ToUpper(status.GetOr("ALL"))), Some(sort.GetOr("title")))
  }

  /** `GET /api/books`: `rows` is what the list query returns, `None` when it throws. */
  function Get(query: Option<string>, status: Option<string>, sort: Option<string>,
               rows: Option<seq<Book>>, now: int): (r: Response<seq<BookResponse>>)
    ensures ToUpper(status.GetOr("ALL")) !in StatusValues ==> r == HttpError(400, InvalidStatus)
    ensures ToUpper(status.GetOr("ALL")) in StatusValues && sort.GetOr("title") !in SortValues ==>
      r == HttpError(400, InvalidSort)
    ensures r.Json? <==>
      ToUpper(status.GetOr("ALL")) in StatusValues && sort.GetOr("title") in SortValues && rows.Some?
    ensures ToUpper(status.GetOr("ALL")) in StatusValues && sort.GetOr("title") in SortValues && rows.None? ==>
      r == HttpError(500, ListFailed)
    ensures r.HttpError? ==> r.status == 400 || r == HttpError(500, ListFailed)
  {
    var p := RouteParams(query, status, sort);
    if p.status.value !in StatusValues then HttpError(400, InvalidStatus)
    else if p.sort.value !in SortValues then HttpError(400, InvalidSort)
    else if rows.None? then HttpError(500, ListFailed)
    else Json(BooksList(p, rows.value, now))
  }

  /** A rejected request never depends on the books: the list is not fetched. */
  lemma RejectedBeforeFetch(query: Option<string>, status: Option<string>, sort: Option<string>,
                            rows1: Option<seq<Book>>, rows2: Option<seq<Book>>, now: int)
    requires Get(query, status, sort, rows1, now).HttpError? && Get(query, status, sort, rows1, now).status == 400
    ensures Get(query, status, sort, rows2, now) == Get(query, status, sort, rows1, now)
  {
  }

  /** The route's own defaults and its upper-casing agree with the library's, so a list request
      answers exactly what `getBooksList` gives for the raw parameters. */
  lemma GetAgreesWithLibrary(query: Option<string>, status: Option<string>, sort: Option<string>,
                             rows: seq<Book>, now: int)
    requires Get(query, status, sort, Some(rows), now).Json?
    ensures Get(query, status, sort, Some(rows), now).body == BooksList(ListParams(query, status, sort), rows, now)
  {
    var s := status.GetOr("ALL");
    ToUpperFixed(ToUpper(s));
    assert Normalize(RouteParams(query, status, sort)) == Normalize(ListParams(query, status, sort));
  }

  /** The status parameter ignores letter case; an absent one means `ALL`. */
  lemma StatusCaseInsensitive(s: string, t: string, sort: Option<string>, rows: Option<seq<Book>>, now: int)
    requires |s| == |t| && forall i | 0 <= i < |s| :: UpperChar(s[i]) == UpperChar(t[i])
    ensures Get(None, Some(s), sort, rows, now) == Get(None, Some(t), sort, rows, now)
  {
    assert ToUpper(s) == ToUpper(t);
  }

  lemma AbsentStatusIsAll(sort: Option<string>, rows: Option<seq<Book>>, now: int)
    ensures Get(None, None, sort, rows, now) == Get(None, Some("ALL"), sort, rows, now)
    ensures Get(None, None, None, Some([]), now) == Json([])
  {
    ToUpperFixed("ALL");
  }

  /** The sort key is compared as given: `Title` is not `title`. */
  lemma SortCaseSensitive(rows: Option<seq<Book>>, now: int)
    ensures Get(None, None, Some("Title"), rows, now) == HttpError(400, InvalidSort)
  {
    ToUpperFixed("ALL");
    assert forall x | x in SortValues :: x[0] != 'T';
    assert "Title"[0] == 'T';
  }

  // ---------------------------------------------------------------- POST

  /** What the insert did: the created row (with its loans), or an error with its Prisma code. */
  datatype Insert = Created(book: Book) | Failed(code: Option<string>)

  /** `issues.map((e) => e.message)`. */
  function IssueTexts(issues: seq<Issue>): (r: seq<string>)
    ensures |r| == |issues|
    ensures forall k | 0 <= k < |issues| :: r[k] == issues[k].message
  {
    if issues == [] then [] else [issues[0].message] + IssueTexts(issues[1..])
  }

  /** The 400 text: the issue messages joined with `"; "`, or a fixed text when that join is
      empty, which happens exactly when there is no issue or a single one with an empty message. */
  function ValidationError(issues: seq<Issue>): (r: string)
    ensures r != []
    ensures Join(IssueTexts(issues), "; ") != [] ==> r == Join(IssueTexts(issues), "; ")
    ensures Join(IssueTexts(issues), "; ") == [] ==> r == ValidationFailed
    ensures Join(IssueTexts(issues), "; ") == [] <==> issues == [] || (|issues| == 1 && issues[0].message == [])
  {
    var texts := IssueTexts(issues);
    assert |texts| >= 2 ==> Join(texts, "; ") == texts[0] + "; " + Join(texts[1..], "; ");
    var msg := Join(texts, "; ");
    if msg == [] then ValidationFailed else msg
  }

  /** Empty title and author: both schema messages, in field order. */
  lemma EmptyTitleAndAuthor(parse: string -> Number, insert: CreateBookInput -> Insert, now: int)
    ensures Post(Some(Obj(map["title" := Str(""), "author" := Str("")])), parse, insert, now)
      == HttpError(400, TitleRequired + "; " + AuthorRequired)
  {
    var body := Obj(map["title" := Str(""), "author" := Str("")]);
    var issues := [Issue("title", TooSmall, TitleRequired), Issue("author", TooSmall, AuthorRequired)];
    assert CreateBook(body, parse) == Invalid(issues);
    assert IssueTexts(issues) == [TitleRequired, AuthorRequired];
  }

  /** A missing title and a numeric ISBN: zod's default texts for the two type issues, which
      differ by what was received. */
  lemma MissingTitleNumericIsbn(parse: string -> Number, insert: CreateBookInput -> Insert, now: int)
    ensures Post(Some(Obj(map["author" := Str("A"), "isbn" := Num(Finite(5.0))])), parse, insert, now)
      == HttpError(400, "Required" + "; " + "Expected string, received number")
  {
    var body := Obj(map["author" := Str("A"), "isbn" := Num(Finite(5.0))]);
    var isbn := Some(Num(Finite(5.0)));
    TwoTypeIssues(body, isbn, parse);
    var issues := [TypeIssue("title", "string", None), TypeIssue("isbn", "string", isbn)];
    StringReceivedNumber();
    assert IssueTexts(issues) == ["Required", "Expected string, received number"];
    assert Post(Some(body), parse, insert, now) == HttpError(400, ValidationError(issues));
    assert ValidationError(issues) == "Required" + "; " + "Expected string, received number";
  }

  lemma StringReceivedNumber()
    ensures TypeMessage("string", TypeName(Some(Num(Finite(5.0))))) == "Expected string, received number"
  {
    assert TypeName(Some(Num(Finite(5.0)))) == "number";
    var text := "Expected " + "string" + ", received " + "number";
    assert TypeMessage("string", "number") == text;
    assert |text| == 32;
    assert forall i | 0 <= i < 32 :: text[i] == "Expected string, received number"[i];
  }

  /** `POST /api/books`. `body` is `None` when the request is not JSON; `insert` is the database
      create for the validated input. */
  function Post(body: Option<Value>, parse: string -> Number, insert: CreateBookInput -> Insert,
                now: int): (r: Response<BookResponse>)
    ensures body.None? ==> r == HttpError(500, CreateFailed)
    ensures body.Some? && CreateBook(body.value, parse).Invalid? ==>
      r == HttpError(400, ValidationError(CreateBook(body.value, parse).issues))
    ensures body.Some? && CreateBook(body.value, parse).Valid? ==>
      var out := insert(CreateBook(body.value, parse).value);
      out.Failed? && out.code != Some("P2002") ==> r == HttpError(500, CreateFailed)
    ensures r.Json? <==>
      body.Some? && CreateBook(body.value, parse).Valid? && insert(CreateBook(body.value, parse).value).Created?
    ensures r.Json? ==> r.body == ToBookResponse(insert(CreateBook(body.value, parse).value).book, now)
    ensures r.HttpError? && r.status == 409 <==>
      body.Some? && CreateBook(body.value, parse).Valid?
      && insert(CreateBook(body.value, parse).value) == Failed(Some("P2002"))
    ensures r.HttpError? ==> r.status in {400, 409, 500}
  {
    if body.None? then HttpError(500, CreateFailed)
    else
      var parsed := CreateBook(body.value, parse);
      if parsed.Invalid? then HttpError(400, ValidationError(parsed.issues))
      else
        match insert(parsed.value)
        case Created(book) => Json(ToBookResponse(book, now))
        case Failed(code) =>
          if code == Some("P2002") then HttpError(409, DuplicateIsbn) else HttpError(500, CreateFailed)
  }

  /** A body that fails validation is answered before anything is inserted. */
  lemma InvalidBodyNotInserted(body: Value, parse: string -> Number, insert1: CreateBookInput -> Insert,
                               insert2: CreateBookInput -> Insert, now: int)
    requires CreateBook(body, parse).Invalid?
    ensures Post(Some(body), parse, insert1, now) == Post(Some(body), parse, insert2, now)
  {
  }

  /** A newly created book has no loans, so it is returned as available and not overdue. */
  lemma CreatedBookAvailable(body: Value, parse: string -> Number, insert: CreateBookInput -> Insert, now: int)
    requires CreateBook(body, parse).Valid?
    requires insert(CreateBook(body, parse).value).Created?
    requires insert(CreateBook(body, parse).value).book.loans == []
    ensures Post(Some(body), parse, insert, now).Json?
    ensures Post(Some(body), parse, insert, now).body.status == Available
    ensures Post(Some(body), parse, insert, now).body.activeLoan == None
    ensures !Post(Some(body), parse, insert, now).body.overdue
  {
    NewBookResponse(insert(CreateBook(body, parse).value).book, now);
  }
}
