/** app/api/books/suggestions/route.ts: members' suggestions of books to acquire. `POST` trims
    the fields, rejects a blank title or author, and stores blank optional fields as `null`. */
module BookSuggestionsRoute {
  import opened Wrappers
  import opened Text
  import opened JsValues
  import opened Validators
  import opened BooksRoute

  const AddFailed := "Failed to add suggestion"

  /** The output of `createSchema`. */
  datatype SuggestionInput = SuggestionInput(title: string, author: string, category: Option<string>, notes: Option<string>)

  /** What is stored: blank optional fields become `null` (`None`). */
  datatype SuggestionData = SuggestionData(title: string, author: string, category: Option<string>, notes: Option<string>)

  /** The stored row as returned (`createdAt` in milliseconds rather than ISO text). */
  datatype SuggestionRow = SuggestionRow(id: string, title: string, author: string,
                                         category: Option<string>, notes: Option<string>, createdAt: int)

  /** `z.string().trim().min(1, message)`: trimming happens before the length check. */
  function TrimmedRequired(path: string, v: Option<Value>, message: string): (r: Check<string>)
    ensures r.Valid? <==> IsText(v) && !IsBlank(v.value.s)
    ensures r.Valid? ==> r.value == Trim(v.value.s) && r.value != [] && Trimmed(r.value)
    ensures IsText(v) && IsBlank(v.value.s) ==> r == Invalid([Issue(path, TooSmall, message)])
    ensures !IsText(v) ==> r == Invalid([TypeIssue(path, "string", v)])
  {
    if !IsText(v) then Invalid([TypeIssue(path, "string", v)])
    else
      var t := Trim(v.value.s);
      if t == [] then Invalid([Issue(path, TooSmall, message)]) else Valid(t)
  }

  /** `z.string().trim().optional()`: `null` is rejected, a blank string trims to `""`. */
  function TrimmedOptional(path: string, v: Option<Value>): (r: Check<Option<string>>)
    ensures r.Valid? <==> OptionalText(v)
    ensures r.Valid? ==> r.value == if v.None? then None else Some(Trim(v.value.s))
    ensures r.Invalid? ==> r.issues == [TypeIssue(path, "string", v)]
  {
    match OptionalString(path, v)
    case Invalid(issues) => Invalid(issues)
    case Valid(s) => Valid(if s.None? then None else Some(Trim(s.value)))
  }

  /** `createSchema.safeParse(body)`. */
  function CreateSchema(body: Value): (r: Check<SuggestionInput>)
    ensures !body.Obj? ==> r == Invalid(NotAnObject(body))
    ensures r.Valid? <==>
      && body.Obj?
      && IsText(Field(body, "title")) && !IsBlank(body.fields["title"].s)
      && IsText(Field(body, "author")) && !IsBlank(body.fields["author"].s)
      && OptionalText(Field(body, "category")) && OptionalText(Field(body, "notes"))
    ensures r.Valid? ==> r.value.title == Trim(body.fields["title"].s) && r.value.author == Trim(body.fields["author"].s)
    ensures r.Invalid? ==> r.issues != []
  {
    if !body.Obj? then Invalid(NotAnObject(body))
    else
      var title := TrimmedRequired("title", Field(body, "title"), TitleRequired);
      var author := TrimmedRequired("author", Field(body, "author"), AuthorRequired);
      var category := TrimmedOptional("category", Field(body, "category"));
      var notes := TrimmedOptional("notes", Field(body, "notes"));
      if title.Valid? && author.Valid? && category.Valid? && notes.Valid? then
        Valid(SuggestionInput(title.value, author.value, category.value, notes.value))
      else
        Invalid(IssuesOf(title) + IssuesOf(author) + IssuesOf(category) + IssuesOf(notes))
  }

  /** `value || null` on an optional string: `undefined` and `""` become `null`. */
  function OrNull(v: Option<string>): (r: Option<string>)
    ensures r.None? <==> v.None? || v.value == []
    ensures r.Some? ==> r == v
  {
    if v.Some? && v.value != [] then v else None
  }

  /** The `data` of the create call. */
  function ToData(input: SuggestionInput): SuggestionData {
    SuggestionData(input.title, input.author, OrNull(input.category), OrNull(input.notes))
  }

  /** `POST /api/books/suggestions`: `body` is `None` when the request is not JSON, `create`
      stores the data and returns the row, or `None` when the database throws. A rejected body
      is a 400 with `"Validation failed"` and its issues. */
  function Post(body: Option<Value>, create: SuggestionData -> Option<SuggestionRow>): (r: Response<SuggestionRow>)
    ensures body.None? ==> r == HttpError(500, AddFailed)
    ensures body.Some? && CreateSchema(body.value).Invalid? ==> r == HttpError(400, ValidationFailed)
    ensures r.Json? <==>
      body.Some? && CreateSchema(body.value).Valid? && create(ToData(CreateSchema(body.value).value)).Some?
    ensures r.Json? ==> r.body == create(ToData(CreateSchema(body.value).value)).value
    ensures body.Some? && CreateSchema(body.value).Valid? && create(ToData(CreateSchema(body.value).value)).None? ==>
      r == HttpError(500, AddFailed)
  {
    if body.None? then HttpError(500, AddFailed)
    else match CreateSchema(body.value)
      case Invalid(_) => HttpError(400, ValidationFailed)
      case Valid(input) =>
        var row := create(ToData(input));
        if row.Some? then Json(row.value) else HttpError(500, AddFailed)
  }

  /** What is stored: the trimmed, non-empty title and author, and the trimmed category and notes,
      `null` when absent or blank. */
  lemma StoredData(body: Value)
    requires CreateSchema(body).Valid?
    ensures var d := ToData(CreateSchema(body).value);
      && d.title == Trim(body.fields["title"].s) && d.title != [] && Trimmed(d.title)
      && d.author == Trim(body.fields["author"].s) && d.author != [] && Trimmed(d.author)
      && (d.category.None? <==> Field(body, "category").None? || IsBlank(body.fields["category"].s))
      && (d.category.Some? ==> d.category.value == Trim(body.fields["category"].s) && Trimmed(d.category.value))
      && (d.notes.None? <==> Field(body, "notes").None? || IsBlank(body.fields["notes"].s))
      && (d.notes.Some? ==> d.notes.value == Trim(body.fields["notes"].s) && Trimmed(d.notes.value))
  {
  }

  /** A rejected body is answered before anything is stored. */
  lemma RejectedBeforeCreate(body: Value, create1: SuggestionData -> Option<SuggestionRow>,
                             create2: SuggestionData -> Option<SuggestionRow>)
    requires CreateSchema(body).Invalid?
    ensures Post(Some(body), create1) == Post(Some(body), create2)
  {
  }

  /** A title of spaces is rejected with the schema's message, unlike `createBookSchema`, which
      does not trim. */
  lemma BlankTitleRejected(s: string)
    requires IsBlank(s)
    ensures CreateSchema(Obj(map["title" := Str(s), "author" := Str("x")])).Invalid?
    ensures Issue("title", TooSmall, TitleRequired) in
      CreateSchema(Obj(map["title" := Str(s), "author" := Str("x")])).issues
  {
    var body := Obj(map["title" := Str(s), "author" := Str("x")]);
    assert TrimmedRequired("title", Field(body, "title"), TitleRequired) == Invalid([Issue("title", TooSmall, TitleRequired)]);
  }
}
