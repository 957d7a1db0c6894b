/** lib/validators.ts: the zod schemas for request bodies, written as explicit checks and
    transforms. Each schema either accepts the body and returns its output, or reports its
    issues in the order zod finds them (object fields in declaration order). */
module Validators {
  import opened Wrappers
  import opened Text
  import opened JsValues
  import opened Auth

  const TitleRequired := "Title is required"
  const AuthorRequired := "Author is required"
  const BorrowerNameRequired := "Borrower name is required"
  const RoleMessage := "Role must be Admin or Normal"

  datatype IssueCode = InvalidType | TooSmall | TooBig | NotInteger | InvalidUnion | InvalidEnumValue

  /** A zod issue: the field it is about (`""` for the body itself), its kind, and its message:
      the schema's own text where it gives one, otherwise zod 3's default English text. */
  datatype Issue = Issue(path: string, code: IssueCode, message: string)

  /** zod's default texts for the checks these schemas make. */
  const NonEmptyDefault := "String must contain at least 1 character(s)"
  const NotIntegerDefault := "Expected integer, received float"
  const YearMinDefault := "Number must be greater than or equal to 1"
  const YearMaxDefault := "Number must be less than or equal to 2100"
  const UnionDefault := "Invalid input"

  /** zod's name for the type of a value (`getParsedType`); a missing field is `undefined`. */
  function TypeName(v: Option<Value>): string {
    if v.None? then "undefined"
    else match v.value
      case Null => "null"
      case Bool(_) => "boolean"
      case Num(n) => if n.NaN? then "nan" else "number"
      case Str(_) => "string"
      case Date(_) => "date"
      case Arr(_) => "array"
      case Obj(_) => "object"
  }

  /** zod's default text for a value of the wrong type: `Required` when it is missing. */
  function TypeMessage(expected: string, received: string): (r: string)
    ensures received == "undefined" <==> r == "Required"
    ensures received != "undefined" ==>
      |r| > 9 + |received| && r[..9] == "Expected " && r[|r| - |received|..] == received
    ensures received != "undefined" ==>
      && |r| == 20 + |expected| + |received|
      && r[9..9 + |expected|] == expected
      && r[9 + |expected|..|r| - |received|] == ", received "
  {
    if received == "undefined" then "Required" else "Expected " + expected + ", received " + received
  }

  /** The issue for a value that is not of the expected type. */
  function TypeIssue(path: string, expected: string, v: Option<Value>): Issue {
    Issue(path, InvalidType, TypeMessage(expected, TypeName(v)))
  }

  /** The outcome of `safeParse` on one field or one whole body. */
  datatype Check<T> = Valid(value: T) | Invalid(issues: seq<Issue>)

  function IssuesOf<T>(c: Check<T>): seq<Issue> {
    if c.Valid? then [] else c.issues
  }

  /** A field of an update: left out, set to `null`, or set to a value. */
  datatype Patch<T> = Unset | SetNull | SetTo(value: T)

  predicate IsText(v: Option<Value>) {
    v.Some? && v.value.Str?
  }

  predicate NonEmptyText(v: Option<Value>) {
    IsText(v) && v.value.s != []
  }

  predicate OptionalText(v: Option<Value>) {
    v.None? || v.value.Str?
  }

  /** What `z.coerce.number().int().min(1).max(2100)` accepts: a value whose `Number(…)` is an
      integer from 1 to 2100. */
  predicate YearValue(v: Value, parse: string -> Number) {
    var n := ToNumber(v, parse);
    n.Finite? && IsInteger(n.x) && 1.0 <= n.x <= 2100.0
  }

  /** `z.string().min(1, message)` on a field that must be present; without a message of its own
      the too-small issue has zod's default text. */
  function RequiredText(path: string, v: Option<Value>, message: Option<string>): (r: Check<string>)
    ensures r.Valid? <==> NonEmptyText(v)
    ensures r.Valid? ==> r.value == v.value.s
    ensures r.Invalid? ==> |r.issues| == 1
    ensures IsText(v) && !NonEmptyText(v) ==> r == Invalid([Issue(path, TooSmall, message.GetOr(NonEmptyDefault))])
    ensures !IsText(v) ==> r == Invalid([TypeIssue(path, "string", v)])
  {
    if !IsText(v) then Invalid([TypeIssue(path, "string", v)])
    else if v.value.s == [] then Invalid([Issue(path, TooSmall, message.GetOr(NonEmptyDefault))])
    else Valid(v.value.s)
  }

  /** `z.string().min(1).optional()`. */
  function OptionalNonEmptyText(path: string, v: Option<Value>): (r: Check<Option<string>>)
    ensures r.Valid? <==> v.None? || NonEmptyText(v)
    ensures r.Valid? ==> r.value == if v.None? then None else Some(v.value.s)
    ensures r.Invalid? ==> |r.issues| == 1
  {
    if v.None? then Valid(None)
    else match RequiredText(path, v, None)
      case Valid(s) => Valid(Some(s))
      case Invalid(issues) => Invalid(issues)
  }

  /** `z.string().optional()`: `null` is rejected. */
  function OptionalString(path: string, v: Option<Value>): (r: Check<Option<string>>)
    ensures r.Valid? <==> OptionalText(v)
    ensures r.Valid? ==> r.value == if v.None? then None else Some(v.value.s)
    ensures r.Invalid? ==> r.issues == [TypeIssue(path, "string", v)]
  {
    if v.None? then Valid(None)
    else if v.value.Str? then Valid(Some(v.value.s))
    else Invalid([TypeIssue(path, "string", v)])
  }

  /** `z.string().optional().nullable()`. */
  function NullableString(path: string, v: Option<Value>): (r: Check<Patch<string>>)
    ensures r.Valid? <==> v.None? || v.value.Null? || v.value.Str?
    ensures r.Valid? ==> r.value == if v.None? then Unset else if v.value.Null? then SetNull else SetTo(v.value.s)
    ensures r.Invalid? ==> |r.issues| == 1
  {
    if v.Some? && v.value.Null? then Valid(SetNull)
    else match OptionalString(path, v)
      case Valid(s) => Valid(if s.None? then Unset else SetTo(s.value))
      case Invalid(issues) => Invalid(issues)
  }

  /** zod reports a failed `int()` as an invalid type, expected integer, received float. */
  function NotIntegerIssue(path: string): Issue {
    Issue(path, NotInteger, NotIntegerDefault)
  }

  /** `z.coerce.number().int().min(1).max(2100)` on a present value: `NaN` after coercion
      stops at once with an invalid-type issue; any other number goes through the three checks,
      each adding its issue. An infinity is not an integer (zod reports that as an invalid
      type, expected integer, written `NotInteger` here) and is out of range on its side. */
  function Year(path: string, v: Value, parse: string -> Number): (r: Check<int>)
    ensures r.Valid? <==> YearValue(v, parse)
    ensures r.Valid? ==> 1 <= r.value <= 2100 && ToNumber(v, parse) == Finite(r.value as real)
    ensures r.Invalid? ==> 1 <= |r.issues| <= 2
    ensures ToNumber(v, parse).NaN? ==> r == Invalid([Issue(path, InvalidType, TypeMessage("number", "nan"))])
    ensures ToNumber(v, parse).PosInfinity? ==> r == Invalid([NotIntegerIssue(path), Issue(path, TooBig, YearMaxDefault)])
    ensures ToNumber(v, parse).NegInfinity? ==> r == Invalid([NotIntegerIssue(path), Issue(path, TooSmall, YearMinDefault)])
  {
    match ToNumber(v, parse)
    case NaN => Invalid([Issue(path, InvalidType, TypeMessage("number", "nan"))])
    case PosInfinity => Invalid([NotIntegerIssue(path), Issue(path, TooBig, YearMaxDefault)])
    case NegInfinity => Invalid([NotIntegerIssue(path), Issue(path, TooSmall, YearMinDefault)])
    case Finite(x) =>
      var issues :=
        (if IsInteger(x) then [] else [NotIntegerIssue(path)])
        + (if x < 1.0 then [Issue(path, TooSmall, YearMinDefault)] else [])
        + (if x > 2100.0 then [Issue(path, TooBig, YearMaxDefault)] else []);
      if issues == [] then Valid(x.Floor) else Invalid(issues)
  }

  /** The create schema's `publishedYear`: absent is fine; anything present, `null` included,
      is coerced and checked. */
  function OptionalYear(path: string, v: Option<Value>, parse: string -> Number): (r: Check<Option<int>>)
    ensures r.Valid? <==> v.None? || YearValue(v.value, parse)
    ensures r.Valid? && r.value.Some? ==> v.Some? && 1 <= r.value.value <= 2100
    ensures r.Invalid? ==> r.issues != []
  {
    if v.None? then Valid(None)
    else match Year(path, v.value, parse)
      case Valid(y) => Valid(Some(y))
      case Invalid(issues) => Invalid(issues)
  }

  /** The update schema's `publishedYear`: `null` clears the field instead of being coerced. */
  function NullableYear(path: string, v: Option<Value>, parse: string -> Number): (r: Check<Patch<int>>)
    ensures r.Valid? <==> v.None? || v.value.Null? || YearValue(v.value, parse)
    ensures r.Valid? && r.value.SetTo? ==> 1 <= r.value.value <= 2100
    ensures v.Some? && v.value.Null? ==> r == Valid(SetNull)
    ensures r.Invalid? ==> r.issues != []
  {
    if v.None? then Valid(Unset)
    else if v.value.Null? then Valid(SetNull)
    else match Year(path, v.value, parse)
      case Valid(y) => Valid(SetTo(y))
      case Invalid(issues) => Invalid(issues)
  }

  /** The body must be a plain object; anything else is one type issue on the body itself. */
  function NotAnObject(body: Value): seq<Issue> {
    [TypeIssue("", "object", Some(body))]
  }

  // ---------------------------------------------------------------- createBookSchema

  datatype CreateBookInput = CreateBookInput(
    title: string,
    author: string,
    isbn: Option<string>,
    category: Option<string>,
    publishedYear: Option<int>,
    description: Option<string>)

  /** An optional output field that carries exactly the input string, or is absent with it. */
  predicate CopiedText(o: Option<string>, v: Option<Value>) {
    match o
    case None => v.None?
    case Some(t) => v == Some(Str(t))
  }

  /** An optional year that is absent with its field, or is the number the field coerces to. */
  predicate CoercedYear(o: Option<int>, v: Option<Value>, parse: string -> Number) {
    match o
    case None => v.None?
    case Some(y) => v.Some? && ToNumber(v.value, parse) == Finite(y as real)
  }

  /** `createBookSchema.safeParse(body)`; `parse` converts a non-blank string to a number. */
  function CreateBook(body: Value, parse: string -> Number): (r: Check<CreateBookInput>)
    ensures !body.Obj? ==> r == Invalid(NotAnObject(body))
    ensures r.Valid? <==>
      && body.Obj?
      && NonEmptyText(Field(body, "title")) && NonEmptyText(Field(body, "author"))
      && OptionalText(Field(body, "isbn")) && OptionalText(Field(body, "category"))
      && OptionalText(Field(body, "description"))
      && (Field(body, "publishedYear").None? || YearValue(body.fields["publishedYear"], parse))
    ensures r.Valid? ==> r.value.title == body.fields["title"].s && r.value.author == body.fields["author"].s
    ensures r.Valid? && r.value.publishedYear.Some? ==> 1 <= r.value.publishedYear.value <= 2100
    ensures r.Valid? ==>
      && CopiedText(r.value.isbn, Field(body, "isbn")) && CopiedText(r.value.category, Field(body, "category"))
      && CopiedText(r.value.description, Field(body, "description"))
      && CoercedYear(r.value.publishedYear, Field(body, "publishedYear"), parse)
    ensures r.Invalid? ==> r.issues != []
  {
    if !body.Obj? then Invalid(NotAnObject(body))
    else
      var title := RequiredText("title", Field(body, "title"), Some(TitleRequired));
      var author := RequiredText("author", Field(body, "author"), Some(AuthorRequired));
      var isbn := OptionalString("isbn", Field(body, "isbn"));
      var category := OptionalString("category", Field(body, "category"));
      var year := OptionalYear("publishedYear", Field(body, "publishedYear"), parse);
      var description := OptionalString("description", Field(body, "description"));
      if title.Valid? && author.Valid? && isbn.Valid? && category.Valid? && year.Valid? && description.Valid? then
        Valid(CreateBookInput(title.value, author.value, isbn.value, category.value, year.value, description.value))
      else
        Invalid(IssuesOf(title) + IssuesOf(author) + IssuesOf(isbn) + IssuesOf(category)
          + IssuesOf(year) + IssuesOf(description))
  }

  // ---------------------------------------------------------------- updateBookSchema

  datatype UpdateBookInput = UpdateBookInput(
    title: Option<string>,
    author: Option<string>,
    isbn: Patch<string>,
    category: Patch<string>,
    publishedYear: Patch<int>,
    description: Patch<string>)

  predicate NullableText(v: Option<Value>) {
    v.None? || v.value.Null? || v.value.Str?
  }

  /** A nullable output field: left out, cleared by `null`, or set to exactly the input string. */
  predicate PatchedText(p: Patch<string>, v: Option<Value>) {
    match p
    case Unset => v.None?
    case SetNull => v == Some(Null)
    case SetTo(t) => v == Some(Str(t))
  }

  /** A nullable year: left out, cleared by `null`, or set to the number the field coerces to. */
  predicate PatchedYear(p: Patch<int>, v: Option<Value>, parse: string -> Number) {
    match p
    case Unset => v.None?
    case SetNull => v == Some(Null)
    case SetTo(y) => v.Some? && !v.value.Null? && ToNumber(v.value, parse) == Finite(y as real)
  }

  /** `updateBookSchema.safeParse(body)`. */
  function UpdateBook(body: Value, parse: string -> Number): (r: Check<UpdateBookInput>)
    ensures !body.Obj? ==> r == Invalid(NotAnObject(body))
    ensures r.Valid? <==>
      && body.Obj?
      && (Field(body, "title").None? || NonEmptyText(Field(body, "title")))
      && (Field(body, "author").None? || NonEmptyText(Field(body, "author")))
      && NullableText(Field(body, "isbn")) && NullableText(Field(body, "category"))
      && NullableText(Field(body, "description"))
      && (var y := Field(body, "publishedYear"); y.None? || y.value.Null? || YearValue(y.value, parse))
    ensures r.Valid? && r.value.publishedYear.SetTo? ==> 1 <= r.value.publishedYear.value <= 2100
    ensures r.Valid? ==>
      && CopiedText(r.value.title, Field(body, "title")) && CopiedText(r.value.author, Field(body, "author"))
      && PatchedText(r.value.isbn, Field(body, "isbn")) && PatchedText(r.value.category, Field(body, "category"))
      && PatchedText(r.value.description, Field(body, "description"))
      && PatchedYear(r.value.publishedYear, Field(body, "publishedYear"), parse)
    ensures r.Invalid? ==> r.issues != []
  {
    if !body.Obj? then Invalid(NotAnObject(body))
    else
      var title := OptionalNonEmptyText("title", Field(body, "title"));
      var author := OptionalNonEmptyText("author", Field(body, "author"));
      var isbn := NullableString("isbn", Field(body, "isbn"));
      var category := NullableString("category", Field(body, "category"));
      var year := NullableYear("publishedYear", Field(body, "publishedYear"), parse);
      var description := NullableString("description", Field(body, "description"));
      if title.Valid? && author.Valid? && isbn.Valid? && category.Valid? && year.Valid? && description.Valid? then
        Valid(UpdateBookInput(title.value, author.value, isbn.value, category.value, year.value, description.value))
      else
        Invalid(IssuesOf(title) + IssuesOf(author) + IssuesOf(isbn) + IssuesOf(category)
          + IssuesOf(year) + IssuesOf(description))
  }

  /** Every field of an update is optional: the empty object is a valid update that changes nothing. */
  lemma EmptyUpdate(parse: string -> Number)
    ensures UpdateBook(Obj(map[]), parse) == Valid(UpdateBookInput(None, None, Unset, Unset, Unset, Unset))
  {
  }

  /** The create schema is the stricter one: a valid new book is also a valid update, setting
      exactly the fields it carries. */
  lemma CreateIsValidUpdate(body: Value, parse: string -> Number)
    requires CreateBook(body, parse).Valid?
    ensures UpdateBook(body, parse).Valid?
    ensures var c := CreateBook(body, parse).value; var u := UpdateBook(body, parse).value;
      && u.title == Some(c.title) && u.author == Some(c.author)
      && u.publishedYear == (if c.publishedYear.Some? then SetTo(c.publishedYear.value) else Unset)
      && u.isbn == (if c.isbn.Some? then SetTo(c.isbn.value) else Unset)
  {
  }

  /** `null` as the year: the create schema coerces it to 0 and rejects it as too small; the
      update schema clears the year. */
  lemma NullYear(parse: string -> Number)
    ensures var body := Obj(map["title" := Str("T"), "author" := Str("A"), "publishedYear" := Null]);
      && CreateBook(body, parse) == Invalid([Issue("publishedYear", TooSmall, YearMinDefault)])
      && UpdateBook(body, parse).Valid? && UpdateBook(body, parse).value.publishedYear == SetNull
  {
    var body := Obj(map["title" := Str("T"), "author" := Str("A"), "publishedYear" := Null]);
    assert Field(body, "isbn") == None && Field(body, "category") == None && Field(body, "description") == None;
    assert Year("publishedYear", Null, parse) == Invalid([Issue("publishedYear", TooSmall, YearMinDefault)]);
  }

  /** With a title, an author and no other text field, a new book's only issues are its year's. */
  lemma OnlyYearIssues(body: Value, parse: string -> Number)
    requires NonEmptyText(Field(body, "title")) && NonEmptyText(Field(body, "author"))
    requires Field(body, "isbn").None? && Field(body, "category").None? && Field(body, "description").None?
    ensures var year := OptionalYear("publishedYear", Field(body, "publishedYear"), parse);
      && (year.Valid? ==> CreateBook(body, parse).Valid?)
      && (year.Invalid? ==> CreateBook(body, parse) == Invalid(year.issues))
  {
    var year := OptionalYear("publishedYear", Field(body, "publishedYear"), parse);
    assert [] + [] + [] + [] + IssuesOf(year) + [] == IssuesOf(year);
  }

  /** A year string that reads as `Infinity` is a number to zod, so it is not stopped as an
      invalid type: it fails the integer check and the maximum. */
  lemma InfiniteYear(body: Value, s: string, parse: string -> Number)
    requires NonEmptyText(Field(body, "title")) && NonEmptyText(Field(body, "author"))
    requires Field(body, "isbn").None? && Field(body, "category").None? && Field(body, "description").None?
    requires Field(body, "publishedYear") == Some(Str(s)) && !IsBlank(s) && parse(Trim(s)) == PosInfinity
    ensures CreateBook(body, parse) == Invalid([NotIntegerIssue("publishedYear"), Issue("publishedYear", TooBig, YearMaxDefault)])
  {
    assert ToNumber(Str(s), parse) == PosInfinity;
    OnlyYearIssues(body, parse);
  }

  /** A body with an author, no title and a non-string ISBN has exactly two issues: the title's
      and then the ISBN's, each a type issue on what was received. */
  lemma TwoTypeIssues(body: Value, isbn: Option<Value>, parse: string -> Number)
    requires isbn.Some? && !isbn.value.Str? && body == Obj(map["author" := Str("A"), "isbn" := isbn.value])
    ensures CreateBook(body, parse) == Invalid([TypeIssue("title", "string", None), TypeIssue("isbn", "string", isbn)])
  {
    assert Field(body, "title") == None && Field(body, "isbn") == isbn;
    assert Field(body, "category") == None && Field(body, "description") == None;
    assert Field(body, "publishedYear") == None;
    var t := TypeIssue("title", "string", None);
    var i := TypeIssue("isbn", "string", isbn);
    assert IssuesOf(RequiredText("title", Field(body, "title"), Some(TitleRequired))) == [t];
    assert IssuesOf(OptionalString("isbn", Field(body, "isbn"))) == [i];
    assert CreateBook(body, parse) == Invalid([t] + [] + [i] + [] + [] + []);
  }

  /** Titles and authors are not trimmed: a whitespace-only title is accepted as it is, while
      the empty title is reported with its message. */
  lemma UntrimmedTitle(parse: string -> Number)
    ensures CreateBook(Obj(map["title" := Str(" "), "author" := Str("A")]), parse)
      == Valid(CreateBookInput(" ", "A", None, None, None, None))
    ensures CreateBook(Obj(map["title" := Str(""), "author" := Str("A")]), parse)
      == Invalid([Issue("title", TooSmall, TitleRequired)])
  {
    var b1 := Obj(map["title" := Str(" "), "author" := Str("A")]);
    var b2 := Obj(map["title" := Str(""), "author" := Str("A")]);
    assert Field(b1, "isbn") == None && Field(b1, "category") == None && Field(b1, "description") == None;
    assert Field(b1, "publishedYear") == None;
    assert Field(b2, "isbn") == None && Field(b2, "category") == None && Field(b2, "description") == None;
    assert Field(b2, "publishedYear") == None;
  }

  /** Both schemas accept the same present, non-null years, and read the same number from them. */
  lemma YearAgreement(path: string, v: Value, parse: string -> Number)
    requires !v.Null?
    ensures OptionalYear(path, Some(v), parse).Valid? <==> NullableYear(path, Some(v), parse).Valid?
    ensures OptionalYear(path, Some(v), parse).Valid? ==>
      NullableYear(path, Some(v), parse).value == SetTo(OptionalYear(path, Some(v), parse).value.value)
  {
  }

  // ---------------------------------------------------------------- checkoutSchema

  /** A JavaScript `Date`; `time` is `None` for an invalid date. */
  datatype DateObject = DateObject(time: Option<int>)

  datatype CheckoutInput = CheckoutInput(
    borrowerName: string,
    borrowerEmail: Option<string>,
    borrowerPhone: Option<string>,
    dueAt: Option<DateObject>)

  /** `z.string().optional().transform((v) => v?.trim() || undefined)`. */
  function TrimmedOrUndefined(path: string, v: Option<Value>): (r: Check<Option<string>>)
    ensures r.Valid? <==> OptionalText(v)
    ensures r.Valid? ==> (r.value.None? <==> v.None? || IsBlank(v.value.s))
    ensures r.Valid? && r.value.Some? ==> r.value.value == Trim(v.value.s)
    ensures r.Invalid? ==> |r.issues| == 1
  {
    match OptionalString(path, v)
    case Invalid(issues) => Invalid(issues)
    case Valid(s) =>
      if s.None? then Valid(None)
      else
        var t := Trim(s.value);
        Valid(if t == [] then None else Some(t))
  }

  /** `dueAt`: `z.union([z.string(), z.date()]).optional()` followed by the transform that keeps a
      `Date`, builds a `Date` from a non-empty string (`parseDate` is `new Date(v)`, whose result
      may be an invalid date), and turns anything else into `undefined`. */
  function DueAt(path: string, v: Option<Value>, parseDate: string -> Option<int>): (r: Check<Option<DateObject>>)
    ensures r.Valid? <==> v.None? || v.value.Str? || v.value.Date?
    ensures v.Some? && v.value.Date? ==> r == Valid(Some(DateObject(Some(v.value.time))))
    ensures v.Some? && v.value.Str? && v.value.s != [] ==> r == Valid(Some(DateObject(parseDate(v.value.s))))
    ensures v.None? || (v.value.Str? && v.value.s == []) ==> r == Valid(None)
    ensures r.Invalid? ==> r.issues == [Issue(path, InvalidUnion, UnionDefault)]
  {
    if v.None? then Valid(None)
    else match v.value
      case Date(t) => Valid(Some(DateObject(Some(t))))
      case Str(s) => Valid(if s != [] then Some(DateObject(parseDate(s))) else None)
      case _ => Invalid([Issue(path, InvalidUnion, UnionDefault)])
  }

  /** `checkoutSchema.safeParse(body)`. */
  function Checkout(body: Value, parseDate: string -> Option<int>): (r: Check<CheckoutInput>)
    ensures !body.Obj? ==> r == Invalid(NotAnObject(body))
    ensures r.Valid? <==>
      && body.Obj? && NonEmptyText(Field(body, "borrowerName"))
      && OptionalText(Field(body, "borrowerEmail")) && OptionalText(Field(body, "borrowerPhone"))
      && (var d := Field(body, "dueAt"); d.None? || d.value.Str? || d.value.Date?)
    ensures r.Valid? ==> r.value.borrowerName == body.fields["borrowerName"].s
    ensures r.Valid? ==> (r.value.borrowerEmail.None? <==> var e := Field(body, "borrowerEmail"); e.None? || IsBlank(e.value.s))
    ensures r.Valid? && r.value.borrowerEmail.Some? ==> r.value.borrowerEmail.value == Trim(body.fields["borrowerEmail"].s)
    ensures r.Valid? ==> (r.value.borrowerPhone.None? <==> var p := Field(body, "borrowerPhone"); p.None? || IsBlank(p.value.s))
    ensures r.Valid? && r.value.borrowerPhone.Some? ==> r.value.borrowerPhone.value == Trim(body.fields["borrowerPhone"].s)
    ensures r.Valid? ==> r.value.dueAt == DueAt("dueAt", Field(body, "dueAt"), parseDate).value
    ensures body.Obj? && Field(body, "borrowerName") == Some(Str("")) ==>
      r.Invalid? && |r.issues| > 0 && r.issues[0] == Issue("borrowerName", TooSmall, BorrowerNameRequired)
    ensures r.Invalid? ==> r.issues != []
  {
    if !body.Obj? then Invalid(NotAnObject(body))
    else
      var name := RequiredText("borrowerName", Field(body, "borrowerName"), Some(BorrowerNameRequired));
      var email := TrimmedOrUndefined("borrowerEmail", Field(body, "borrowerEmail"));
      var phone := TrimmedOrUndefined("borrowerPhone", Field(body, "borrowerPhone"));
      var due := DueAt("dueAt", Field(body, "dueAt"), parseDate);
      if name.Valid? && email.Valid? && phone.Valid? && due.Valid? then
        Valid(CheckoutInput(name.value, email.value, phone.value, due.value))
      else
        Invalid(IssuesOf(name) + IssuesOf(email) + IssuesOf(phone) + IssuesOf(due))
  }

  /** The email and phone the schema outputs are already trimmed and non-blank, so trimming them
      again (as the checkout handler does) changes nothing. */
  lemma CheckoutContactsTrimmed(body: Value, parseDate: string -> Option<int>)
    requires Checkout(body, parseDate).Valid?
    ensures var c := Checkout(body, parseDate).value;
      && (c.borrowerEmail.Some? ==> Trim(c.borrowerEmail.value) == c.borrowerEmail.value != [])
      && (c.borrowerPhone.Some? ==> Trim(c.borrowerPhone.value) == c.borrowerPhone.value != [])
  {
    var c := Checkout(body, parseDate).value;
    if c.borrowerEmail.Some? {
      TrimIdempotent(body.fields["borrowerEmail"].s);
    }
    if c.borrowerPhone.Some? {
      TrimIdempotent(body.fields["borrowerPhone"].s);
    }
  }

  // ---------------------------------------------------------------- updateUserRoleSchema

  /** `updateUserRoleSchema.safeParse(body)`: the schema's message covers every way `role` can
      be wrong (missing, not a string, or another string). */
  function UpdateUserRole(body: Value): (r: Check<Role>)
    ensures !body.Obj? ==> r == Invalid(NotAnObject(body))
    ensures r.Valid? <==> body.Obj? && (Field(body, "role") == Some(Str("ADMIN")) || Field(body, "role") == Some(Str("MEMBER")))
    ensures r.Valid? ==> r.value == (if body.fields["role"] == Str("ADMIN") then Admin else Member)
    ensures body.Obj? && r.Invalid? ==> |r.issues| == 1 && r.issues[0].message == RoleMessage
  {
    if !body.Obj? then Invalid(NotAnObject(body))
    else
      var v := Field(body, "role");
      if v == Some(Str("ADMIN")) then Valid(Admin)
      else if v == Some(Str("MEMBER")) then Valid(Member)
      else if IsText(v) then Invalid([Issue("role", InvalidEnumValue, RoleMessage)])
      else Invalid([Issue("role", InvalidType, RoleMessage)])
  }

  /** No request can make a user a librarian: that role is never the output. */
  lemma NoLibrarianByRequest(body: Value)
    ensures UpdateUserRole(body) != Valid(Librarian)
    ensures UpdateUserRole(Obj(map["role" := Str("LIBRARIAN")])).Invalid?
  {
  }
}
