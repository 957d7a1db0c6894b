/** app/api/ai/suggest/route.ts: book suggestions from a language model. The model is asked to
    pick from the available books; its answer is filtered to known ids, capped at five and joined
    with the books; when nothing is left, a second request asks for one book outside the library.
    The two model calls are inputs: what each returned, already parsed as JSON. */
module AiSuggest {
  import opened Wrappers
  import opened Text
  import opened JsValues
  import opened BooksRoute

  const MaxInputs := 5
  const MaxSuggestions := 5
  const ExcerptLength := 200

  const InvalidInput := "Invalid input"
  const NotConfigured := "AI suggestions are not configured"
  const ServiceError := "AI service error"
  const SuggestFailed := "Failed to get suggestions"
  const NoBooksMessage := "No books are currently available to suggest."

  /** A book offered to the model: an available book's listed fields. */
  datatype AvailableBook = AvailableBook(id: string, title: string, author: string,
                                         category: Option<string>, description: Option<string>)

  /** The outcome of one call to the model: the request threw, the reply was not `ok`, or the
      reply's content parsed as `parsed` (`None` when it is not valid JSON). */
  datatype AiCall = Threw | NotOk | Replied(parsed: Option<Value>)

  /** A model item that passed the filter. */
  datatype Pick = Pick(bookId: string, reason: string)

  datatype Suggestion = Suggestion(book: AvailableBook, reason: string)

  /** A book the model proposes from outside the library. */
  datatype AiBook = AiBook(title: string, author: string, category: Option<string>)

  datatype SuggestBody = SuggestBody(suggestions: seq<Suggestion>, message: Option<string>, aiSuggestedBook: Option<AiBook>)

  // ---------------------------------------------------------------- input

  function TrimAll(xs: seq<Value>): (r: seq<string>)
    requires forall k | 0 <= k < |xs| :: xs[k].Str?
    ensures |r| == |xs|
    ensures forall k | 0 <= k < |xs| :: r[k] == Trim(xs[k].s)
  {
    if xs == [] then [] else [Trim(xs[0].s)] + TrimAll(xs[1..])
  }

  predicate AllStrings(xs: seq<Value>) {
    forall k | 0 <= k < |xs| :: xs[k].Str?
  }

  /** `suggestSchema`: `inputs` must be an array of one to five strings, each trimmed. A string
      that trims to nothing still counts. */
  function ParseInputs(body: Value): (r: Option<seq<string>>)
    ensures r.Some? <==>
      var v := Field(body, "inputs");
      v.Some? && v.value.Arr? && AllStrings(v.value.items) && 1 <= |v.value.items| <= MaxInputs
    ensures r.Some? ==> 1 <= |r.value| <= MaxInputs
    ensures r.Some? ==> var items := body.fields["inputs"].items;
      |r.value| == |items| && forall k | 0 <= k < |items| :: r.value[k] == Trim(items[k].s)
  {
    var v := Field(body, "inputs");
    if v.Some? && v.value.Arr? && AllStrings(v.value.items) && 1 <= |v.value.items| <= MaxInputs
    then Some(TrimAll(v.value.items))
    else None
  }

  // ---------------------------------------------------------------- the model's answer

  /** The parsed answer as a list of items: anything but an array, or text that did not parse,
      is no items at all. */
  function Items(parsed: Option<Value>): (r: seq<Value>)
    ensures parsed.None? || !parsed.value.Arr? ==> r == []
    ensures parsed.Some? && parsed.value.Arr? ==> r == parsed.value.items
  {
    if parsed.Some? && parsed.value.Arr? then parsed.value.items else []
  }

  predicate InIds(id: string, books: seq<AvailableBook>) {
    exists i | 0 <= i < |books| :: books[i].id == id
  }

  /** The filter: `bookId` and `reason` are strings and `bookId` is one of the books'. */
  predicate IsPick(x: Value, books: seq<AvailableBook>) {
    && Field(x, "bookId").Some? && Field(x, "bookId").value.Str?
    && Field(x, "reason").Some? && Field(x, "reason").value.Str?
    && InIds(x.fields["bookId"].s, books)
  }

  function PickOf(x: Value, books: seq<AvailableBook>): Pick
    requires IsPick(x, books)
  {
    Pick(x.fields["bookId"].s, x.fields["reason"].s)
  }

  /** The items that pass the filter, in the model's order, duplicates included. */
  function KeepPicks(items: seq<Value>, books: seq<AvailableBook>): (r: seq<Pick>)
    ensures |r| <= |items|
    ensures forall k | 0 <= k < |r| :: InIds(r[k].bookId, books)
  {
    if items == [] then []
    else
      var rest := KeepPicks(items[1..], books);
      if IsPick(items[0], books) then [PickOf(items[0], books)] + rest else rest
  }

  /** Filtering distributes over concatenation: kept items stay in their order. */
  lemma {:induction false} KeepPicksAppend(a: seq<Value>, b: seq<Value>, books: seq<AvailableBook>)
    ensures KeepPicks(a + b, books) == KeepPicks(a, books) + KeepPicks(b, books)
  {
    if a != [] {
      assert (a + b)[0] == a[0] && (a + b)[1..] == a[1..] + b;
      KeepPicksAppend(a[1..], b, books);
      var head := if IsPick(a[0], books) then [PickOf(a[0], books)] else [];
      assert KeepPicks(a, books) == head + KeepPicks(a[1..], books);
      assert KeepPicks(a + b, books) == head + KeepPicks(a[1..] + b, books);
    } else {
      assert a + b == b;
    }
  }

  /** Exactly the items that pass the filter are kept. */
  lemma {:induction false} KeepPicksMembers(items: seq<Value>, books: seq<AvailableBook>, p: Pick)
    ensures p in KeepPicks(items, books) <==>
      exists k | 0 <= k < |items| :: IsPick(items[k], books) && PickOf(items[k], books) == p
  {
    if items != [] {
      KeepPicksMembers(items[1..], books, p);
      if exists k | 0 <= k < |items| :: IsPick(items[k], books) && PickOf(items[k], books) == p {
        var k :| 0 <= k < |items| && IsPick(items[k], books) && PickOf(items[k], books) == p;
        if k > 0 {
          assert items[1..][k - 1] == items[k];
        }
      }
      if p in KeepPicks(items[1..], books) {
        var k :| 0 <= k < |items[1..]| && IsPick(items[1..][k], books) && PickOf(items[1..][k], books) == p;
        assert items[k + 1] == items[1..][k];
      }
    }
  }

  /** `books.find((b) => b.id === bookId)`: the first book with that id. */
  function FindBook(books: seq<AvailableBook>, id: string): (r: Option<AvailableBook>)
    ensures r.Some? <==> InIds(id, books)
    ensures r.Some? ==> r.value.id == id && r.value in books
    ensures r.Some? ==> exists i | 0 <= i < |books| :: books[i] == r.value && NoIdBefore(books, id, i)
  {
    if books == [] then None
    else if books[0].id == id then Some(books[0])
    else
      var r := FindBook(books[1..], id);
      assert InIds(id, books) ==> books[0].id == id || InIds(id, books[1..]) by {
        if InIds(id, books) && books[0].id != id {
          var i :| 0 <= i < |books| && books[i].id == id;
          assert books[1..][i - 1] == books[i];
        }
      }
      assert InIds(id, books[1..]) ==> InIds(id, books) by {
        if InIds(id, books[1..]) {
          var i :| 0 <= i < |books[1..]| && books[1..][i].id == id;
          assert books[i + 1] == books[1..][i];
        }
      }
      assert r.Some? ==> exists i | 0 <= i < |books| :: books[i] == r.value && NoIdBefore(books, id, i) by {
        if r.Some? {
          var i :| 0 <= i < |books[1..]| && books[1..][i] == r.value && NoIdBefore(books[1..], id, i);
          assert books[i + 1] == r.value;
          forall j | 0 <= j < i + 1
            ensures books[j].id != id
          {
            if j > 0 {
              assert books[j] == books[1..][j - 1];
            }
          }
          assert NoIdBefore(books, id, i + 1);
        }
      }
      r
  }

  /** No book before position `i` has the id. */
  predicate NoIdBefore(books: seq<AvailableBook>, id: string, i: int)
    requires 0 <= i <= |books|
  {
    forall j | 0 <= j < i :: books[j].id != id
  }

  /** The join with the books; every kept id is found, so the `!` after `find` never fails. */
  function ToSuggestions(picks: seq<Pick>, books: seq<AvailableBook>): (r: seq<Suggestion>)
    requires forall k | 0 <= k < |picks| :: InIds(picks[k].bookId, books)
    ensures |r| == |picks|
    ensures forall k | 0 <= k < |picks| ::
      r[k].reason == picks[k].reason && r[k].book.id == picks[k].bookId && r[k].book in books
  {
    if picks == [] then []
    else [Suggestion(FindBook(books, picks[0].bookId).value, picks[0].reason)] + ToSuggestions(picks[1..], books)
  }

  /** The first five kept items, joined with their books. */
  function Suggestions(parsed: Option<Value>, books: seq<AvailableBook>): (r: seq<Suggestion>)
    ensures |r| <= MaxSuggestions
    ensures forall k | 0 <= k < |r| :: r[k].book in books
  {
    var valid := KeepPicks(Items(parsed), books);
    var capped := if |valid| <= MaxSuggestions then valid else valid[..MaxSuggestions];
    ToSuggestions(capped, books)
  }

  /** The suggestions are the first kept items, in the model's order, each with its own reason. */
  lemma SuggestionsArePicks(parsed: Option<Value>, books: seq<AvailableBook>)
    ensures var valid := KeepPicks(Items(parsed), books);
      var r := Suggestions(parsed, books);
      && |r| == (if |valid| <= MaxSuggestions then |valid| else MaxSuggestions)
      && forall k | 0 <= k < |r| :: r[k].book.id == valid[k].bookId && r[k].reason == valid[k].reason
  {
  }

  /** An answer that is not an array (or not JSON) yields no suggestions. */
  lemma NonArrayNoSuggestions(parsed: Option<Value>, books: seq<AvailableBook>)
    requires parsed.None? || !parsed.value.Arr?
    ensures Suggestions(parsed, books) == []
  {
  }

  /** A book the model names twice is suggested twice. */
  lemma DuplicatesKept(x: Value, books: seq<AvailableBook>)
    requires IsPick(x, books)
    ensures |Suggestions(Some(Arr([x, x])), books)| == 2
  {
    var items := [x, x];
    assert items[1..][1..] == [];
    assert KeepPicks(items, books) == [PickOf(x, books), PickOf(x, books)];
  }

  /** The fallback answer: an object with string `title` and `author` (and optionally a string
      `category`), all trimmed. Anything else, or text that did not parse, gives no book. */
  function FallbackBook(parsed: Option<Value>): (r: Option<AiBook>)
    ensures r.Some? <==>
      && parsed.Some?
      && Field(parsed.value, "title").Some? && Field(parsed.value, "title").value.Str?
      && Field(parsed.value, "author").Some? && Field(parsed.value, "author").value.Str?
    ensures r.Some? ==> r.value.title == Trim(Field(parsed.value, "title").value.s) && Trimmed(r.value.title)
    ensures r.Some? ==> r.value.author == Trim(Field(parsed.value, "author").value.s) && Trimmed(r.value.author)
    ensures r.Some? ==> (r.value.category.Some? <==> Field(parsed.value, "category").Some? && Field(parsed.value, "category").value.Str?)
    ensures r.Some? && r.value.category.Some? ==> r.value.category.value == Trim(Field(parsed.value, "category").value.s)
  {
    if parsed.None? then None
    else
      var obj := parsed.value;
      var title := Field(obj, "title");
      var author := Field(obj, "author");
      var category := Field(obj, "category");
      if title.Some? && title.value.Str? && author.Some? && author.value.Str? then
        Some(AiBook(Trim(title.value.s), Trim(author.value.s),
          if category.Some? && category.value.Str? then Some(Trim(category.value.s)) else None))
      else None
  }

  /** What a fallback call contributes: a thrown request is a 500, a failed one no book, and an
      answer the book `FallbackBook` reads from it. */
  function FallbackOutcome(call: AiCall): (r: Result<Option<AiBook>, string>)
    ensures r.Err? <==> call.Threw?
    ensures call.NotOk? ==> r == Ok(None)
    ensures call.Replied? ==> r == Ok(FallbackBook(call.parsed))
  {
    match call
    case Threw => Err(SuggestFailed)
    case NotOk => Ok(None)
    case Replied(parsed) => Ok(FallbackBook(parsed))
  }

  /** `!key`: the key is unset or empty. */
  predicate HasKey(key: Option<string>) {
    key.Some? && key.value != []
  }

  // ---------------------------------------------------------------- the route

  /** The answer when there is nothing to suggest: the fallback call's book, if any. */
  function FallbackAnswer(message: Option<string>, fallback: AiCall): (r: Response<SuggestBody>)
    ensures r.HttpError? <==> fallback.Threw?
    ensures r.HttpError? ==> r == HttpError(500, SuggestFailed)
    ensures r.Json? ==> r.body == SuggestBody([], message, FallbackOutcome(fallback).value)
  {
    match FallbackOutcome(fallback)
    case Err(e) => HttpError(500, e)
    case Ok(ai) => Json(SuggestBody([], message, ai))
  }

  /** The route once the input is valid and the available books are known. */
  function Answer(books: seq<AvailableBook>, key: Option<string>, main: AiCall, fallback: AiCall): (r: Response<SuggestBody>)
    ensures r.Json? ==> |r.body.suggestions| <= MaxSuggestions
    ensures r.Json? ==> forall k | 0 <= k < |r.body.suggestions| :: r.body.suggestions[k].book in books
    ensures r.HttpError? ==> r.status in {500, 502, 503}
    ensures books == [] ==> r == if HasKey(key) then FallbackAnswer(Some(NoBooksMessage), fallback)
                                 else Json(SuggestBody([], Some(NoBooksMessage), None))
    ensures books != [] && !HasKey(key) ==> r == HttpError(503, NotConfigured)
    ensures books != [] && HasKey(key) && main.NotOk? ==> r == HttpError(502, ServiceError)
    ensures books != [] && HasKey(key) && main.Threw? ==> r == HttpError(500, SuggestFailed)
    ensures books != [] && HasKey(key) && main.Replied? && Suggestions(main.parsed, books) != [] ==>
      r == Json(SuggestBody(Suggestions(main.parsed, books), None, None))
    ensures books != [] && HasKey(key) && main.Replied? && Suggestions(main.parsed, books) == [] ==>
      r == FallbackAnswer(None, fallback)
  {
    if books == [] then
      if !HasKey(key) then Json(SuggestBody([], Some(NoBooksMessage), None))
      else FallbackAnswer(Some(NoBooksMessage), fallback)
    else if !HasKey(key) then HttpError(503, NotConfigured)
    else match main
      case Threw => HttpError(500, SuggestFailed)
      case NotOk => HttpError(502, ServiceError)
      case Replied(parsed) =>
        var suggestions := Suggestions(parsed, books);
        if suggestions != [] then Json(SuggestBody(suggestions, None, None))
        else FallbackAnswer(None, fallback)
  }

  /** `POST /api/ai/suggest`. `body` is `None` when the request is not JSON, `books` when the
      book query throws; `main` is the call that picks among the books, `fallback` the call asking
      for one book outside the library (made only when there is nothing to suggest). */
  function Post(body: Option<Value>, books: Option<seq<AvailableBook>>, key: Option<string>,
                main: AiCall, fallback: AiCall): (r: Response<SuggestBody>)
    ensures body.None? ==> r == HttpError(500, SuggestFailed)
    ensures body.Some? && ParseInputs(body.value).None? ==> r == HttpError(400, InvalidInput)
    ensures body.Some? && ParseInputs(body.value).Some? && books.None? ==> r == HttpError(500, SuggestFailed)
    ensures r.Json? ==> books.Some? && |r.body.suggestions| <= MaxSuggestions
    ensures r.Json? ==> forall k | 0 <= k < |r.body.suggestions| :: r.body.suggestions[k].book in books.value
    ensures body.Some? && ParseInputs(body.value).Some? && books.Some? ==> r == Answer(books.value, key, main, fallback)
  {
    if body.None? then HttpError(500, SuggestFailed)
    else if ParseInputs(body.value).None? then HttpError(400, InvalidInput)
    else if books.None? then HttpError(500, SuggestFailed)
    else Answer(books.value, key, main, fallback)
  }

  /** With no available books the answer is always empty suggestions, the no-books message and
      a 200, key or not (unless the fallback request itself throws); the main call is never made,
      and the proposed book is the fallback's when there is a key and none otherwise. */
  lemma NoBooksEmpty(body: Value, key: Option<string>, main1: AiCall, main2: AiCall, fallback: AiCall)
    requires ParseInputs(body).Some? && !fallback.Threw?
    ensures Post(Some(body), Some([]), key, main1, fallback).Json?
    ensures Post(Some(body), Some([]), key, main1, fallback).body.suggestions == []
    ensures Post(Some(body), Some([]), key, main1, fallback) == Post(Some(body), Some([]), key, main2, fallback)
    ensures Post(Some(body), Some([]), key, main1, fallback).body.message == Some(NoBooksMessage)
    ensures !HasKey(key) ==> Post(Some(body), Some([]), key, main1, fallback).body.aiSuggestedBook == None
    ensures HasKey(key) ==>
      Post(Some(body), Some([]), key, main1, fallback).body.aiSuggestedBook == FallbackOutcome(fallback).value
  {
  }

  /** Books but no key: 503, whatever the model would have said. */
  lemma NoKeyUnavailable(body: Value, books: seq<AvailableBook>, key: Option<string>, main: AiCall, fallback: AiCall)
    requires ParseInputs(body).Some? && books != [] && !HasKey(key)
    ensures Post(Some(body), Some(books), key, main, fallback) == HttpError(503, NotConfigured)
  {
  }

  /** A model reply with a kept item makes no fallback request: the fallback is irrelevant and no
      outside book is proposed. */
  lemma FallbackOnlyWhenEmpty(body: Value, books: seq<AvailableBook>, key: Option<string>, parsed: Option<Value>,
                              fallback1: AiCall, fallback2: AiCall)
    requires ParseInputs(body).Some? && books != [] && HasKey(key)
    requires Suggestions(parsed, books) != []
    ensures Post(Some(body), Some(books), key, Replied(parsed), fallback1)
      == Post(Some(body), Some(books), key, Replied(parsed), fallback2)
    ensures Post(Some(body), Some(books), key, Replied(parsed), fallback1)
      == Json(SuggestBody(Suggestions(parsed, books), None, None))
  {
  }


  // ---------------------------------------------------------------- the book list in the prompt

  /** The first 200 characters of a description, with `…` appended exactly when it was longer. */
  function Excerpt(d: string): (r: string)
    ensures |d| <= ExcerptLength ==> r == d
    ensures |d| > ExcerptLength ==> r == d[..ExcerptLength] + "…"
  {
    var head := if |d| <= ExcerptLength then d else d[..ExcerptLength];
    head + (if |d| > ExcerptLength then "…" else "")
  }

  /** An excerpt is a prefix of the description, at most 201 characters, and ends in `…` only
      when something was cut. */
  lemma ExcerptBounds(d: string)
    ensures |Excerpt(d)| <= ExcerptLength + 1
    ensures |Excerpt(d)| == ExcerptLength + 1 <==> |d| > ExcerptLength
    ensures var n := if |d| <= ExcerptLength then |d| else ExcerptLength; Excerpt(d)[..n] == d[..n]
  {
  }

  /** The part of a book's line every book has: its id, title and author. */
  function LineHead(b: AvailableBook): string {
    "- id: \"" + b.id + "\" | title: \"" + b.title + "\" | author: " + b.author
  }

  const CategoryLabel := " | category: "
  const DescriptionLabel := " | description: "

  /** A field is listed only when present and not empty. */
  predicate Shown(field: Option<string>) {
    field.Some? && field.value != []
  }

  predicate EndsWith(s: string, t: string) {
    |t| <= |s| && s[|s| - |t|..] == t
  }

  /** One line of the list: id, title and author, then category and description when non-empty. */
  function BookLine(b: AvailableBook): (r: string)
    ensures |LineHead(b)| <= |r| && r[..|LineHead(b)|] == LineHead(b)
  {
    LineHead(b)
    + (if Shown(b.category) then CategoryLabel + b.category.value else "")
    + (if Shown(b.description) then DescriptionLabel + Excerpt(b.description.value) else "")
  }

  /** After the head come the category and then the excerpt of the description, each only when
      non-empty; the description adds at most its label and 201 characters. */
  lemma BookLineShape(b: AvailableBook)
    ensures Shown(b.description) ==> EndsWith(BookLine(b), DescriptionLabel + Excerpt(b.description.value))
    ensures !Shown(b.description) && Shown(b.category) ==> BookLine(b) == LineHead(b) + CategoryLabel + b.category.value
    ensures !Shown(b.description) && !Shown(b.category) ==> BookLine(b) == LineHead(b)
    ensures Shown(b.description) && Shown(b.category) ==>
      BookLine(b)[..|LineHead(b)| + |CategoryLabel| + |b.category.value|] == LineHead(b) + CategoryLabel + b.category.value
    ensures !Shown(b.description) ==> |BookLine(b)| <= |LineHead(b)| + |CategoryLabel| + |b.category.GetOr("")|
    ensures |BookLine(b)| <= |LineHead(b)| + |CategoryLabel| + |b.category.GetOr("")| + |DescriptionLabel| + ExcerptLength + 1
    ensures |BookLine(b)| == |LineHead(b)|
      + (if Shown(b.category) then |CategoryLabel| + |b.category.value| else 0)
      + (if Shown(b.description) then |DescriptionLabel| + |Excerpt(b.description.value)| else 0)
  {
    var head := LineHead(b) + (if Shown(b.category) then CategoryLabel + b.category.value else "");
    if Shown(b.description) {
      var tail := DescriptionLabel + Excerpt(b.description.value);
      ExcerptBounds(b.description.value);
      assert BookLine(b) == head + tail;
      assert BookLine(b)[|BookLine(b)| - |tail|..] == tail;
      if Shown(b.category) {
        assert BookLine(b)[..|head|] == head;
      }
    }
  }

  /** A book with a long description puts only its excerpt into the prompt. */
  lemma LongDescriptionCut(b: AvailableBook)
    requires b.description.Some? && |b.description.value| > ExcerptLength
    requires b.category.None?
    ensures BookLine(b) == "- id: \"" + b.id + "\" | title: \"" + b.title + "\" | author: " + b.author
      + " | description: " + b.description.value[..ExcerptLength] + "…"
  {
  }
}
