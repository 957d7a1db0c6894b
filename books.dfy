/** lib/books.ts: the pure parts of listing books and shaping them into responses.
    The database reads themselves are inputs: `rows` are what the query returned. */
module BookList {
  import opened Wrappers
  import opened Text
  import opened LoanStatus

  /** A book row together with all of its loans. */
  datatype Book = Book(
    id: string,
    title: string,
    author: string,
    isbn: Option<string>,
    category: Option<string>,
    publishedYear: Option<int>,
    description: Option<string>,
    createdAt: int,
    updatedAt: int,
    loans: seq<Loan>)

  /** `getBooksList`'s optional parameters. */
  datatype ListParams = ListParams(query: Option<string>, status: Option<string>, sort: Option<string>)

  /** The parameters after defaulting, trimming and upper-casing. */
  datatype NormalParams = NormalParams(query: string, status: string, sort: string)

  datatype SearchField = TitleField | AuthorField | IsbnField | CategoryField | DescriptionField
  datatype SortKey = ByTitle | ByAuthor | ByCreatedAt
  datatype Direction = Asc | Desc
  datatype Order = Order(key: SortKey, dir: Direction)

  /** What is asked of the database: the fields searched for `term` (no condition at all when
      empty) and the order of the rows. */
  datatype BookQuery = BookQuery(term: string, fields: seq<SearchField>, order: Order)

  /** The query is trimmed (empty when absent or blank), the status upper-cased (`ALL` when
      absent), the sort key taken as given (`title` when absent). */
  function Normalize(p: ListParams): (r: NormalParams)
    ensures Trimmed(r.query) && (r.query == [] <==> p.query.None? || IsBlank(p.query.value))
    ensures HasNoLower(r.status) && (p.status.None? ==> r.status == "ALL")
    ensures p.status.Some? ==> |r.status| == |p.status.value|
    ensures p.status.Some? ==> forall i | 0 <= i < |r.status| :: LowerChar(r.status[i]) == LowerChar(p.status.value[i])
    ensures r.sort == p.sort.GetOr("title")
  {
    var status := p.status.GetOr("ALL");
    ToUpperSameLetters(status);
    ToUpperFixed("ALL");
    NormalParams(Trim(p.query.GetOr("")), ToUpper(status), p.sort.GetOr("title"))
  }

  /** Absent parameters take their defaults. */
  lemma NormalizeDefaults()
    ensures Normalize(ListParams(None, None, None)) == NormalParams("", "ALL", "title")
  {
    ToUpperFixed("ALL");
  }

  /** The regular expression `^\d[\d-]*$`: a digit, then only digits and dashes. */
  predicate LooksLikeIsbn(q: string) {
    |q| > 0 && IsDigit(q[0]) && forall i | 1 <= i < |q| :: IsDigit(q[i]) || q[i] == '-'
  }

  /** The `OR` list of the search condition. */
  function SearchFields(query: string): (r: seq<SearchField>)
    ensures query == [] <==> r == []
    ensures query != [] ==> TitleField in r && AuthorField in r && CategoryField in r && DescriptionField in r
    ensures IsbnField in r <==>
      (query != [] && IsDigit(query[0]) && forall i | 0 <= i < |query| :: IsDigit(query[i]) || query[i] == '-')
  {
    if query == [] then []
    else [TitleField, AuthorField] + (if LooksLikeIsbn(query) then [IsbnField] else []) + [CategoryField, DescriptionField]
  }

  /** The `orderBy` chosen for a sort key; anything unrecognised sorts oldest first. */
  function OrderFor(sort: string): (r: Order)
    ensures sort == "title" ==> r == Order(ByTitle, Asc)
    ensures sort == "author" ==> r == Order(ByAuthor, Asc)
    ensures sort == "newest" ==> r == Order(ByCreatedAt, Desc)
    ensures sort !in {"title", "author", "newest"} ==> r == Order(ByCreatedAt, Asc)
  {
    if sort == "title" then Order(ByTitle, Asc)
    else if sort == "author" then Order(ByAuthor, Asc)
    else if sort == "newest" then Order(ByCreatedAt, Desc)
    else Order(ByCreatedAt, Asc)
  }

  /** The four accepted sort keys give four different orders. */
  lemma OrderForDistinct(a: string, b: string)
    requires a in {"title", "author", "newest", "oldest"} && b in {"title", "author", "newest", "oldest"}
    requires a != b
    ensures OrderFor(a) != OrderFor(b)
  {
  }

  /** The database query `getBooksList` issues for its parameters. */
  function ListQuery(p: ListParams): (r: BookQuery)
    ensures r.term == Trim(p.query.GetOr(""))
    ensures r.fields == [] <==> IsBlank(p.query.GetOr(""))
    ensures r.fields == SearchFields(r.term)
    ensures r.order == OrderFor(p.sort.GetOr("title"))
  {
    var n := Normalize(p);
    BookQuery(n.query, SearchFields(n.query), OrderFor(n.sort))
  }

  /** `books.filter(b => getDerivedStatus(b.loans) === status)`. */
  function FilterStatus(books: seq<Book>, status: BookStatus): (r: seq<Book>)
    ensures forall i | 0 <= i < |r| :: DerivedStatus(r[i].loans) == status
    ensures forall b | b in books && DerivedStatus(b.loans) == status :: b in r
    ensures IsSubsequence(r, books)
  {
    if books == [] then []
    else if DerivedStatus(books[0].loans) == status then [books[0]] + FilterStatus(books[1..], status)
    else FilterStatus(books[1..], status)
  }

  /** Every book passes exactly one of the two status filters. */
  lemma {:induction false} FilterStatusPartition(books: seq<Book>)
    ensures |FilterStatus(books, Available)| + |FilterStatus(books, Borrowed)| == |books|
  {
    if books != [] {
      FilterStatusPartition(books[1..]);
    }
  }

  /** Each book is kept as often as it occurs when it has the status, and not at all otherwise. */
  lemma {:induction false} FilterStatusCounts(books: seq<Book>, status: BookStatus, b: Book)
    ensures multiset(FilterStatus(books, status))[b] == if DerivedStatus(b.loans) == status then multiset(books)[b] else 0
  {
    if books != [] {
      FilterStatusCounts(books[1..], status, b);
      assert books == [books[0]] + books[1..];
    }
  }

  /** The filter chosen by the (normalised) status parameter; any other value keeps every book. */
  function ApplyStatusFilter(books: seq<Book>, status: string): (r: seq<Book>)
    ensures status == "AVAILABLE" ==> r == FilterStatus(books, Available)
    ensures status == "BORROWED" ==> r == FilterStatus(books, Borrowed)
    ensures status != "AVAILABLE" && status != "BORROWED" ==> r == books
  {
    if status == "AVAILABLE" then FilterStatus(books, Available)
    else if status == "BORROWED" then FilterStatus(books, Borrowed)
    else books
  }

  /** `ActiveLoanInfo`. */
  datatype ActiveLoanInfo = ActiveLoanInfo(
    borrowerName: string,
    borrowerEmail: Option<string>,
    borrowerPhone: Option<string>,
    borrowedAt: int,
    dueAt: Option<int>)

  /** The JSON shape of a book; times stay milliseconds instead of ISO strings. */
  datatype BookResponse = BookResponse(
    id: string,
    title: string,
    author: string,
    isbn: Option<string>,
    category: Option<string>,
    publishedYear: Option<int>,
    description: Option<string>,
    createdAt: int,
    updatedAt: int,
    status: BookStatus,
    activeLoan: Option<ActiveLoanInfo>,
    overdue: bool)

  function LoanInfo(l: Loan): ActiveLoanInfo {
    ActiveLoanInfo(l.borrowerName, l.borrowerEmail, l.borrowerPhone, l.borrowedAt, l.dueAt)
  }

  /** `toBookResponse`. */
  function ToBookResponse(book: Book, now: int): (r: BookResponse)
    ensures r.id == book.id && r.title == book.title && r.author == book.author && r.isbn == book.isbn
    ensures r.category == book.category && r.publishedYear == book.publishedYear
    ensures r.description == book.description && r.createdAt == book.createdAt && r.updatedAt == book.updatedAt
    ensures r.status == Borrowed <==> r.activeLoan.Some?
    ensures r.activeLoan.Some? <==> exists i | 0 <= i < |book.loans| :: IsActive(book.loans[i])
    ensures r.activeLoan.Some? ==> exists i | 0 <= i < |book.loans| ::
      IsActive(book.loans[i]) && r.activeLoan.value == LoanInfo(book.loans[i]) &&
      (forall j | 0 <= j < i :: !IsActive(book.loans[j])) &&
      (r.overdue <==> IsOverdue(book.loans[i], now))
    ensures r.overdue ==>
      (r.activeLoan.Some? && r.activeLoan.value.dueAt.Some? && DayOf(r.activeLoan.value.dueAt.value) < DayOf(now))
  {
    var active := ActiveLoan(book.loans);
    var status := DerivedStatus(book.loans);
    var overdue := if active.Some? then IsOverdue(active.value, now) else false;
    var r := BookResponse(book.id, book.title, book.author, book.isbn, book.category, book.publishedYear,
      book.description, book.createdAt, book.updatedAt, status,
      if active.Some? then Some(LoanInfo(active.value)) else None, overdue);
    if active.Some? then
      var i := FirstActiveIndex(book.loans);
      ActiveLoanIsFirst(book.loans, i);
      r
    else r
  }

  /** The position of the first active loan, when there is one. */
  function FirstActiveIndex(loans: seq<Loan>): (k: nat)
    requires !NoneActive(loans)
    ensures k < |loans| && IsActive(loans[k])
    ensures forall j | 0 <= j < k :: !IsActive(loans[j])
  {
    if IsActive(loans[0]) then 0 else 1 + FirstActiveIndex(loans[1..])
  }

  /** A book without loans (as every newly created book is) is available, with nothing overdue. */
  lemma NewBookResponse(book: Book, now: int)
    requires book.loans == []
    ensures ToBookResponse(book, now).status == Available
    ensures ToBookResponse(book, now).activeLoan == None
    ensures !ToBookResponse(book, now).overdue
  {
  }

  /** `filtered.map(toBookResponse)`. */
  function MapResponses(books: seq<Book>, now: int): (r: seq<BookResponse>)
    ensures |r| == |books|
    ensures forall i | 0 <= i < |books| :: r[i] == ToBookResponse(books[i], now)
  {
    if books == [] then [] else [ToBookResponse(books[0], now)] + MapResponses(books[1..], now)
  }

  /** What `getBooksList` returns for the rows the query gave back. */
  function BooksList(p: ListParams, rows: seq<Book>, now: int): (r: seq<BookResponse>)
    ensures Normalize(p).status == "AVAILABLE" ==> forall i | 0 <= i < |r| :: r[i].status == Available
    ensures Normalize(p).status == "BORROWED" ==> forall i | 0 <= i < |r| :: r[i].status == Borrowed
    ensures Normalize(p).status !in {"AVAILABLE", "BORROWED"} ==> |r| == |rows|
    ensures |r| <= |rows|
  {
    var kept := ApplyStatusFilter(rows, Normalize(p).status);
    FilterStatusPartition(rows);
    MapResponses(kept, now)
  }

  /** Whether the normalised status parameter lets a book through. */
  predicate StatusKeeps(status: string, b: Book) {
    && (status == "AVAILABLE" ==> DerivedStatus(b.loans) == Available)
    && (status == "BORROWED" ==> DerivedStatus(b.loans) == Borrowed)
  }

  /** The list is the responses of the fetched rows the status lets through, in the rows' order:
      `kept` is those rows, a subsequence of `rows` holding every row the status lets through. */
  lemma BooksListExact(p: ListParams, rows: seq<Book>, now: int) returns (kept: seq<Book>)
    ensures IsSubsequence(kept, rows)
    ensures forall j | 0 <= j < |kept| :: StatusKeeps(Normalize(p).status, kept[j])
    ensures forall b | b in rows && StatusKeeps(Normalize(p).status, b) :: b in kept
    ensures BooksList(p, rows, now) == MapResponses(kept, now)
  {
    kept := ApplyStatusFilter(rows, Normalize(p).status);
    if Normalize(p).status !in {"AVAILABLE", "BORROWED"} {
      SubsequenceReflexive(rows);
    }
  }

  /** A response is listed exactly when it is the response of a fetched row the status lets
      through. */
  lemma BooksListMembers(p: ListParams, rows: seq<Book>, now: int, x: BookResponse)
    ensures x in BooksList(p, rows, now) <==>
      exists k | 0 <= k < |rows| :: StatusKeeps(Normalize(p).status, rows[k]) && x == ToBookResponse(rows[k], now)
  {
    if x in BooksList(p, rows, now) {
      var k := ListedFromRow(p, rows, now, x);
    }
    if exists k | 0 <= k < |rows| :: StatusKeeps(Normalize(p).status, rows[k]) && x == ToBookResponse(rows[k], now) {
      var k :| 0 <= k < |rows| && StatusKeeps(Normalize(p).status, rows[k]) && x == ToBookResponse(rows[k], now);
      KeptRowListed(p, rows, now, k);
    }
  }

  lemma ListedFromRow(p: ListParams, rows: seq<Book>, now: int, x: BookResponse) returns (k: nat)
    requires x in BooksList(p, rows, now)
    ensures k < |rows| && StatusKeeps(Normalize(p).status, rows[k]) && x == ToBookResponse(rows[k], now)
  {
    var kept := BooksListExact(p, rows, now);
    var j := ResponseSource(kept, now, x);
    SubsequenceMembers(kept, rows, kept[j]);
    k :| 0 <= k < |rows| && rows[k] == kept[j];
  }

  lemma KeptRowListed(p: ListParams, rows: seq<Book>, now: int, k: nat)
    requires k < |rows| && StatusKeeps(Normalize(p).status, rows[k])
    ensures ToBookResponse(rows[k], now) in BooksList(p, rows, now)
  {
    var kept := BooksListExact(p, rows, now);
    assert rows[k] in kept;
    var j :| 0 <= j < |kept| && kept[j] == rows[k];
    assert MapResponses(kept, now)[j] == ToBookResponse(rows[k], now);
  }

  /** Where a listed response comes from. */
  lemma ResponseSource(books: seq<Book>, now: int, x: BookResponse) returns (j: nat)
    requires x in MapResponses(books, now)
    ensures j < |books| && x == ToBookResponse(books[j], now)
  {
    var r := MapResponses(books, now);
    j :| 0 <= j < |r| && r[j] == x;
  }

  /** A loan's entry in the detail view's history. */
  datatype LoanHistoryItem = LoanHistoryItem(
    id: string,
    borrowerName: string,
    borrowerEmail: Option<string>,
    borrowerPhone: Option<string>,
    borrowedAt: int,
    dueAt: Option<int>,
    returnedAt: Option<int>)

  datatype BookDetailResponse = BookDetailResponse(base: BookResponse, loanHistory: seq<LoanHistoryItem>)

  predicate SortedByBorrowedDesc(loans: seq<Loan>) {
    forall i, j | 0 <= i < j < |loans| :: loans[i].borrowedAt >= loans[j].borrowedAt
  }

  /** Puts `l` in front of the first loan borrowed no later than it. */
  function InsertByBorrowed(l: Loan, sorted: seq<Loan>): (r: seq<Loan>)
    requires SortedByBorrowedDesc(sorted)
    ensures SortedByBorrowedDesc(r)
    ensures multiset(r) == multiset(sorted) + multiset{l}
  {
    if sorted == [] || sorted[0].borrowedAt <= l.borrowedAt then [l] + sorted
    else
      var rest := InsertByBorrowed(l, sorted[1..]);
      assert sorted == [sorted[0]] + sorted[1..];
      BoundedByHead(sorted);
      PermutationBounded(rest, sorted[1..], l, sorted[0].borrowedAt);
      ConsSorted(sorted[0], rest);
      [sorted[0]] + rest
  }

  lemma BoundedByHead(sorted: seq<Loan>)
    requires sorted != [] && SortedByBorrowedDesc(sorted)
    ensures forall x | x in multiset(sorted[1..]) :: x.borrowedAt <= sorted[0].borrowedAt
  {
    forall x | x in multiset(sorted[1..]) ensures x.borrowedAt <= sorted[0].borrowedAt {
      var k :| 0 <= k < |sorted[1..]| && sorted[1..][k] == x;
      assert sorted[k + 1] == x;
    }
  }

  lemma PermutationBounded(rest: seq<Loan>, tail: seq<Loan>, l: Loan, bound: int)
    requires multiset(rest) == multiset(tail) + multiset{l}
    requires l.borrowedAt <= bound
    requires forall x | x in multiset(tail) :: x.borrowedAt <= bound
    ensures forall k | 0 <= k < |rest| :: rest[k].borrowedAt <= bound
  {
    forall k | 0 <= k < |rest| ensures rest[k].borrowedAt <= bound {
      assert rest[k] in multiset(rest);
    }
  }

  lemma ConsSorted(x: Loan, rest: seq<Loan>)
    requires SortedByBorrowedDesc(rest)
    requires forall k | 0 <= k < |rest| :: rest[k].borrowedAt <= x.borrowedAt
    ensures SortedByBorrowedDesc([x] + rest)
  {
    var r := [x] + rest;
    forall i, j | 0 <= i < j < |r| ensures r[i].borrowedAt >= r[j].borrowedAt {
      if i > 0 {
        assert r[i] == rest[i - 1];
      }
      assert r[j] == rest[j - 1];
    }
  }


  /** `[...book.loans].sort((a, b) => b.borrowedAt - a.borrowedAt)`: a sorted copy. */
  function SortByBorrowedDesc(loans: seq<Loan>): (r: seq<Loan>)
    ensures SortedByBorrowedDesc(r)
    ensures multiset(r) == multiset(loans)
  {
    if loans == [] then []
    else
      assert loans == [loans[0]] + loans[1..];
      InsertByBorrowed(loans[0], SortByBorrowedDesc(loans[1..]))
  }

  /** The loans borrowed at time `t`, in their order. */
  function BorrowedAt(loans: seq<Loan>, t: int): (r: seq<Loan>)
    ensures forall i | 0 <= i < |r| :: r[i].borrowedAt == t
    ensures IsSubsequence(r, loans)
  {
    if loans == [] then []
    else if loans[0].borrowedAt == t then [loans[0]] + BorrowedAt(loans[1..], t)
    else BorrowedAt(loans[1..], t)
  }

  /** Inserting puts the new loan before the loans borrowed at the same time. */
  lemma {:induction false} InsertBorrowedAt(l: Loan, sorted: seq<Loan>, t: int)
    requires SortedByBorrowedDesc(sorted)
    ensures BorrowedAt(InsertByBorrowed(l, sorted), t) == (if l.borrowedAt == t then [l] else []) + BorrowedAt(sorted, t)
  {
    var r := InsertByBorrowed(l, sorted);
    if sorted == [] || sorted[0].borrowedAt <= l.borrowedAt {
      assert r[1..] == sorted;
    } else {
      var rest := InsertByBorrowed(l, sorted[1..]);
      assert r == [sorted[0]] + rest && r[1..] == rest;
      InsertBorrowedAt(l, sorted[1..], t);
    }
  }

  /** The sort is stable: loans borrowed at the same time keep their order. */
  lemma {:induction false} SortStable(loans: seq<Loan>, t: int)
    ensures BorrowedAt(SortByBorrowedDesc(loans), t) == BorrowedAt(loans, t)
  {
    if loans != [] {
      SortStable(loans[1..], t);
      InsertBorrowedAt(loans[0], SortByBorrowedDesc(loans[1..]), t);
    }
  }

  function HistoryItem(l: Loan): LoanHistoryItem {
    LoanHistoryItem(l.id, l.borrowerName, l.borrowerEmail, l.borrowerPhone, l.borrowedAt, l.dueAt, l.returnedAt)
  }

  /** `toBookDetailResponse`: the book's response plus its loans, most recently borrowed first. */
  function ToBookDetailResponse(book: Book, now: int): (r: BookDetailResponse)
    ensures r.base == ToBookResponse(book, now)
    ensures |r.loanHistory| == |book.loans|
    ensures forall i, j | 0 <= i < j < |r.loanHistory| :: r.loanHistory[i].borrowedAt >= r.loanHistory[j].borrowedAt
    ensures exists sorted: seq<Loan> ::
      (multiset(sorted) == multiset(book.loans) && |sorted| == |r.loanHistory| &&
       forall i | 0 <= i < |sorted| :: r.loanHistory[i] == HistoryItem(sorted[i]))
  {
    var sorted := SortByBorrowedDesc(book.loans);
    assert |sorted| == |multiset(sorted)| == |book.loans|;
    var history := seq(|sorted|, i requires 0 <= i < |sorted| => HistoryItem(sorted[i]));
    BookDetailResponse(ToBookResponse(book, now), history)
  }

  /** A loan row joined with its book's title (the relation is required, so the book is always there). */
  datatype LoanRow = LoanRow(loan: Loan, bookTitle: string)

  /** An entry of `getLoansByBorrowerEmail`. */
  datatype BorrowerLoanItem = BorrowerLoanItem(
    id: string,
    bookId: string,
    bookTitle: string,
    borrowerName: string,
    borrowedAt: int,
    dueAt: Option<int>,
    returnedAt: Option<int>,
    overdue: bool)

  /** The inline overdue test of `getLoansByBorrowerEmail`. */
  predicate BorrowerOverdueFlag(l: Loan, now: int) {
    l.returnedAt.None? && l.dueAt.Some? && l.dueAt.value < StartOfDay(now)
  }

  /** The inline test agrees with `isOverdue` on every loan. */
  lemma BorrowerFlagAgrees(l: Loan, now: int)
    ensures BorrowerOverdueFlag(l, now) == IsOverdue(l, now)
  {
  }

  function BorrowerItem(row: LoanRow, now: int): BorrowerLoanItem {
    var l := row.loan;
    BorrowerLoanItem(l.id, l.bookId, row.bookTitle, l.borrowerName, l.borrowedAt, l.dueAt, l.returnedAt,
      BorrowerOverdueFlag(l, now))
  }

  /** The `map` of `getLoansByBorrowerEmail` over the borrower's loans. */
  function LoansByBorrower(rows: seq<LoanRow>, now: int): (r: seq<BorrowerLoanItem>)
    ensures |r| == |rows|
    ensures forall i | 0 <= i < |rows| :: r[i].id == rows[i].loan.id && r[i].bookTitle == rows[i].bookTitle
    ensures forall i | 0 <= i < |rows| :: r[i].overdue == IsOverdue(rows[i].loan, now)
  {
    if rows == [] then []
    else
      BorrowerFlagAgrees(rows[0].loan, now);
      [BorrowerItem(rows[0], now)] + LoansByBorrower(rows[1..], now)
  }

  /** An entry of `getOverdueLoans`; its due date is never null. */
  datatype OverdueLoanItem = OverdueLoanItem(
    id: string,
    bookId: string,
    bookTitle: string,
    borrowerName: string,
    borrowerEmail: Option<string>,
    borrowerPhone: Option<string>,
    borrowedAt: int,
    dueAt: int)

  /** The database condition `returnedAt: null, dueAt: { not: null }`. */
  function WhereActiveWithDue(rows: seq<LoanRow>): (r: seq<LoanRow>)
    ensures forall i | 0 <= i < |r| :: IsActive(r[i].loan) && r[i].loan.dueAt.Some?
    ensures |r| <= |rows|
  {
    if rows == [] then []
    else if IsActive(rows[0].loan) && rows[0].loan.dueAt.Some? then [rows[0]] + WhereActiveWithDue(rows[1..])
    else WhereActiveWithDue(rows[1..])
  }

  /** `.filter((l) => l.dueAt && l.dueAt < today)`. */
  function DueBeforeToday(rows: seq<LoanRow>, now: int): (r: seq<LoanRow>)
    ensures forall i | 0 <= i < |r| :: r[i].loan.dueAt.Some? && r[i].loan.dueAt.value < StartOfDay(now)
    ensures |r| <= |rows|
  {
    if rows == [] then []
    else if rows[0].loan.dueAt.Some? && rows[0].loan.dueAt.value < StartOfDay(now) then
      [rows[0]] + DueBeforeToday(rows[1..], now)
    else DueBeforeToday(rows[1..], now)
  }

  /** The loans `isOverdue` flags, in order: the reference for `getOverdueLoans`. */
  function OverdueRows(rows: seq<LoanRow>, now: int): (r: seq<LoanRow>)
    ensures forall i | 0 <= i < |r| :: IsOverdue(r[i].loan, now)
    ensures forall row | row in rows && IsOverdue(row.loan, now) :: row in r
    ensures IsSubsequence(r, rows)
  {
    if rows == [] then []
    else if IsOverdue(rows[0].loan, now) then [rows[0]] + OverdueRows(rows[1..], now)
    else OverdueRows(rows[1..], now)
  }

  function OverdueItem(row: LoanRow): OverdueLoanItem
    requires row.loan.dueAt.Some?
  {
    var l := row.loan;
    OverdueLoanItem(l.id, l.bookId, row.bookTitle, l.borrowerName, l.borrowerEmail, l.borrowerPhone,
      l.borrowedAt, l.dueAt.value)
  }

  function OverdueItems(rows: seq<LoanRow>): (r: seq<OverdueLoanItem>)
    requires forall i | 0 <= i < |rows| :: rows[i].loan.dueAt.Some?
    ensures |r| == |rows|
    ensures forall i | 0 <= i < |rows| :: r[i] == OverdueItem(rows[i])
  {
    if rows == [] then [] else [OverdueItem(rows[0])] + OverdueItems(rows[1..])
  }

  /** `getOverdueLoans` over all loan rows: the database condition, then the date filter. */
  function OverdueLoans(rows: seq<LoanRow>, now: int): (r: seq<OverdueLoanItem>)
    ensures forall i | 0 <= i < |r| :: r[i].dueAt < StartOfDay(now)
  {
    OverdueItems(DueBeforeToday(WhereActiveWithDue(rows), now))
  }

  /** The two filters of `getOverdueLoans` select exactly the loans `isOverdue` flags, in order. */
  lemma {:induction false} OverdueLoansExact(rows: seq<LoanRow>, now: int)
    ensures DueBeforeToday(WhereActiveWithDue(rows), now) == OverdueRows(rows, now)
    ensures OverdueLoans(rows, now) == OverdueItems(OverdueRows(rows, now))
  {
    if rows != [] {
      OverdueLoansExact(rows[1..], now);
    }
  }
}
