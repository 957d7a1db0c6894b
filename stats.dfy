/** app/api/stats/route.ts: the dashboard counters, computed by one pass over all books. */
module StatsRoute {
  import opened Wrappers
  import opened LoanStatus
  import opened BookList

  datatype Stats = Stats(total: nat, available: nat, borrowed: nat, overdue: nat)

  /** The number of books with status `s`. */
  function CountStatus(books: seq<Book>, s: BookStatus): (n: nat)
    ensures n <= |books|
  {
    if books == [] then 0
    else CountStatus(books[..|books| - 1], s) + (if DerivedStatus(books[|books| - 1].loans) == s then 1 else 0)
  }

  /** A book whose active loan is overdue. */
  predicate HasOverdueLoan(b: Book, now: int) {
    ActiveLoan(b.loans).Some? && IsOverdue(ActiveLoan(b.loans).value, now)
  }

  /** The number of books whose active loan is overdue. */
  function CountOverdue(books: seq<Book>, now: int): (n: nat)
    ensures n <= |books|
  {
    if books == [] then 0
    else CountOverdue(books[..|books| - 1], now) + (if HasOverdueLoan(books[|books| - 1], now) then 1 else 0)
  }

  /** Every book is counted as exactly one of available and borrowed. */
  lemma {:induction false} CountsPartition(books: seq<Book>)
    ensures CountStatus(books, Available) + CountStatus(books, Borrowed) == |books|
  {
    if books != [] {
      CountsPartition(books[..|books| - 1]);
    }
  }

  /** Only borrowed books can be overdue. */
  lemma {:induction false} OverdueAtMostBorrowed(books: seq<Book>, now: int)
    ensures CountOverdue(books, now) <= CountStatus(books, Borrowed)
  {
    if books != [] {
      OverdueAtMostBorrowed(books[..|books| - 1], now);
    }
  }

  /** The available count is the length of the list filtered to AVAILABLE, and likewise for BORROWED. */
  lemma {:induction false} CountMatchesFilter(books: seq<Book>, s: BookStatus)
    ensures CountStatus(books, s) == |FilterStatus(books, s)|
  {
    if books != [] {
      var last := books[|books| - 1];
      var init := books[..|books| - 1];
      CountMatchesFilter(init, s);
      FilterStatusAppend(init, last, s);
      assert init + [last] == books;
    }
  }

  lemma {:induction false} FilterStatusAppend(books: seq<Book>, b: Book, s: BookStatus)
    ensures |FilterStatus(books + [b], s)| == |FilterStatus(books, s)| + (if DerivedStatus(b.loans) == s then 1 else 0)
  {
    if books == [] {
      assert books + [b] == [b];
      assert FilterStatus([b][1..], s) == [];
    } else {
      var ext := books + [b];
      assert ext[0] == books[0] && ext[1..] == books[1..] + [b];
      FilterStatusAppend(books[1..], b, s);
    }
  }

  /** `GET`: the counting loop. The active loan of a borrowed book is looked up inline
      (`book.loans.find(l => l.returnedAt === null)`), here as a search loop. */
  method Get(books: seq<Book>, now: int) returns (r: Stats)
    ensures r.total == |books|
    ensures r.available == CountStatus(books, Available)
    ensures r.borrowed == CountStatus(books, Borrowed)
    ensures r.overdue == CountOverdue(books, now)
    ensures r.available + r.borrowed == r.total && r.overdue <= r.borrowed
  {
    var available, borrowed, overdue := 0, 0, 0;
    for i := 0 to |books|
      invariant available == CountStatus(books[..i], Available)
      invariant borrowed == CountStatus(books[..i], Borrowed)
      invariant overdue == CountOverdue(books[..i], now)
      invariant available + borrowed == i && overdue <= borrowed
    {
      assert books[..i + 1][..i] == books[..i];
      var loans := books[i].loans;
      if DerivedStatus(loans) == Available {
        available := available + 1;
      } else {
        borrowed := borrowed + 1;
        var j := 0;
        while j < |loans| && !IsActive(loans[j])
          invariant 0 <= j <= |loans|
          invariant forall k | 0 <= k < j :: !IsActive(loans[k])
        {
          j := j + 1;
        }
        if j < |loans| {
          ActiveLoanIsFirst(loans, j);
          if IsOverdue(loans[j], now) {
            overdue := overdue + 1;
          }
        }
      }
    }
    assert books[..|books|] == books;
    r := Stats(|books|, available, borrowed, overdue);
  }

  /** The sample data: the first four books carry the seeded loans (active due in 7 days,
      returned, overdue by 5 days, overdue by 2 days), the other six have none. */
  lemma SeedStats(books: seq<Book>, now: int)
    requires |books| == 10
    requires forall k | 0 <= k < 4 :: |books[k].loans| == 1
    requires IsActive(books[0].loans[0]) && books[0].loans[0].dueAt == Some(now + 7 * MsPerDay)
    requires !IsActive(books[1].loans[0])
    requires IsActive(books[2].loans[0]) && books[2].loans[0].dueAt == Some(now - 5 * MsPerDay)
    requires IsActive(books[3].loans[0]) && books[3].loans[0].dueAt == Some(now - 2 * MsPerDay)
    requires forall k | 4 <= k < 10 :: books[k].loans == []
    ensures CountStatus(books, Available) == 7
    ensures CountStatus(books, Borrowed) == 3
    ensures CountOverdue(books, now) == 2
  {
    var b := books;
    forall k | 0 <= k < 4
      ensures ActiveLoan(b[k].loans) == if k == 1 then None else Some(b[k].loans[0])
    {
      assert b[k].loans[1..] == [];
    }
    assert !HasOverdueLoan(b[0], now) && HasOverdueLoan(b[2], now) && HasOverdueLoan(b[3], now);
    forall k | 1 <= k <= 10
      ensures b[..k][..k - 1] == b[..k - 1] && b[..k][k - 1] == b[k - 1]
    {
    }
    assert CountStatus(b[..1], Available) == 0 && CountStatus(b[..1], Borrowed) == 1;
    assert CountStatus(b[..2], Available) == 1 && CountStatus(b[..2], Borrowed) == 1;
    assert CountStatus(b[..3], Available) == 1 && CountStatus(b[..3], Borrowed) == 2;
    assert CountStatus(b[..4], Available) == 1 && CountStatus(b[..4], Borrowed) == 3;
    assert CountStatus(b[..5], Available) == 2 && CountStatus(b[..5], Borrowed) == 3;
    assert CountStatus(b[..6], Available) == 3 && CountStatus(b[..6], Borrowed) == 3;
    assert CountStatus(b[..7], Available) == 4 && CountStatus(b[..7], Borrowed) == 3;
    assert CountStatus(b[..8], Available) == 5 && CountStatus(b[..8], Borrowed) == 3;
    assert CountStatus(b[..9], Available) == 6 && CountStatus(b[..9], Borrowed) == 3;
    assert CountStatus(b[..10], Available) == 7 && CountStatus(b[..10], Borrowed) == 3;
    assert CountOverdue(b[..1], now) == 0;
    assert CountOverdue(b[..2], now) == 0;
    assert CountOverdue(b[..3], now) == 1;
    assert CountOverdue(b[..4], now) == 2;
    assert CountOverdue(b[..5], now) == 2;
    assert CountOverdue(b[..6], now) == 2;
    assert CountOverdue(b[..7], now) == 2;
    assert CountOverdue(b[..8], now) == 2;
    assert CountOverdue(b[..9], now) == 2;
    assert CountOverdue(b[..10], now) == 2;
    assert b[..10] == b;
  }
}

/** app/page.tsx: `getStats`, the same counting loop using `getActiveLoan`. */
module Dashboard {
  import opened LoanStatus
  import opened BookList
  import opened StatsRoute

  /** `getStats`; it reports exactly what the stats route reports, since both are pinned to the
      same counts. */
  method GetStats(books: seq<Book>, now: int) returns (r: Stats)
    ensures r.total == |books|
    ensures r.available == CountStatus(books, Available)
    ensures r.borrowed == CountStatus(books, Borrowed)
    ensures r.overdue == CountOverdue(books, now)
    ensures r.available + r.borrowed == r.total && r.overdue <= r.borrowed
  {
    var available, borrowed, overdue := 0, 0, 0;
    for i := 0 to |books|
      invariant available == CountStatus(books[..i], Available)
      invariant borrowed == CountStatus(books[..i], Borrowed)
      invariant overdue == CountOverdue(books[..i], now)
      invariant available + borrowed == i && overdue <= borrowed
    {
      assert books[..i + 1][..i] == books[..i];
      if DerivedStatus(books[i].loans) == Available {
        available := available + 1;
      } else {
        borrowed := borrowed + 1;
        var active := ActiveLoan(books[i].loans);
        if active.Some? && IsOverdue(active.value, now) {
          overdue := overdue + 1;
        }
      }
    }
    assert books[..|books|] == books;
    r := Stats(|books|, available, borrowed, overdue);
  }
}
