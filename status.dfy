/** lib/status.ts: a book's status is never stored; it is derived from its loans. */
module LoanStatus {
  import opened Wrappers

  /** Milliseconds in a UTC day. */
  const MsPerDay: int := 86400000

  /** A loan row. Times are milliseconds since the epoch; `None` stands for SQL NULL. */
  datatype Loan = Loan(
    id: string,
    bookId: string,
    borrowerName: string,
    borrowerEmail: Option<string>,
    borrowerPhone: Option<string>,
    borrowedAt: int,
    dueAt: Option<int>,
    returnedAt: Option<int>)

  datatype BookStatus = Available | Borrowed

  /** A loan is active while it has not been returned. */
  predicate IsActive(l: Loan) {
    l.returnedAt.None?
  }

  predicate NoneActive(loans: seq<Loan>) {
    forall i | 0 <= i < |loans| :: !IsActive(loans[i])
  }

  /** The UTC calendar day a time falls on (days since the epoch, rounded down). */
  function DayOf(t: int): int {
    t / MsPerDay
  }

  /** `today.setUTCHours(0, 0, 0, 0)`: midnight UTC at the start of the day of `t`. */
  function StartOfDay(t: int): (r: int)
    ensures r <= t < r + MsPerDay
    ensures r % MsPerDay == 0 && DayOf(r) == DayOf(t)
  {
    t - t % MsPerDay
  }

  /** `getActiveLoan`: `loans.find(l => l.returnedAt === null) ?? null`. */
  function ActiveLoan(loans: seq<Loan>): (r: Option<Loan>)
    ensures r.None? <==> NoneActive(loans)
    ensures r.Some? ==> IsActive(r.value) && r.value in loans
  {
    if |loans| == 0 then None
    else if IsActive(loans[0]) then Some(loans[0])
    else ActiveLoan(loans[1..])
  }

  /** `getDerivedStatus`. */
  function DerivedStatus(loans: seq<Loan>): (r: BookStatus)
    ensures r == Borrowed <==> exists i | 0 <= i < |loans| :: IsActive(loans[i])
    ensures r == Borrowed <==> ActiveLoan(loans).Some?
  {
    if ActiveLoan(loans).Some? then Borrowed else Available
  }

  /** `isOverdue`, with the current time passed in as `now`. */
  function IsOverdue(loan: Loan, now: int): (r: bool)
    ensures loan.returnedAt.Some? ==> !r
    ensures loan.dueAt.None? ==> !r
    ensures r <==> IsActive(loan) && loan.dueAt.Some? && DayOf(loan.dueAt.value) < DayOf(now)
  {
    if loan.returnedAt.Some? then false
    else if loan.dueAt.None? then false
    else loan.dueAt.value < StartOfDay(now)
  }

  /** The loan found is the first active one in list order. */
  lemma {:induction false} ActiveLoanIsFirst(loans: seq<Loan>, k: nat)
    requires k < |loans| && IsActive(loans[k])
    requires forall j | 0 <= j < k :: !IsActive(loans[j])
    ensures ActiveLoan(loans) == Some(loans[k])
  {
    if k > 0 {
      ActiveLoanIsFirst(loans[1..], k - 1);
    }
  }

  /** With at most one active loan (the intended invariant), the active loan is that one. */
  lemma ActiveLoanUnique(loans: seq<Loan>, k: nat)
    requires k < |loans| && IsActive(loans[k])
    requires forall i, j | 0 <= i < j < |loans| :: !(IsActive(loans[i]) && IsActive(loans[j]))
    ensures ActiveLoan(loans) == Some(loans[k])
    ensures DerivedStatus(loans) == Borrowed
  {
    ActiveLoanIsFirst(loans, k);
  }

  /** Inserting a returned loan anywhere (and so also removing one) leaves the active loan,
      and with it the status, unchanged. */
  lemma {:induction false} ReturnedLoanIrrelevant(loans: seq<Loan>, p: nat, l: Loan)
    requires p <= |loans| && !IsActive(l)
    ensures ActiveLoan(loans[..p] + [l] + loans[p..]) == ActiveLoan(loans)
    ensures DerivedStatus(loans[..p] + [l] + loans[p..]) == DerivedStatus(loans)
  {
    var ext := loans[..p] + [l] + loans[p..];
    if p == 0 {
      assert ext[1..] == loans;
    } else {
      ReturnedLoanIrrelevant(loans[1..], p - 1, l);
      assert ext[0] == loans[0];
      assert ext[1..] == loans[1..][..p - 1] + [l] + loans[1..][p - 1..];
    }
  }

  /** Appending already-returned loans never changes the active loan. */
  lemma {:induction false} AppendReturnedLoans(loans: seq<Loan>, returned: seq<Loan>)
    requires NoneActive(returned)
    ensures ActiveLoan(loans + returned) == ActiveLoan(loans)
  {
    if |loans| == 0 {
      assert loans + returned == returned;
    } else {
      AppendReturnedLoans(loans[1..], returned);
      assert (loans + returned)[1..] == loans[1..] + returned;
    }
  }

  /** A due date at or after the start of today is not overdue, even if that moment has passed. */
  lemma DueTodayNotOverdue(loan: Loan, now: int)
    requires loan.dueAt.Some? && StartOfDay(now) <= loan.dueAt.value
    ensures !IsOverdue(loan, now)
  {
  }

  /** A loan without loans is available and nothing is overdue; a single active loan due
      yesterday makes the book borrowed and overdue. */
  lemma SingleLoanScenarios(l: Loan, now: int)
    ensures DerivedStatus([]) == Available && ActiveLoan([]) == None
    ensures IsActive(l) && l.dueAt == Some(now - MsPerDay) ==>
      DerivedStatus([l]) == Borrowed && IsOverdue(l, now)
  {
    if IsActive(l) && l.dueAt == Some(now - MsPerDay) {
      assert [l][0] == l;
    }
  }

  /** The four loans of the sample data, seeded at time `now` and looked at at the same time:
      due in 7 days (not overdue), returned (not overdue), due 5 and 2 days ago (overdue). */
  lemma SeedScenarios(base: Loan, now: int)
    ensures !IsOverdue(base.(returnedAt := None, dueAt := Some(now + 7 * MsPerDay)), now)
    ensures !IsOverdue(base.(returnedAt := Some(now - 7 * MsPerDay), dueAt := None), now)
    ensures IsOverdue(base.(returnedAt := None, dueAt := Some(now - 5 * MsPerDay)), now)
    ensures IsOverdue(base.(returnedAt := None, dueAt := Some(now - 2 * MsPerDay)), now)
  {
  }
}
