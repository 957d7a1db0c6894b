/** app/books/borrow-modal.tsx: the client-side checks of the borrow form and its submit handler. */
module BorrowModal {
  import opened Wrappers
  import opened Text

  const EmailError := "Enter a valid email (e.g. name@example.com)"
  const PhoneDigitsError := "Enter at least 10 digits (e.g. +1 234 567 8900)"
  const PhoneFormatError := "Enter a valid phone (digits, spaces, dashes, or +1…)"

  /** The class `[^\s@]`. */
  predicate EmailChar(c: char) {
    !IsSpace(c) && c != '@'
  }

  predicate AllEmailChars(s: string) {
    forall i | 0 <= i < |s| :: EmailChar(s[i])
  }

  /** `EMAIL_REGEX` = `^[^\s@]+@[^\s@]+\.[^\s@]+$` matched with the `@` at `i` and the dot at `j`. */
  predicate EmailMatchAt(s: string, i: int, j: int) {
    && 0 < i && i + 1 < j && j + 1 < |s|
    && s[i] == '@' && s[j] == '.'
    && AllEmailChars(s[..i]) && AllEmailChars(s[i + 1..j]) && AllEmailChars(s[j + 1..])
  }

  /** `EMAIL_REGEX`, read literally: three non-empty runs of `[^\s@]`, separated by an `@` and a dot. */
  ghost predicate EmailPattern(s: string) {
    exists i, j :: EmailMatchAt(s, i, j)
  }

  /** A domain: `[^\s@]` characters only, with a dot that is neither first nor last. */
  predicate IsDomain(d: string) {
    |d| >= 3 && AllEmailChars(d) && '.' in d[1..|d| - 1]
  }

  /** `s` is `local@domain` split at `i`, with a non-empty local part of `[^\s@]` characters. */
  predicate LocalAtDomain(s: string, i: int) {
    0 < i < |s| && s[i] == '@' && AllEmailChars(s[..i]) && IsDomain(s[i + 1..])
  }

  /** The position of the first `c` in `s`, or `|s|` when there is none. */
  function IndexOf(s: string, c: char): (k: nat)
    ensures k <= |s| && c !in s[..k]
    ensures k < |s| ==> s[k] == c
  {
    if s == [] then 0
    else if s[0] == c then 0
    else
      var k := 1 + IndexOf(s[1..], c);
      assert s[..k] == [s[0]] + s[1..][..k - 1];
      k
  }

  lemma PatternGivesDomain(s: string) returns (i: int)
    requires EmailPattern(s)
    ensures LocalAtDomain(s, i)
  {
    var a, j :| EmailMatchAt(s, a, j);
    i := a;
    var d := s[i + 1..];
    assert d[j - i - 1] == '.';
    assert d[1..|d| - 1][j - i - 2] == '.';
    forall k | 0 <= k < |d| ensures EmailChar(d[k]) {
      if k + i + 1 < j {
        assert s[i + 1..j][k] == d[k];
      } else if k + i + 1 > j {
        assert s[j + 1..][k + i - j] == d[k];
      }
    }
  }

  lemma DomainGivesPattern(s: string, i: int)
    requires LocalAtDomain(s, i)
    ensures EmailPattern(s)
  {
    var d := s[i + 1..];
    var m :| 0 <= m < |d| - 2 && d[1..|d| - 1][m] == '.';
    var j := i + 2 + m;
    assert s[i + 1..j] == d[..m + 1] && s[j + 1..] == d[m + 2..];
    assert EmailMatchAt(s, i, j);
  }

  /** In `local@domain` the `@` is the first one, since the local part has none. */
  lemma DomainAtFirstAt(s: string, i: int)
    requires LocalAtDomain(s, i)
    ensures IndexOf(s, '@') == i
  {
    var k := IndexOf(s, '@');
    assert '@' !in s[..i] by {
      forall t | 0 <= t < i ensures s[..i][t] != '@' {
        assert EmailChar(s[..i][t]);
      }
    }
  }

  /** Matching `EMAIL_REGEX`: the text before the first `@` is a non-empty local part and
      the text after it a domain. */
  function MatchesEmail(s: string): (r: bool)
    ensures r <==> EmailPattern(s)
    ensures r <==> exists i :: LocalAtDomain(s, i)
  {
    var k := IndexOf(s, '@');
    var r := LocalAtDomain(s, k);
    if r then
      DomainGivesPattern(s, k);
      r
    else
      assert forall i | LocalAtDomain(s, i) :: false by {
        forall i | LocalAtDomain(s, i) ensures false {
          DomainAtFirstAt(s, i);
        }
      }
      assert EmailPattern(s) ==> false by {
        if EmailPattern(s) {
          var i := PatternGivesDomain(s);
        }
      }
      r
  }

  /** `validateEmail`: no error for a blank value; otherwise the trimmed value must match `EMAIL_REGEX`. */
  function ValidateEmail(value: string): (r: Option<string>)
    ensures IsBlank(value) ==> r == None
    ensures r == None <==> IsBlank(value) || EmailPattern(Trim(value))
    ensures r != None ==> r == Some(EmailError)
  {
    var trimmed := Trim(value);
    if trimmed == [] then None
    else if MatchesEmail(trimmed) then None
    else Some(EmailError)
  }

  /** The class `[\d\s\-().]`. */
  predicate PhoneChar(c: char) {
    IsDigit(c) || IsSpace(c) || c == '-' || c == '(' || c == ')' || c == '.'
  }

  predicate AllPhoneChars(s: string) {
    forall i | 0 <= i < |s| :: PhoneChar(s[i])
  }

  /** `PHONE_REGEX` = `^\+?[\d\s\-().]{10,}$`, read literally: an optional `+`, then at least ten
      characters of the class. */
  ghost predicate PhonePattern(s: string) {
    (|s| >= 10 && AllPhoneChars(s)) || (|s| >= 11 && s[0] == '+' && AllPhoneChars(s[1..]))
  }

  /** Matching `PHONE_REGEX`: a leading `+` is taken as the optional one, since the class has no `+`. */
  function MatchesPhone(s: string): (r: bool)
    ensures r <==> PhonePattern(s)
  {
    if |s| > 0 && s[0] == '+' then
      assert !AllPhoneChars(s) by { assert !PhoneChar(s[0]); }
      |s| >= 11 && AllPhoneChars(s[1..])
    else |s| >= 10 && AllPhoneChars(s)
  }

  /** `s.replace(/\D/g, "")`: the digits of `s`, in order. */
  function DigitsOnly(s: string): (r: string)
    ensures |r| <= |s|
    ensures forall i | 0 <= i < |r| :: IsDigit(r[i])
    ensures (forall i | 0 <= i < |s| :: IsDigit(s[i])) ==> r == s
  {
    if s == [] then []
    else if IsDigit(s[0]) then [s[0]] + DigitsOnly(s[1..])
    else DigitsOnly(s[1..])
  }

  /** `validatePhone`: no error for a blank value, the digit-count error below ten digits, and
      otherwise no error exactly when, after an optional `+`, every character is a digit,
      whitespace, `-`, `(`, `)` or `.` (the regex's length bound then holds by itself). */
  function ValidatePhone(value: string): (r: Option<string>)
    ensures IsBlank(value) ==> r == None
    ensures !IsBlank(value) && |DigitsOnly(Trim(value))| < 10 ==> r == Some(PhoneDigitsError)
    ensures !IsBlank(value) && |DigitsOnly(Trim(value))| >= 10 ==>
      (r == None <==> (var t := Trim(value); AllPhoneChars(t) || (t[0] == '+' && AllPhoneChars(t[1..]))))
    ensures r != None ==> r == Some(PhoneDigitsError) || r == Some(PhoneFormatError)
  {
    var trimmed := Trim(value);
    if trimmed == [] then None
    else if |DigitsOnly(trimmed)| < 10 then Some(PhoneDigitsError)
    else
      assert trimmed[0] == '+' ==> DigitsOnly(trimmed) == DigitsOnly(trimmed[1..]);
      if MatchesPhone(trimmed) then None else Some(PhoneFormatError)
  }

  /** What `handleSubmit` passes to `onSubmit`. */
  datatype BorrowFormData = BorrowFormData(
    borrowerName: string,
    borrowerEmail: Option<string>,
    borrowerPhone: Option<string>,
    dueAt: Option<string>)

  /** The submission `handleSubmit` makes from the form fields, if any; `toIso` stands for
      `new Date(dueDate).toISOString()`. */
  function Submission(name: string, email: string, phone: string, dueDate: string, toIso: string -> string)
    : (r: Option<BorrowFormData>)
    ensures r.Some? <==> !IsBlank(name) && ValidateEmail(email) == None && ValidatePhone(phone) == None
    ensures r.Some? ==> r.value.borrowerName == Trim(name) && r.value.borrowerName != []
    ensures r.Some? ==> r.value.borrowerEmail == (if IsBlank(email) then None else Some(Trim(email)))
    ensures r.Some? ==> r.value.borrowerPhone == (if IsBlank(phone) then None else Some(Trim(phone)))
    ensures r.Some? ==> r.value.dueAt == (if IsBlank(dueDate) then None else Some(toIso(dueDate)))
  {
    var n := Trim(name);
    if n == [] then None
    else if ValidateEmail(email) != None || ValidatePhone(phone) != None then None
    else
      var e := Trim(email);
      var p := Trim(phone);
      Some(BorrowFormData(n, if e == [] then None else Some(e), if p == [] then None else Some(p),
        if Trim(dueDate) == [] then None else Some(toIso(dueDate))))
  }

  /** The body of `handleSubmit` on the field values: from the errors shown and the submissions
      made so far, the errors shown and the submissions made afterwards. */
  method SubmitStep(name: string, email: string, phone: string, dueDate: string, toIso: string -> string,
                    emailError: Option<string>, phoneError: Option<string>, submitted: seq<BorrowFormData>)
    returns (emailError': Option<string>, phoneError': Option<string>, submitted': seq<BorrowFormData>)
    ensures IsBlank(name) ==> emailError' == emailError && phoneError' == phoneError
    ensures !IsBlank(name) ==> emailError' == ValidateEmail(email) && phoneError' == ValidatePhone(phone)
    ensures var s := Submission(name, email, phone, dueDate, toIso);
      submitted' == submitted + (if s.Some? then [s.value] else [])
  {
    emailError', phoneError', submitted' := emailError, phoneError, submitted;
    var trimmedName := Trim(name);
    if trimmedName == [] {
      return;
    }
    emailError', phoneError' := ValidateEmail(email), ValidatePhone(phone);
    if emailError' != None || phoneError' != None {
      return;
    }
    var dueAt := if Trim(dueDate) != [] then Some(toIso(dueDate)) else None;
    var trimmedEmail := Trim(email);
    var trimmedPhone := Trim(phone);
    var data := BorrowFormData(trimmedName,
      if trimmedEmail == [] then None else Some(trimmedEmail),
      if trimmedPhone == [] then None else Some(trimmedPhone), dueAt);
    assert Submission(name, email, phone, dueDate, toIso) == Some(data);
    submitted' := submitted' + [data];
  }

  /** The form's state: the four inputs, the two error messages shown, and the submissions
      made so far (the calls of `onSubmit`). */
  class BorrowForm {
    var borrowerName: string
    var borrowerEmail: string
    var borrowerPhone: string
    var dueDate: string
    var emailError: Option<string>
    var phoneError: Option<string>
    var submitted: seq<BorrowFormData>

    /** The form as it is when opened: every field empty and no error shown. */
    constructor ()
      ensures borrowerName == "" && borrowerEmail == "" && borrowerPhone == "" && dueDate == ""
      ensures emailError == None && phoneError == None && submitted == []
    {
      borrowerName, borrowerEmail, borrowerPhone, dueDate := "", "", "", "";
      emailError, phoneError := None, None;
      submitted := [];
    }

    /** `handleSubmit`: stops at once on a blank name; otherwise shows the validators' verdicts
        and submits only when both are clean. */
    method HandleSubmit(toIso: string -> string)
      modifies this
      ensures borrowerName == old(borrowerName) && borrowerEmail == old(borrowerEmail)
      ensures borrowerPhone == old(borrowerPhone) && dueDate == old(dueDate)
      ensures IsBlank(borrowerName) ==> emailError == old(emailError) && phoneError == old(phoneError)
      ensures !IsBlank(borrowerName) ==>
        emailError == ValidateEmail(borrowerEmail) && phoneError == ValidatePhone(borrowerPhone)
      ensures var s := Submission(borrowerName, borrowerEmail, borrowerPhone, dueDate, toIso);
        submitted == old(submitted) + (if s.Some? then [s.value] else [])
    {
      emailError, phoneError, submitted :=
        SubmitStep(borrowerName, borrowerEmail, borrowerPhone, dueDate, toIso, emailError, phoneError, submitted);
    }
  }
}
