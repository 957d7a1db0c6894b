/** lib/auth.ts: the roles, the list of administrator emails read from the environment, and the
    role decision of the NextAuth `session` callback. */
module Auth {
  import opened Wrappers
  import opened Text

  datatype Role = Admin | Librarian | Member

  /** One entry of the list: trimmed, then lower-cased. */
  function NormalizeEmail(e: string): (r: string)
    ensures Trimmed(r) && HasNoUpper(r)
    ensures r == [] <==> IsBlank(e)
  {
    ToLowerTrimmed(Trim(e));
    ToLower(Trim(e))
  }

  /** A list entry: non-empty, lower-case, no whitespace at either end. */
  predicate IsEntry(x: string) {
    x != [] && HasNoUpper(x) && Trimmed(x)
  }

  /** Keeps the non-empty normalised entries, in order. */
  function CleanEntries(parts: seq<string>): (r: seq<string>)
    ensures |r| <= |parts|
  {
    if parts == [] then []
    else
      var e := NormalizeEmail(parts[0]);
      if e == [] then CleanEntries(parts[1..]) else [e] + CleanEntries(parts[1..])
  }

  /** Every kept entry is non-empty, lower-case and trimmed. */
  lemma {:induction false} CleanEntriesAreEntries(parts: seq<string>)
    ensures forall k | 0 <= k < |CleanEntries(parts)| :: IsEntry(CleanEntries(parts)[k])
  {
    if parts != [] {
      CleanEntriesAreEntries(parts[1..]);
    }
  }

  /** The entries are exactly the non-empty normalised pieces. */
  lemma {:induction false} CleanEntriesMembers(parts: seq<string>, x: string)
    ensures x in CleanEntries(parts) <==> x != [] && exists k | 0 <= k < |parts| :: NormalizeEmail(parts[k]) == x
  {
    if parts != [] {
      var e := NormalizeEmail(parts[0]);
      var tail := parts[1..];
      CleanEntriesMembers(tail, x);
      assert CleanEntries(parts) == if e == [] then CleanEntries(tail) else [e] + CleanEntries(tail);
      if x != [] && exists k | 0 <= k < |parts| :: NormalizeEmail(parts[k]) == x {
        var k :| 0 <= k < |parts| && NormalizeEmail(parts[k]) == x;
        if k > 0 {
          assert tail[k - 1] == parts[k];
        }
      }
      if x in CleanEntries(tail) {
        var k :| 0 <= k < |tail| && NormalizeEmail(tail[k]) == x;
        assert parts[k + 1] == tail[k];
      }
    }
  }

  /** The comma-separated pieces of the variable, which counts as empty when unset. */
  function Pieces(env: Option<string>): (r: seq<string>)
    ensures env.None? ==> r == [""]
  {
    Split(env.GetOr(""), ',')
  }

  /** `ADMIN_EMAILS`: the pieces of the variable, each trimmed and lower-cased, empty ones dropped. */
  function AdminEmails(env: Option<string>): (r: seq<string>)
    ensures env.None? ==> r == []
    ensures forall k | 0 <= k < |r| :: IsEntry(r[k])
  {
    BlankPieceDropped("");
    CleanEntriesAreEntries(Pieces(env));
    CleanEntries(Pieces(env))
  }

  /** A blank piece on its own yields no entry. */
  lemma BlankPieceDropped(p: string)
    requires IsBlank(p)
    ensures CleanEntries([p]) == []
  {
    assert [p][1..] == [] && [p][0] == p;
    assert NormalizeEmail(p) == [];
    assert CleanEntries([]) == [];
  }

  /** An address is on the list exactly when some piece of the variable, trimmed and
      lower-cased, is that (non-empty) address. */
  lemma AdminEmailsMembers(env: Option<string>, x: string)
    ensures x in AdminEmails(env) <==>
      x != [] && exists k | 0 <= k < |Pieces(env)| :: NormalizeEmail(Pieces(env)[k]) == x
  {
    CleanEntriesMembers(Pieces(env), x);
  }

  /** Whether a stored email is an administrator's: `dbUser.email && ADMIN_EMAILS.includes(email.toLowerCase())`. */
  predicate IsAdminEmail(email: Option<string>, admins: seq<string>) {
    email.Some? && email.value != [] && ToLower(email.value) in admins
  }

  /** The test against the list ignores letter case. */
  lemma AdminEmailCaseInsensitive(a: string, b: string, admins: seq<string>)
    requires |a| == |b| && forall i | 0 <= i < |a| :: LowerChar(a[i]) == LowerChar(b[i])
    ensures IsAdminEmail(Some(a), admins) <==> IsAdminEmail(Some(b), admins)
  {
    assert ToLower(a) == ToLower(b);
  }

  /** The guard against an empty email adds nothing: the list never holds the empty string. */
  lemma EmptyEmailNeverAdmin(env: Option<string>)
    ensures !IsAdminEmail(Some(""), AdminEmails(env))
    ensures "" !in AdminEmails(env)
  {
  }

  /** A stored email with whitespace around it never matches, since the list entries are trimmed. */
  lemma PaddedEmailNeverAdmin(email: string, env: Option<string>)
    requires !Trimmed(email)
    ensures !IsAdminEmail(Some(email), AdminEmails(env))
  {
    ToLowerTrimmed(email);
    EntryIsTrimmed(env, ToLower(email));
  }

  lemma EntryIsTrimmed(env: Option<string>, x: string)
    ensures x in AdminEmails(env) ==> Trimmed(x)
  {
    var admins := AdminEmails(env);
    if x in admins {
      var k :| 0 <= k < |admins| && admins[k] == x;
    }
  }

  /** An unset variable gives no administrators; a single address with a space before it and
      a trailing comma gives exactly that address. */
  lemma AdminEmailsExamples(x: string)
    requires IsEntry(x) && ',' !in x
    ensures AdminEmails(None) == []
    ensures AdminEmails(Some(" " + x + ",")) == [x]
  {
    var parts := [" " + x, ""];
    TrailingCommaPieces(x);
    PaddedEntry(x);
    assert parts[1..] == [""] && parts[0] == " " + x;
    BlankPieceDropped("");
    assert CleanEntries(parts) == [NormalizeEmail(parts[0])] + CleanEntries(parts[1..]);
  }

  lemma TrailingCommaPieces(x: string)
    requires ',' !in x
    ensures Pieces(Some(" " + x + ",")) == [" " + x, ""]
  {
    var parts := [" " + x, ""];
    assert Join(parts, [',']) == " " + x + ",";
    SplitJoin(parts, ',');
  }

  lemma PaddedEntry(x: string)
    requires IsEntry(x)
    ensures NormalizeEmail(" " + x) == x
  {
    assert (" " + x)[1..] == x;
    assert TrimStart(" " + x) == x;
    assert Trim(" " + x) == x;
    ToLowerFixed(x);
  }

  /** A user row: its stored role and email. */
  datatype UserRow = UserRow(role: Role, email: Option<string>)

  /** The role the callback settles on for a stored user. */
  function SessionRole(row: UserRow, admins: seq<string>): (r: Role)
    ensures IsAdminEmail(row.email, admins) ==> r == Admin
    ensures !IsAdminEmail(row.email, admins) ==> r == row.role
    ensures row.role == Admin ==> r == Admin
  {
    if IsAdminEmail(row.email, admins) then Admin else row.role
  }

  /** Settling twice gives the same role as settling once: the promotion is stable. */
  lemma SessionRoleIdempotent(row: UserRow, admins: seq<string>)
    ensures SessionRole(row.(role := SessionRole(row, admins)), admins) == SessionRole(row, admins)
  {
  }

  /** The user table. */
  class UserTable {
    var rows: map<string, UserRow>

    constructor (rows: map<string, UserRow>)
      ensures this.rows == rows
    {
      this.rows := rows;
    }
  }

  /** `session.user`, whose `role` the callback assigns. */
  class SessionUser {
    var role: Option<Role>

    constructor ()
      ensures role == None
    {
      role := None;
    }
  }

  /** The `session` callback for the signed-in user `userId`, with `sessionUser` as
      `session.user` (`null` when the session has none). An administrator's email promotes the
      stored row and the session to ADMIN; otherwise the session gets the stored role. */
  method SessionCallback(sessionUser: SessionUser?, userId: string, users: UserTable, admins: seq<string>)
    modifies users, sessionUser
    ensures sessionUser == null || userId !in old(users.rows) ==>
      users.rows == old(users.rows) && (sessionUser != null ==> sessionUser.role == old(sessionUser.role))
    ensures sessionUser != null && userId in old(users.rows) ==>
      var row := old(users.rows[userId]);
      && sessionUser.role == Some(SessionRole(row, admins))
      && users.rows == (if IsAdminEmail(row.email, admins) then old(users.rows)[userId := row.(role := Admin)]
                        else old(users.rows))
  {
    if sessionUser != null {
      if userId in users.rows {
        var row := users.rows[userId];
        var role := row.role;
        if row.email.Some? && row.email.value != [] && ToLower(row.email.value) in admins {
          users.rows := users.rows[userId := row.(role := Admin)];
          role := Admin;
        }
        sessionUser.role := Some(role);
      }
    }
  }
}
