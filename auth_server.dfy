/** lib/auth-server.ts: the capabilities a request gets from its session's role. */
module AuthServer {
  import opened Wrappers
  import opened Auth

  /** The roles allowed to change books and loans. */
  const MutateRoles: seq<Role> := [Admin, Librarian]

  /** The user on a session; its role may be missing. */
  datatype SessionUserInfo = SessionUserInfo(role: Option<Role>)

  /** A session; `user` is `None` when the session carries no user. */
  datatype Session = Session(user: Option<SessionUserInfo>)

  datatype AuthCheck = AuthCheck(session: Option<Session>, role: Option<Role>, canMutate: bool)

  datatype AdminCheck = AdminCheck(session: Option<Session>, isAdmin: bool)

  predicate HasUser(session: Option<Session>) {
    session.Some? && session.value.user.Some?
  }

  /** The role of a signed-in session, MEMBER when none is recorded. */
  function EffectiveRole(session: Option<Session>): (r: Role)
    requires HasUser(session)
    ensures session.value.user.value.role.Some? ==> r == session.value.user.value.role.value
    ensures session.value.user.value.role.None? ==> r == Member
  {
    session.value.user.value.role.GetOr(Member)
  }

  /** `requireAuth`, with the session fetched by the caller. */
  function RequireAuth(session: Option<Session>): (r: AuthCheck)
    ensures !HasUser(session) ==> r == AuthCheck(None, None, false)
    ensures HasUser(session) ==> r.session == session && r.role == Some(EffectiveRole(session))
    ensures r.canMutate <==> HasUser(session) && (EffectiveRole(session) == Admin || EffectiveRole(session) == Librarian)
  {
    if !HasUser(session) then AuthCheck(None, None, false)
    else
      var role := EffectiveRole(session);
      AuthCheck(session, Some(role), role in MutateRoles)
  }

  /** `requireAdmin`, with the session fetched by the caller. */
  function RequireAdmin(session: Option<Session>): (r: AdminCheck)
    ensures !HasUser(session) ==> r == AdminCheck(None, false)
    ensures HasUser(session) ==> r.session == session
    ensures r.isAdmin <==> HasUser(session) && EffectiveRole(session) == Admin
  {
    if !HasUser(session) then AdminCheck(None, false)
    else AdminCheck(session, EffectiveRole(session) == Admin)
  }

  /** An administrator may also mutate; a member (including a session without a role) has
      neither right; a librarian may mutate but is no administrator. */
  lemma CapabilityOrder(session: Option<Session>)
    ensures RequireAdmin(session).isAdmin ==> RequireAuth(session).canMutate
    ensures HasUser(session) && EffectiveRole(session) == Member ==>
      !RequireAuth(session).canMutate && !RequireAdmin(session).isAdmin
    ensures HasUser(session) && EffectiveRole(session) == Librarian ==>
      RequireAuth(session).canMutate && !RequireAdmin(session).isAdmin
    ensures RequireAuth(Some(Session(Some(SessionUserInfo(None))))).canMutate == false
  {
  }
}
