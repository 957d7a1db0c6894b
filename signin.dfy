/** app/auth/signin/page.tsx: which authentication variables are missing from the environment,
    and the text shown for a NextAuth error code. */
module SignIn {
  import opened Wrappers
  import opened Text

  /** The variables sign-in needs, in the order they are reported. */
  const AuthEnvKeys: seq<string> := ["NEXTAUTH_URL", "NEXTAUTH_SECRET", "GOOGLE_CLIENT_ID", "GOOGLE_CLIENT_SECRET"]

  /** A variable is missing when unset or only whitespace. The environment is a map from names
      to values (every value the process sees is a string). */
  predicate IsMissing(env: map<string, string>, key: string) {
    key !in env || IsBlank(env[key])
  }

  /** `keys.filter(missing)`. */
  function MissingOf(keys: seq<string>, env: map<string, string>): (r: seq<string>)
    ensures |r| <= |keys|
  {
    if keys == [] then []
    else (if IsMissing(env, keys[0]) then [keys[0]] else []) + MissingOf(keys[1..], env)
  }

  /** A key is reported exactly when it is one of the keys and missing. */
  lemma {:induction false} MissingOfMembers(keys: seq<string>, env: map<string, string>, x: string)
    ensures x in MissingOf(keys, env) <==> x in keys && IsMissing(env, x)
  {
    if keys != [] {
      MissingOfMembers(keys[1..], env, x);
      assert keys == [keys[0]] + keys[1..];
    }
  }

  /** The reported keys keep their relative order: the report is a subsequence of the keys. */
  lemma {:induction false} MissingOfSubsequence(keys: seq<string>, env: map<string, string>)
    ensures IsSubsequence(MissingOf(keys, env), keys)
  {
    if keys != [] {
      var rest := MissingOf(keys[1..], env);
      MissingOfSubsequence(keys[1..], env);
      if IsMissing(env, keys[0]) {
        assert MissingOf(keys, env) == [keys[0]] + rest;
        assert ([keys[0]] + rest)[1..] == rest;
      } else {
        assert MissingOf(keys, env) == rest;
      }
    }
  }

  /** `getMissingAuthEnv`. */
  function GetMissingAuthEnv(env: map<string, string>): (r: seq<string>)
    ensures |r| <= |AuthEnvKeys|
  {
    MissingOf(AuthEnvKeys, env)
  }

  /** The report names, in declared order, exactly the missing variables. */
  lemma MissingAuthEnvExact(env: map<string, string>, x: string)
    ensures x in GetMissingAuthEnv(env) <==> x in AuthEnvKeys && IsMissing(env, x)
    ensures IsSubsequence(GetMissingAuthEnv(env), AuthEnvKeys)
  {
    MissingOfMembers(AuthEnvKeys, env, x);
    MissingOfSubsequence(AuthEnvKeys, env);
  }

  /** With all four set to something other than whitespace, nothing is reported. */
  lemma {:induction false} NothingMissing(keys: seq<string>, env: map<string, string>)
    requires forall k | 0 <= k < |keys| :: !IsMissing(env, keys[k])
    ensures MissingOf(keys, env) == []
  {
    if keys != [] {
      NothingMissing(keys[1..], env);
    }
  }

  lemma AllSetNothingMissing(env: map<string, string>)
    requires forall k | 0 <= k < |AuthEnvKeys| :: AuthEnvKeys[k] in env && !IsBlank(env[AuthEnvKeys[k]])
    ensures GetMissingAuthEnv(env) == []
  {
    NothingMissing(AuthEnvKeys, env);
  }

  /** With none of them set, all four are reported, in order. */
  lemma NoneSetAllMissing()
    ensures GetMissingAuthEnv(map[]) == AuthEnvKeys
  {
    var k := AuthEnvKeys;
    assert k[1..][1..][1..][1..] == [];
  }

  // ---------------------------------------------------------------- error codes

  /** The codes the `messages` record has an entry of its own for. */
  datatype KnownCode =
    | Configuration | AccessDenied | OAuthSignin | OAuthCallback
    | OAuthCreateAccount | OAuthAccountNotLinked | SessionRequired

  function CodeName(c: KnownCode): string {
    match c
    case Configuration => "Configuration"
    case AccessDenied => "AccessDenied"
    case OAuthSignin => "OAuthSignin"
    case OAuthCallback => "OAuthCallback"
    case OAuthCreateAccount => "OAuthCreateAccount"
    case OAuthAccountNotLinked => "OAuthAccountNotLinked"
    case SessionRequired => "SessionRequired"
  }

  /** The record's entry for each known code. */
  function Message(c: KnownCode): string {
    match c
    case Configuration => "Sign-in is not configured. Add NEXTAUTH_SECRET and Google OAuth credentials (GOOGLE_CLIENT_ID, GOOGLE_CLIENT_SECRET) to .env. Restart the dev server after changing .env."
    case AccessDenied => "Access denied."
    case OAuthSignin => "Google sign-in failed. Add the missing variables below to a .env file in the project root (copy from .env.example), then restart the dev server. Get Google credentials at https://console.cloud.google.com/apis/credentials and set the redirect URI to http://localhost:3000/api/auth/callback/google"
    case OAuthCallback => "Error in sign-in callback. Ensure the redirect URI in Google Console is exactly: http://localhost:3000/api/auth/callback/google"
    case OAuthCreateAccount => "Could not create account."
    case OAuthAccountNotLinked => "This email is already linked to another sign-in method."
    case SessionRequired => "Please sign in."
  }

  const UnknownPrefix := "Sign-in error: "

  /** The own entry a code names, if any. */
  function ParseCode(code: string): (r: Option<KnownCode>)
    ensures r.Some? ==> CodeName(r.value) == code
    ensures r.None? ==> forall c: KnownCode :: CodeName(c) != code
  {
    if code == "Configuration" then Some(Configuration)
    else if code == "AccessDenied" then Some(AccessDenied)
    else if code == "OAuthSignin" then Some(OAuthSignin)
    else if code == "OAuthCallback" then Some(OAuthCallback)
    else if code == "OAuthCreateAccount" then Some(OAuthCreateAccount)
    else if code == "OAuthAccountNotLinked" then Some(OAuthAccountNotLinked)
    else if code == "SessionRequired" then Some(SessionRequired)
    else None
  }

  /** `errorMessage` with the lookup confined to the record's own entries: nothing for an absent
      or empty code, the fixed text for the seven known codes, a generic text otherwise. */
  function ErrorMessage(code: Option<string>): (r: Option<string>)
    ensures r.None? <==> code.None? || code.value == []
    ensures r.Some? && ParseCode(code.value).Some? ==> r.value == Message(ParseCode(code.value).value)
    ensures r.Some? && ParseCode(code.value).None? ==> r.value == UnknownPrefix + code.value
  {
    if code.None? || code.value == [] then None
    else match ParseCode(code.value)
      case Some(c) => Some(Message(c))
      case None => Some(UnknownPrefix + code.value)
  }

  /** Each known code is read back as itself. */
  lemma ParseCodeName(c: KnownCode)
    ensures ParseCode(CodeName(c)) == Some(c)
  {
    match c
    case Configuration =>
    case AccessDenied =>
    case OAuthSignin =>
    case OAuthCallback =>
    case OAuthCreateAccount =>
    case OAuthAccountNotLinked =>
    case SessionRequired =>
  }

  /** Each known code gets its own fixed text. */
  lemma KnownCodes(c: KnownCode)
    ensures ErrorMessage(Some(CodeName(c))) == Some(Message(c))
  {
    ParseCodeName(c);
  }

  lemma AccessDeniedText()
    ensures ErrorMessage(Some("AccessDenied")) == Some("Access denied.")
  {
    KnownCodes(AccessDenied);
  }

  /** An unknown code is echoed after the generic prefix, so different unknown codes give
      different texts. */
  lemma UnknownCodesDistinct(a: string, b: string)
    requires a != [] && b != [] && ParseCode(a).None? && ParseCode(b).None?
    ensures ErrorMessage(Some(a)) == ErrorMessage(Some(b)) <==> a == b
  {
    if ErrorMessage(Some(a)) == ErrorMessage(Some(b)) {
      assert (UnknownPrefix + a)[|UnknownPrefix|..] == a;
      assert (UnknownPrefix + b)[|UnknownPrefix|..] == b;
    }
  }

  // ---------------------------------------------------------------- as written

  /** The names every plain object inherits from `Object.prototype`. */
  const InheritedNames: seq<string> := [
    "constructor", "hasOwnProperty", "isPrototypeOf", "propertyIsEnumerable", "toLocaleString",
    "toString", "valueOf", "__proto__", "__defineGetter__", "__defineSetter__",
    "__lookupGetter__", "__lookupSetter__"]

  /** What `messages[code]` yields on the object literal: an own text, an inherited member (a
      function, or the prototype object itself), or `undefined`. */
  datatype Lookup = OwnText(text: string) | InheritedMember | Undefined

  function LookupAsWritten(code: string): (r: Lookup)
    ensures r.OwnText? <==> ParseCode(code).Some?
    ensures r.InheritedMember? <==> ParseCode(code).None? && code in InheritedNames
  {
    match ParseCode(code)
    case Some(c) => OwnText(Message(c))
    case None => if code in InheritedNames then InheritedMember else Undefined
  }

  /** What the page receives: a text, or a value that is not a string at all. */
  datatype Shown = Text(text: string) | NotAString

  /** `errorMessage` as written: `??` only replaces `null` and `undefined`, so an inherited member
      comes back in place of a message. */
  function ErrorMessageAsWritten(code: Option<string>): (r: Option<Shown>)
    ensures r.None? <==> ErrorMessage(code).None?
    ensures r.Some? && r.value.Text? ==> r.value.text == ErrorMessage(code).value
    ensures r == Some(NotAString) <==> code.Some? && ParseCode(code.value).None? && code.value in InheritedNames
  {
    if code.None? || code.value == [] then None
    else match LookupAsWritten(code.value)
      case OwnText(text) => Some(Text(text))
      case InheritedMember => Some(NotAString)
      case Undefined => Some(Text(UnknownPrefix + code.value))
  }

  /** The code `constructor` makes the page receive a function instead of a message. */
  lemma ConstructorIsNotAMessage()
    ensures ErrorMessageAsWritten(Some("constructor")) == Some(NotAString)
    ensures ErrorMessage(Some("constructor")) == Some(UnknownPrefix + "constructor")
  {
    assert InheritedNames[0] == "constructor";
  }
}
