/** The form handlers for accounts (backend/src/user_handlers.rs): register,
    login and logout, with the session cookie they issue. Password hashing,
    token signing, the clock and the SALT variable are inputs. */
module UserHandlers {

  import opened Lib
  import opened Errors
  import opened Http
  import opened UserModel
  import opened Db

  /** The `argon2` crate, uninterpreted: `hashEncoded(password, salt)` with the
      default config, and `verifyEncoded(encodedHash, password)`. An `Err` of
      either is `None`. */
  datatype Crypto = Crypto(
    hashEncoded: (string, string) -> Option<string>,
    verifyEncoded: (string, string) -> Option<bool>)

  /** What the library promises: a password verifies against its own hash. */
  ghost predicate VerifiesWhatItHashes(crypto: Crypto) {
    forall password: string, salt: string ::
      crypto.hashEncoded(password, salt).Some? ==>
        crypto.verifyEncoded(crypto.hashEncoded(password, salt).value, password) == Some(true)
  }

  const MISSING_SALT := "Missing SALT"
  const HASHING_FAILED := "Password hashing failed"
  /** The message of `unwrap()` on a rejected `HeaderValue::from_str`. */
  const INVALID_HEADER_VALUE := "called `Result::unwrap()` on an `Err` value: InvalidHeaderValue"
  const PATH_ROOT := "path=/"
  const EPOCH_HTTP_DATE := "Thu, 01 Jan 1970 00:00:00 UTC"
  const EXPIRED_AT_EPOCH := "expires=" + EPOCH_HTTP_DATE
  /** The logout cookie, written by hand with a stray ';' at the end. */
  const LOGOUT_COOKIE := SetCookieLine(SESSION_COOKIE, "", [PATH_ROOT, EXPIRED_AT_EPOCH]) + ";"

  /** The checks `register` makes before it hashes anything, in the order it
      makes them: empty fields, then a password mismatch (both
      `MissingCredentials`), then an email `get_user` already finds. `None`
      means registration goes ahead. */
  function RegisterCheck(form: UserSignup, existing: AppResult<User>): (r: Option<AppError>)
    ensures form.email == "" || form.password == "" ==> r == Some(MissingCredentials)
    ensures form.password != form.confirmPassword ==> r == Some(MissingCredentials)
    ensures r == Some(UserAlreadyExists) <==>
      form.email != "" && form.password != "" && form.password == form.confirmPassword && existing.Ok?
    ensures r.None? <==>
      form.email != "" && form.password != "" && form.password == form.confirmPassword && existing.Err?
  {
    if form.email == "" || form.password == "" then Some(MissingCredentials)
    else if form.password != form.confirmPassword then Some(MissingCredentials)
    else if existing.Ok? then Some(UserAlreadyExists)
    else None
  }

  /** The redirect to "/" that carries a session token in an http-only `jwt` cookie. */
  function SessionRedirect(cookie: string): Response {
    Response(FOUND, map[LOCATION := "/", SET_COOKIE := cookie], Empty)
  }

  /** The tail shared by `register` and `login`: claims with id 0, the email
      and an expiry eight hours after `now`, signed into a token that goes
      out as the `jwt` cookie of a 302 to "/". A clock before the epoch and a
      cookie that is not a valid header value panic; a signing failure is
      `MissingCredentials`. */
  function IssueSession(email: string, now: Time, jwt: Jwt, keys: Keys): (r: Outcome<Response>)
    ensures GetTimestampAfter8Hours(now).Panic? ==> r == Panicked(GetTimestampAfter8Hours(now).message)
    ensures r.Returned? && r.result.Err? ==> r.result.error == MissingCredentials
    ensures r.Returned? && r.result.Err? <==>
      GetTimestampAfter8Hours(now).Expiry? && jwt.encode(SessionClaims(email, now), keys.encoding).None?
    ensures r.Returned? && r.result.Ok? <==>
      && GetTimestampAfter8Hours(now).Expiry?
      && jwt.encode(SessionClaims(email, now), keys.encoding).Some?
      && HeaderValueFromStr(HttpOnlyCookie(SESSION_COOKIE, jwt.encode(SessionClaims(email, now), keys.encoding).value)).Some?
    ensures (&& GetTimestampAfter8Hours(now).Expiry?
             && jwt.encode(SessionClaims(email, now), keys.encoding).Some?
             && HeaderValueFromStr(HttpOnlyCookie(SESSION_COOKIE, jwt.encode(SessionClaims(email, now), keys.encoding).value)).None?) ==>
      r == Panicked(INVALID_HEADER_VALUE)
    ensures r.Returned? && r.result.Ok? ==>
      && GetTimestampAfter8Hours(now).Expiry?
      && jwt.encode(SessionClaims(email, now), keys.encoding).Some?
      && r.result.value == SessionRedirect(HttpOnlyCookie(SESSION_COOKIE, jwt.encode(SessionClaims(email, now), keys.encoding).value))
  {
    match GetTimestampAfter8Hours(now)
    case Panic(message) => Panicked(message)
    case Expiry(exp) =>
      var claims := Claims(0, email, exp);
      match jwt.encode(claims, keys.encoding)
      case None => Returned(Err(MissingCredentials))
      case Some(token) =>
        var cookie := HttpOnlyCookie(SESSION_COOKIE, token);
        match HeaderValueFromStr(cookie)
        case None => Panicked(INVALID_HEADER_VALUE)
        case Some(value) => Returned(Ok(SessionRedirect(value)))
  }

  /** The claims a session started at `now` carries. */
  function SessionClaims(email: string, now: Time): (c: Claims)
    requires GetTimestampAfter8Hours(now).Expiry?
    ensures c.id == 0 && c.email == email && c.exp == now.tvSec + EIGHT_HOURS_SECS
  {
    Claims(0, email, GetTimestampAfter8Hours(now).secs)
  }

  /** A session cookie a browser reads back as the http-only `jwt` cookie
      holding the token, whenever the token has no ';' in it. */
  lemma SessionCookieCarriesToken(email: string, now: Time, jwt: Jwt, keys: Keys)
    requires IssueSession(email, now, jwt, keys).Returned?
    requires IssueSession(email, now, jwt, keys).result.Ok?
    requires ';' !in jwt.encode(SessionClaims(email, now), keys.encoding).value
    ensures var response := IssueSession(email, now, jwt, keys).result.value;
      && response.status == FOUND
      && response.headers[LOCATION] == "/"
      && CookiePair(response.headers[SET_COOKIE]) == (SESSION_COOKIE, jwt.encode(SessionClaims(email, now), keys.encoding).value)
      && CookieAttributes(response.headers[SET_COOKIE]) == [HTTP_ONLY]
  {
    CookiePairOfHttpOnlyCookie(SESSION_COOKIE, jwt.encode(SessionClaims(email, now), keys.encoding).value);
  }

  /** A session round trip: when the keys come from one secret, the next
      request arrives within the eight hours, the token library decodes the
      unexpired tokens it signs, and that request's cookie parses to the
      issued `jwt` cookie, the `Claims` extractor recovers exactly the claims
      that were signed. */
  lemma SessionRoundTrip(email: string, now: Time, jwt: Jwt, secret: seq<u8>, parts: RequestParts, parse: string -> Option<Cookie>, requestSecs: int)
    requires GetTimestampAfter8Hours(now).Expiry?
    requires requestSecs < now.tvSec + EIGHT_HOURS_SECS
    requires DecodesUnexpired(jwt, requestSecs)
    requires jwt.encode(SessionClaims(email, now), NewKeys(secret).encoding).Some?
    requires ParsedCookie(parts, parse) == Some(Cookie(SESSION_COOKIE, jwt.encode(SessionClaims(email, now), NewKeys(secret).encoding).value))
    ensures ExtractClaims(parts, parse, jwt, NewKeys(secret)) == Ok(Claims(0, email, now.tvSec + EIGHT_HOURS_SECS))
    ensures OptionalClaims(parts, parse, jwt, NewKeys(secret)) == Some(Claims(0, email, now.tvSec + EIGHT_HOURS_SECS))
  {
    var c := SessionClaims(email, now);
    assert jwt.encode(c, EncodingKey(secret)).Some?;
    OptionalClaimsAgreesWithClaims(parts, parse, jwt, NewKeys(secret), c);
  }

  /** Whether hashing and the INSERT both go ahead once the checks pass: SALT
      is set, the password hashes, and users_id_seq has a value left. */
  predicate StoresUser(form: UserSignup, salt: Option<string>, crypto: Crypto, userSeq: int) {
    salt.Some? && crypto.hashEncoded(form.password, salt.value).Some? && userSeq <= I32_MAX
  }

  /** The row registration stores: the hash in place of the password, not banned. */
  function StoredRow(form: UserSignup, salt: Option<string>, crypto: Crypto, userSeq: int): (row: UserRow)
    requires StoresUser(form, salt, crypto, userSeq) && userSeq >= 1
    ensures row.email == form.email && !row.isBanned
    ensures row.password == crypto.hashEncoded(form.password, salt.value).value
  {
    UserRow(userSeq, form.email, crypto.hashEncoded(form.password, salt.value).value, false)
  }

  /** How registration fails after its checks pass when it stores nothing. */
  function StoreFailure<T>(form: UserSignup, salt: Option<string>, crypto: Crypto): Outcome<T> {
    if salt.None? then Panicked(MISSING_SALT)
    else if crypto.hashEncoded(form.password, salt.value).None? then Returned(Err(Any(HASHING_FAILED)))
    else Returned(Err(InternalServerError))
  }

  /** Lines 38-54 (and 79-95 of handlers.rs): read SALT (missing: panic), hash
      the password (failure: `Any`), and store the user under the hash; the
      INSERT fails only when users_id_seq is exhausted. */
  method CreateHashedUser(store: Store, form: UserSignup, salt: Option<string>, crypto: Crypto)
    returns (r: Outcome<map<string, string>>)
    requires store.Valid()
    modifies store
    ensures store.Valid()
    ensures r.Returned? && r.result.Ok? <==> StoresUser(form, salt, crypto, old(store.userSeq))
    ensures !StoresUser(form, salt, crypto, old(store.userSeq)) ==>
      r == StoreFailure(form, salt, crypto) && unchanged(store)
    ensures StoresUser(form, salt, crypto, old(store.userSeq)) ==>
      && r == Returned(Ok(map["message" := USER_CREATED]))
      && store.users == old(store.users) + [StoredRow(form, salt, crypto, old(store.userSeq))]
      && store.userSeq == old(store.userSeq) + 1
    ensures store.admins == old(store.admins) && store.posts == old(store.posts) && store.votes == old(store.votes)
    ensures store.postSeq == old(store.postSeq) && store.voteSeq == old(store.voteSeq)
  {
    if salt.None? {
      return Panicked(MISSING_SALT);
    }
    var hashed := crypto.hashEncoded(form.password, salt.value);
    if hashed.None? {
      return Returned(Err(Any(HASHING_FAILED)));
    }
    var credentials := form.(password := hashed.value);
    var created := store.CreateUser(credentials);
    r := Returned(created);
  }

  /** A row appended under an email no row has keeps emails unique. */
  lemma FreshEmailKeepsUnique(users: seq<UserRow>, row: UserRow)
    requires forall i :: 0 <= i < |users| ==> users[i].email != row.email
    ensures UniqueEmails(users) ==> UniqueEmails(users + [row])
  {
    if !UniqueEmails(users) {
      return;
    }
    var after := users + [row];
    forall i, j | 0 <= i < j < |after| ensures after[i].email != after[j].email {
      assert after[i] == users[i];
      if j < |users| {
        assert after[j] == users[j];
      }
    }
  }

  /** `register` (form version). Every rejection leaves the store as it was;
      a successful registration stores the hash of the password (never the
      password itself), which `get_user` then finds, and starts a session.
      Registration only adds an email no row has, so it keeps emails unique. */
  method Register(store: Store, form: UserSignup, salt: Option<string>, crypto: Crypto, now: Time, jwt: Jwt, keys: Keys)
    returns (r: Outcome<Response>)
    requires store.Valid()
    modifies store
    ensures store.Valid()
    ensures RegisterCheck(form, old(store.GetUser(form.email))).Some? ==>
      r == Returned(Err(RegisterCheck(form, old(store.GetUser(form.email))).value)) && unchanged(store)
    ensures RegisterCheck(form, old(store.GetUser(form.email))).None? && !StoresUser(form, salt, crypto, old(store.userSeq)) ==>
      r == StoreFailure(form, salt, crypto) && unchanged(store)
    ensures RegisterCheck(form, old(store.GetUser(form.email))).None? && StoresUser(form, salt, crypto, old(store.userSeq)) ==>
      && store.users == old(store.users) + [StoredRow(form, salt, crypto, old(store.userSeq))]
      && store.GetUser(form.email) == Ok(User(form.email, crypto.hashEncoded(form.password, salt.value).value))
      && r == IssueSession(form.email, now, jwt, keys)
    ensures UniqueEmails(old(store.users)) ==> UniqueEmails(store.users)
    ensures store.admins == old(store.admins) && store.posts == old(store.posts) && store.votes == old(store.votes)
    ensures store.userSeq == old(store.userSeq) +
      if RegisterCheck(form, old(store.GetUser(form.email))).None? && StoresUser(form, salt, crypto, old(store.userSeq)) then 1 else 0
    ensures store.postSeq == old(store.postSeq) && store.voteSeq == old(store.voteSeq)
  {
    var check := RegisterCheck(form, store.GetUser(form.email));
    if check.Some? {
      return Returned(Err(check.value));
    }
    ghost var before := store.users;
    ghost var stores := StoresUser(form, salt, crypto, store.userSeq);
    assert !store.HasUser(form.email);
    var created := CreateHashedUser(store, form, salt, crypto);
    if created.Returned? && created.result.Ok? {
      FreshEmailKeepsUnique(before, store.users[|before|]);
      RegisteredUserIsFound(store, before, form.email);
      r := IssueSession(form.email, now, jwt, keys);
    } else {
      r := match created
        case Panicked(message) => Panicked(message)
        case Returned(result) => Returned(Err(result.error));
    }
  }

  /** The row just appended under a new email is the one `get_user` finds. */
  lemma RegisteredUserIsFound(store: Store, before: seq<UserRow>, email: string)
    requires |store.users| == |before| + 1 && store.users[..|before|] == before
    requires store.users[|before|].email == email
    requires forall i :: 0 <= i < |before| ==> before[i].email != email
    ensures store.GetUser(email) == Ok(User(email, store.users[|before|].password))
  {
    assert forall i :: 0 <= i < |before| ==> store.users[i] == before[i];
  }

  /** A user who registered with a password can log in with it: whatever the
      store holds, once `get_user` finds the hash of the password and the
      hashing library verifies what it hashes, `login` starts a session for
      that email. */
  lemma RegisteredUserCanLogIn(store: Store, email: string, password: string, salt: string,
                               crypto: Crypto, now: Time, jwt: Jwt, keys: Keys)
    requires VerifiesWhatItHashes(crypto)
    requires email != "" && password != ""
    requires crypto.hashEncoded(password, salt).Some?
    requires store.GetUser(email) == Ok(User(email, crypto.hashEncoded(password, salt).value))
    ensures Login(store, User(email, password), now, crypto, jwt, keys) == IssueSession(email, now, jwt, keys)
  {
  }

  /** `login`: empty fields are `MissingCredentials`; an email `get_user`
      does not find propagates its `Database` error; a hash the library cannot
      read is `InternalServerError`; a password that does not verify is
      `InvalidPassword`; a verified password starts a session. */
  function Login(store: Store, creds: User, now: Time, crypto: Crypto, jwt: Jwt, keys: Keys): (r: Outcome<Response>)
    reads store
    ensures creds.email == "" || creds.password == "" ==> r == Returned(Err(MissingCredentials))
    ensures creds.email != "" && creds.password != "" && !store.HasUser(creds.email) ==>
      r == Returned(Err(Database(RowNotFound)))
    ensures creds.email != "" && creds.password != "" && store.GetUser(creds.email).Ok? ==>
      var verified := crypto.verifyEncoded(store.GetUser(creds.email).value.password, creds.password);
      && (verified.None? ==> r == Returned(Err(InternalServerError)))
      && (verified == Some(false) ==> r == Returned(Err(InvalidPassword)))
      && (verified == Some(true) ==> r == IssueSession(creds.email, now, jwt, keys))
    ensures r.Returned? && r.result.Ok? ==>
      && creds.email != "" && creds.password != ""
      && store.GetUser(creds.email).Ok?
      && crypto.verifyEncoded(store.GetUser(creds.email).value.password, creds.password) == Some(true)
      && r.result.value.headers[LOCATION] == "/"
  {
    if creds.email == "" || creds.password == "" then Returned(Err(MissingCredentials))
    else
      match store.GetUser(creds.email)
      case Err(e) => Returned(Err(e))
      case Ok(existing) =>
        match crypto.verifyEncoded(existing.password, creds.password)
        case None => Returned(Err(InternalServerError))
        case Some(false) => Returned(Err(InvalidPassword))
        case Some(true) => IssueSession(creds.email, now, jwt, keys)
  }

  /** `logout`: a 302 to "/" that overwrites the `jwt` cookie with an empty
      value that expired at the epoch, so the browser drops the session. */
  function Logout(): (r: AppResult<Response>)
    ensures r.Ok? && r.value.status == FOUND && r.value.body == Empty
    ensures r.value.headers.Keys == {LOCATION, SET_COOKIE} && r.value.headers[LOCATION] == "/"
    ensures CookiePair(r.value.headers[SET_COOKIE]) == (SESSION_COOKIE, "")
    ensures CookieAttributes(r.value.headers[SET_COOKIE]) == [PATH_ROOT, EXPIRED_AT_EPOCH]
  {
    assert IsAttribute(PATH_ROOT) && IsAttribute(EXPIRED_AT_EPOCH);
    CookieLineRoundTrip(SESSION_COOKIE, "", [PATH_ROOT, EXPIRED_AT_EPOCH], ";");
    Ok(Response(FOUND, map[SET_COOKIE := LOGOUT_COOKIE][LOCATION := "/"], Empty))
  }
}
