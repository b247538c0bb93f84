/** The JSON and page handlers (backend/src/handlers.rs) that hold logic of
    their own: the landing page's template choice, the JSON `register`, and
    the `protected` greeting. Its `login` is the form ladder of
    `UserHandlers.Login`, line for line. */
module Handlers {

  import opened Lib
  import opened Errors
  import opened Http
  import opened UserModel
  import opened Db
  import opened UserHandlers
  import opened Format

  // ---------------------------------------------------------------------------
  // root

  /** A value in a Tera context. */
  datatype ContextValue = Flag(flag: bool) | ClaimsValue(claims: Claims)

  /** The template a page is rendered from and the context it is given. */
  datatype View = View(template: string, context: map<string, ContextValue>)

  const LOGGED_IN_TEMPLATE := "pages.html"
  const LANDING_TEMPLATE := "index.html"
  const IS_LOGGED_IN := "is_logged_in"
  const CLAIMS := "claims"

  /** Tera's `render`, uninterpreted: `None` is a rendering error. */
  type Renderer = (string, map<string, ContextValue>) -> Option<string>

  /** The message of the bare `panic!()` on a rendering error. */
  const EXPLICIT_PANIC := "explicit panic"

  /** The landing page's view: with an identity, "pages.html" with
      `is_logged_in` true and the claims in the context; without one,
      "index.html" with `is_logged_in` false and nothing else. */
  function RootView(claims: Option<Claims>): (v: View)
    ensures v.template == LOGGED_IN_TEMPLATE <==> claims.Some?
    ensures v.template == LANDING_TEMPLATE <==> claims.None?
    ensures IS_LOGGED_IN in v.context && v.context[IS_LOGGED_IN] == Flag(claims.Some?)
    ensures CLAIMS in v.context <==> claims.Some?
    ensures claims.Some? ==> v.context[CLAIMS] == ClaimsValue(claims.value)
    ensures v.context.Keys <= {IS_LOGGED_IN, CLAIMS}
  {
    match claims
    case Some(c) => View(LOGGED_IN_TEMPLATE, map[CLAIMS := ClaimsValue(c), IS_LOGGED_IN := Flag(true)])
    case None => View(LANDING_TEMPLATE, map[IS_LOGGED_IN := Flag(false)])
  }

  /** `root`: renders the view for the optional identity; a rendering error
      panics. The store is not consulted: no ban or admin check happens here. */
  function Root(parts: RequestParts, parse: string -> Option<Cookie>, jwt: Jwt, keys: Keys, render: Renderer): (r: Outcome<string>)
    ensures var view := RootView(OptionalClaims(parts, parse, jwt, keys));
      && (r.Panicked? <==> render(view.template, view.context).None?)
      && (r.Panicked? ==> r.message == EXPLICIT_PANIC)
      && (r.Returned? ==> r.result.Ok? && Some(r.result.value) == render(view.template, view.context))
  {
    var view := RootView(OptionalClaims(parts, parse, jwt, keys));
    match render(view.template, view.context)
    case None => Panicked(EXPLICIT_PANIC)
    case Some(html) => Returned(Ok(html))
  }

  /** The landing page shows the logged-in template exactly for the requests
      the `Claims` extractor accepts, and with the claims it extracts. */
  lemma RootLoggedInExactlyWithSession(parts: RequestParts, parse: string -> Option<Cookie>, jwt: Jwt, keys: Keys)
    ensures var view := RootView(OptionalClaims(parts, parse, jwt, keys));
      && (view.template == LOGGED_IN_TEMPLATE <==> ExtractClaims(parts, parse, jwt, keys).Ok?)
      && (ExtractClaims(parts, parse, jwt, keys).Ok? ==> view.context[CLAIMS] == ClaimsValue(ExtractClaims(parts, parse, jwt, keys).value))
  {
    var r := ExtractClaims(parts, parse, jwt, keys);
    if r.Ok? {
      OptionalClaimsAgreesWithClaims(parts, parse, jwt, keys, r.value);
    } else {
      OptionalClaimsAgreesWithClaims(parts, parse, jwt, keys, Claims(0, "", 0));
    }
  }

  // ---------------------------------------------------------------------------
  // register (JSON)

  /** The JSON `register`: the same checks as the form version, then the
      hashed user is stored and `create_user`'s message is the answer; no
      session is started. */
  method RegisterJson(store: Store, form: UserSignup, salt: Option<string>, crypto: Crypto)
    returns (r: Outcome<map<string, string>>)
    requires store.Valid()
    modifies store
    ensures store.Valid()
    ensures RegisterCheck(form, old(store.GetUser(form.email))).Some? ==>
      r == Returned(Err(RegisterCheck(form, old(store.GetUser(form.email))).value)) && unchanged(store)
    ensures RegisterCheck(form, old(store.GetUser(form.email))).None? && !StoresUser(form, salt, crypto, old(store.userSeq)) ==>
      r == StoreFailure(form, salt, crypto) && unchanged(store)
    ensures RegisterCheck(form, old(store.GetUser(form.email))).None? && StoresUser(form, salt, crypto, old(store.userSeq)) ==>
      && store.users == old(store.users) + [StoredRow(form, salt, crypto, old(store.userSeq))]
      && store.GetUser(form.email) == Ok(User(form.email, crypto.hashEncoded(form.password, salt.value).value))
      && r == Returned(Ok(map["message" := USER_CREATED]))
    ensures UniqueEmails(old(store.users)) ==> UniqueEmails(store.users)
    ensures store.admins == old(store.admins) && store.posts == old(store.posts) && store.votes == old(store.votes)
    ensures store.userSeq == old(store.userSeq) +
      if RegisterCheck(form, old(store.GetUser(form.email))).None? && StoresUser(form, salt, crypto, old(store.userSeq)) then 1 else 0
    ensures store.postSeq == old(store.postSeq) && store.voteSeq == old(store.voteSeq)
  {
    var check := RegisterCheck(form, store.GetUser(form.email));
    if check.Some? {
      return Returned(Err(check.value));
    }
    ghost var before := store.users;
    ghost var stores := StoresUser(form, salt, crypto, store.userSeq);
    assert !store.HasUser(form.email);
    r := CreateHashedUser(store, form, salt, crypto);
    if r.Returned? && r.result.Ok? {
      FreshEmailKeepsUnique(before, store.users[|before|]);
      RegisteredUserIsFound(store, before, form.email);
    }
  }

  // ---------------------------------------------------------------------------
  // protected

  const PROTECTED_GREETING := "Welcome to the PROTECTED area :) \n Your claim data is: "

  /** `Claims`' `Display`: `id: {id}, email: {email}, exp: {exp}`. */
  function ClaimsText(c: Claims): string {
    "id: " + IntToDecimal(c.id) + ", email: " + c.email + ", exp: " + NatToDecimal(c.exp)
  }

  /** `protected`: greets the caller with their claims. */
  function Protected(claims: Claims): (r: AppResult<string>)
    ensures r.Ok? && |r.value| > |PROTECTED_GREETING|
    ensures r.value[..|PROTECTED_GREETING|] == PROTECTED_GREETING
    ensures r.value[|PROTECTED_GREETING|..] == ClaimsText(claims)
  {
    Ok(PROTECTED_GREETING + ClaimsText(claims))
  }

  /** The claims text leads with the id, which reads back as the number it
      shows, up to the first ','. */
  lemma ClaimsTextShowsId(c: Claims)
    ensures var fields := ClaimsText(c)[4..];
      && fields[..IndexOf(fields, ',')] == IntToDecimal(c.id)
      && SignedValue(IntToDecimal(c.id)) == c.id
  {
    var id := IntToDecimal(c.id);
    var rest := ", email: " + c.email + ", exp: " + NatToDecimal(c.exp);
    assert ClaimsText(c) == "id: " + (id + rest);
    assert ClaimsText(c)[4..] == id + rest;
    assert ',' !in id by {
      forall k | 0 <= k < |id| ensures id[k] != ',' {
        if k > 0 || c.id >= 0 {
          assert IsDigit(id[k]);
        }
      }
    }
    IndexOfStopsAtBoundary(id, rest, ',');
    assert (id + rest)[..|id|] == id;
    SignedRoundTrip(c.id);
  }

  /** A request to the protected route: the `Claims` extractor runs first, and
      its rejection (401) is the answer; an accepted request is greeted with
      exactly the extracted claims. */
  function ProtectedRequest(parts: RequestParts, parse: string -> Option<Cookie>, jwt: Jwt, keys: Keys): (r: AppResult<string>)
    ensures r.Err? <==> ExtractClaims(parts, parse, jwt, keys).Err?
    ensures r.Err? ==> r.error == InvalidToken && IntoResponse(r.error).status == UNAUTHORIZED
    ensures r.Ok? ==> r == Protected(ExtractClaims(parts, parse, jwt, keys).value)
  {
    match ExtractClaims(parts, parse, jwt, keys)
    case Err(e) => Err(e)
    case Ok(claims) => Protected(claims)
  }
}
