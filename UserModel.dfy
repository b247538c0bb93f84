/** User records, session claims, signing keys and the two request extractors
    that recover the caller's identity from the `jwt` cookie
    (backend/src/models/user.rs). */
module UserModel {

  import opened Lib
  import opened Errors
  import opened Http

  /** Login form; also the row shape `get_user` reads (`password` is the stored hash). */
  datatype User = User(email: string, password: string)

  /** Registration form. */
  datatype UserSignup = UserSignup(email: string, password: string, confirmPassword: string)

  /** The identity carried in a session token: `id` is never filled from the
      store, `exp` is seconds since the epoch. */
  datatype Claims = Claims(id: i32, email: string, exp: u64)

  // ---------------------------------------------------------------------------
  // Keys and the token library

  /** HMAC keys as `EncodingKey::from_secret` / `DecodingKey::from_secret` hold them. */
  datatype EncodingKey = EncodingKey(secret: seq<u8>)
  datatype DecodingKey = DecodingKey(secret: seq<u8>)
  datatype Keys = Keys(encoding: EncodingKey, decoding: DecodingKey)

  /** `Keys::new`: the signing key and the verifying key come from one secret,
      so what one signs the other accepts. */
  function NewKeys(secret: seq<u8>): (k: Keys)
    ensures k.encoding.secret == secret
    ensures k.decoding.secret == k.encoding.secret
  {
    Keys(EncodingKey(secret), DecodingKey(secret))
  }

  /** The `jsonwebtoken` crate, uninterpreted: `encode` with the default
      header, `decode` with the default validation (signature and expiry). An
      `Err` of either is `None`. A `Jwt` value is the library as it behaves
      while one request is handled, so `decode` has already read the clock. */
  datatype Jwt = Jwt(
    encode: (Claims, EncodingKey) -> Option<string>,
    decode: (string, DecodingKey) -> Option<Claims>)

  /** `Validation::default()` accepts an `exp` up to this many seconds past. */
  const JWT_LEEWAY_SECS: nat := 60

  /** What the library promises while a request is handled at `requestSecs`
      (seconds since the epoch): a token it signed whose claims have not
      expired yet decodes, with the key made from the signing secret, back to
      those claims. */
  ghost predicate DecodesUnexpired(jwt: Jwt, requestSecs: int) {
    forall c: Claims, secret: seq<u8> ::
      requestSecs < c.exp && jwt.encode(c, EncodingKey(secret)).Some? ==>
        jwt.decode(jwt.encode(c, EncodingKey(secret)).value, DecodingKey(secret)) == Some(c)
  }

  /** The expiry check of `Validation::default()` at `requestSecs`: whatever
      decodes has an `exp` no more than the leeway in the past. */
  ghost predicate RejectsExpired(jwt: Jwt, requestSecs: int) {
    forall token: string, key: DecodingKey ::
      jwt.decode(token, key).Some? ==> requestSecs <= jwt.decode(token, key).value.exp + JWT_LEEWAY_SECS
  }

  // ---------------------------------------------------------------------------
  // Extractors

  /** A cookie as `cookie::Cookie::parse` returns it. */
  datatype Cookie = Cookie(name: string, value: string)

  /** The request parts the extractors look at: the first `cookie` header's
      bytes, if there is one. */
  datatype RequestParts = RequestParts(cookieHeader: Option<seq<u8>>)

  const SESSION_COOKIE := "jwt"

  /** The first `cookie` header, read as text (unreadable text counts as "")
      and parsed by `parse` (the `cookie` crate, uninterpreted). */
  function ParsedCookie(parts: RequestParts, parse: string -> Option<Cookie>): Option<Cookie> {
    match parts.cookieHeader
    case None => None
    case Some(h) => parse(HeaderText(h))
  }

  /** The session token: the parsed cookie's value, when it is named `jwt`. */
  function SessionToken(parts: RequestParts, parse: string -> Option<Cookie>): Option<string> {
    match ParsedCookie(parts, parse)
    case None => None
    case Some(cookie) => if cookie.name == SESSION_COOKIE then Some(cookie.value) else None
  }

  /** `impl FromRequestParts for Claims`: the required identity. Every failure
      (no header, a cookie that does not parse, a cookie not named `jwt`, a
      token that does not decode) is `InvalidToken`; success gives exactly the
      decoded claims. */
  function ExtractClaims(parts: RequestParts, parse: string -> Option<Cookie>, jwt: Jwt, keys: Keys): (r: AppResult<Claims>)
    ensures r.Err? ==> r.error == InvalidToken
    ensures parts.cookieHeader.None? ==> r.Err?
    ensures ParsedCookie(parts, parse).None? ==> r.Err?
    ensures ParsedCookie(parts, parse).Some? && ParsedCookie(parts, parse).value.name != SESSION_COOKIE ==> r.Err?
    ensures r.Ok? <==> SessionToken(parts, parse).Some? && jwt.decode(SessionToken(parts, parse).value, keys.decoding).Some?
    ensures r.Ok? ==> Some(r.value) == jwt.decode(SessionToken(parts, parse).value, keys.decoding)
  {
    match SessionToken(parts, parse)
    case None => Err(InvalidToken)
    case Some(token) =>
      match jwt.decode(token, keys.decoding)
      case None => Err(InvalidToken)
      case Some(claims) => Ok(claims)
  }

  /** `impl FromRequestParts for OptionalClaims`: the optional identity; it
      never rejects the request. */
  function OptionalClaims(parts: RequestParts, parse: string -> Option<Cookie>, jwt: Jwt, keys: Keys): Option<Claims> {
    var token := SessionToken(parts, parse);
    if token.Some? && jwt.decode(token.value, keys.decoding).Some?
    then jwt.decode(token.value, keys.decoding)
    else None
  }

  /** The optional extractor sees an identity exactly when the required one
      accepts the same request, and then the same identity; it sees none
      exactly when the required one rejects. */
  lemma OptionalClaimsAgreesWithClaims(parts: RequestParts, parse: string -> Option<Cookie>, jwt: Jwt, keys: Keys, c: Claims)
    ensures OptionalClaims(parts, parse, jwt, keys) == Some(c) <==> ExtractClaims(parts, parse, jwt, keys) == Ok(c)
    ensures OptionalClaims(parts, parse, jwt, keys).None? <==> ExtractClaims(parts, parse, jwt, keys).Err?
  {
  }

  /** A session does not outlive its expiry: with the library's expiry check
      in force, the `Claims` extractor only accepts claims whose `exp` is at
      most the leeway in the past. */
  lemma ExtractedClaimsAreUnexpired(parts: RequestParts, parse: string -> Option<Cookie>, jwt: Jwt, keys: Keys, requestSecs: int)
    requires RejectsExpired(jwt, requestSecs)
    ensures ExtractClaims(parts, parse, jwt, keys).Ok? ==>
      requestSecs <= ExtractClaims(parts, parse, jwt, keys).value.exp + JWT_LEEWAY_SECS
  {
  }
}
