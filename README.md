# AstroLocker backend: a Dafny model of the store, the accounts and the sessions

AstroLocker's backend serves NASA "astronomy picture of the day" posts that
users can vote on. This project models its core:

- the `Store` (backend/src/db.rs) as a class over four in-memory tables.
  The tables are users, admins, posts and votes. The users, posts and votes
  tables each have a SERIAL id counter.
- every query of the store. Readers are functions over the tables; writers are
  methods that reassign them.
- the account handlers: form `register`, `login` and `logout`; the JSON
  `register`; the landing page's template choice; and the `protected` greeting.
- the two request extractors that recover a session from the `jwt` cookie.
- the error-to-HTTP mapping, the 8-hour expiry timestamp, and the id newtypes.

Modules follow the source files:

| module | models |
|---|---|
| `Lib` | backend/src/lib.rs: integer widths, the `make_db_id!` ids, the expiry timestamp |
| `Errors` | backend/src/error.rs, plus the result shapes handlers return |
| `Http` | response, header and cookie text |
| `Records` | the post, vote and query records |
| `UserModel` | backend/src/models/user.rs |
| `Seqs` | the row-level building blocks of the tables |
| `Ranking` | the top-10 vote ranking |
| `Db` | backend/src/db.rs |
| `Format` | decimal text for `Claims`' display |
| `UserHandlers` | backend/src/user_handlers.rs |
| `Handlers` | backend/src/handlers.rs |

Several library calls become function-valued parameters:

- argon2 hashing and verification (`Crypto`);
- `jsonwebtoken` encode and decode (`Jwt`);
- the `cookie` parser;
- Tera rendering.

The clock (`now`), the SALT variable and the JWT secret are parameters too.

A handler either returns a `Result` or panics. An `expect` or `unwrap` that
fails aborts the request. The model has an explicit `Panicked` outcome for
this. It carries the text the code gives the panic. `Result::expect`
appends `: ` and the error's debug form to that text, and the model leaves
this suffix out.

## Model

| member | source | states |
|---|---|---|
| Lib.IdRoundTrip | backend/src/lib.rs:104-114 | wrapping an i32 in an id newtype and unwrapping it gives it back, both ways round |
| Lib.IntoIdAgreesWithFrom | backend/src/lib.rs:116-130 | `into_id` on an i32 is `From::from`; `into_id` on the id returns it unchanged |
| Lib.DurationSinceEpoch | backend/src/lib.rs:71-74 | the duration since the epoch exists exactly when the clock is not before 1970, and has the clock's seconds |
| Lib.GetTimestampAfter8Hours | backend/src/lib.rs:70-78 | panics ("Time somehow went backwards") exactly when the clock is before the epoch; otherwise it is the epoch seconds plus 28800, strictly later than now |
| Errors.IntoResponse | backend/src/error.rs:22-60 | 503 exactly for `Database`, with the database error's text as the message; 401 exactly for the five credential errors; 500 exactly for `Any`, `InternalServerError` and `NASAError`; 400 exactly for `InvalidDateRange`; the body is JSON whose only key is "error" |
| Errors.FromSqlx | backend/src/error.rs:63-67 | every database error becomes `Database` carrying that error, answered with 503 and the error's text |
| Http.CookiePairOfHttpOnlyCookie | backend/src/user_handlers.rs:67 | an http-only cookie line reads back as the name and value it was built from, with `HttpOnly` as its only attribute |
| Http.CookieLineRoundTrip | backend/src/user_handlers.rs:142-145 | a Set-Cookie line, with or without a stray ';' at the end, reads back as the name, the value and every attribute it was written with |
| UserModel.NewKeys | backend/src/models/user.rs:113-120 | the encoding key and the decoding key come from the same secret |
| UserModel.ExtractClaims | backend/src/models/user.rs:46-72 | every failure is `InvalidToken`: no cookie header, a cookie that does not parse, a cookie not named `jwt`, a token that does not decode; success is exactly when a `jwt` token decodes, and then yields exactly the decoded claims |
| UserModel.OptionalClaimsAgreesWithClaims | backend/src/models/user.rs:77-106 | the optional extractor never rejects; it yields `Some(c)` exactly when the required extractor yields `c` on the same request, and `None` exactly when that one rejects |
| UserModel.ExtractedClaimsAreUnexpired | backend/src/models/user.rs:67-70 | with the library's default expiry check in force, the extractor accepts only claims whose `exp` is at most the 60-second leeway in the past |
| Ranking.Top | backend/src/db.rs:154-167 | the ranking is a valid answer to the GROUP BY / ORDER BY count DESC / LIMIT 10 query: distinct post ids that have votes, at most 10, in non-increasing vote count, all of them when fewer than 10 have votes, and no post left out has more votes than one kept |
| Ranking.RankingLeaderHasMostVotes | backend/src/db.rs:158 | for any valid ranking, whatever the order of ties, the first post has at least as many votes as any post |
| Ranking.RankingNonEmpty | backend/src/db.rs:158 | when any vote exists, the ranking is not empty |
| Db.Store.constructor | backend/src/db.rs:29-34 | a store over an empty database: empty tables, every sequence at 1, ids consistent |
| Db.Store.GetUser | backend/src/db.rs:37-48 | fails with `Database(RowNotFound)` exactly when no user has the email; otherwise returns that email and the password hash of a user row with it |
| Db.Store.GetUserIdByEmail | backend/src/db.rs:50-59 | fails with `Database(RowNotFound)` exactly when no user has the email; otherwise returns the id of a user with it |
| Db.Store.CreateUser | backend/src/db.rs:61-77 | appends a row with a fresh id, the given email and password and `is_banned` false, with no uniqueness check, and answers "User created successfully!"; an exhausted id sequence is `InternalServerError` with the store unchanged; a new email is then found by `get_user` and is not banned; other tables are untouched |
| Db.Store.DetermineIfUserBanned | backend/src/db.rs:79-85 | fails with `Database(RowNotFound)` exactly when no user has the email; otherwise returns the ban flag of a row with it |
| Db.Store.DetermineIfUserAdmin | backend/src/db.rs:87-105 | never fails; true exactly when an admins row holds the id of a user with that email, so an unknown email is simply false |
| Db.Store.GetAllPosts | backend/src/db.rs:108-130 | returns every post row, and each of them is what `get_post_by_id` returns for its id |
| Db.Store.SerialRowsAreFound | backend/src/db.rs:132-152 | in a consistent store `get_post_by_id` finds every stored post by its own id |
| Db.Store.GetPostById | backend/src/db.rs:132-152 | fails with `Database(RowNotFound)` exactly when no post has the id; otherwise returns a stored post with that id |
| Db.Store.GetTopPosts | backend/src/db.rs:154-167 | never fails; the result is a valid top-10 ranking over the votes table's post_id column |
| Db.Store.AddPost | backend/src/db.rs:169-195 | appends and returns a post with a fresh id, distinct from every existing id, and exactly the five given columns; afterwards the cache check for its query string is true and `get_post_by_id` on the new id returns it; an exhausted sequence is a database error with the store unchanged |
| Db.Store.DeletePostById | backend/src/db.rs:197-209 | always `Ok`; exactly the posts with that id are removed, so `get_post_by_id` then fails; votes and other tables are untouched |
| Db.Store.UpdatePostById | backend/src/db.rs:211-247 | overwrites all five columns of the rows with that id and leaves every other row unchanged; returns the new row, or `Database(RowNotFound)` exactly when no post had that id |
| Db.Store.UpdatePostRows | backend/src/db.rs:212-226 | the UPDATE: every row with the id becomes the new row, every other row stays, the ids present stay the same and the id column stays serial |
| Db.Store.GetPostByQueryString | backend/src/db.rs:249-269 | fails with `Database(RowNotFound)` exactly when no post has the query string; otherwise returns a stored post with it |
| Db.Store.CheckCacheByQueryString | backend/src/db.rs:271-290 | never fails; false exactly when no post has the query string, and true exactly when `get_post_by_query_string` succeeds |
| Db.Store.GetUserPostsById | backend/src/db.rs:292-318 | the posts returned are exactly the stored posts the user has a vote on, each under its own id; each post comes back once per vote the user cast on it (times the rows that hold it) |
| Db.UserPosts | backend/src/db.rs:292-318 | the joined posts are exactly the stored posts that have a vote by the user |
| Db.UserPostsCounts | backend/src/db.rs:294-301 | the join yields a post as many times as it is stored times the number of the user's votes on it |
| Db.UserPostsAsWritten | backend/src/db.rs:305-315 | one post per joined row, as many as the corrected join; each returned post is a stored post the user voted for, carrying the id of that vote, and every such (post, vote) pair yields one |
| Db.UserPostsAsWrittenAgreesExactlyWhen | backend/src/db.rs:305-315 | for all tables, the source's answer equals the corrected one exactly when every vote it joins has the same number as its post |
| Db.UserPostsAsWrittenMislabelsIds | backend/src/db.rs:292-318 | one vote (id 2) on post 1 yields a post numbered 2 rather than post 1 |
| Db.Store.DetermineIfUserLikedPost | backend/src/db.rs:320-340 | never fails; true exactly when a vote row has that user and that post |
| Db.Store.CreateVote | backend/src/db.rs:343-362 | always inserts, with no duplicate check, a vote with a fresh id and the given post and user, and returns it; the "liked" check is then true and the post's vote count is one higher; an exhausted sequence is a database error with the store unchanged |
| Db.Store.DeleteVote | backend/src/db.rs:364-376 | always `Ok`; removes exactly the votes of that user on that post, so the "liked" check is then false |
| Db.Store.GetNumberOfVotesForPost | backend/src/db.rs:378-396 | never fails; in a consistent store it is the post's number of votes when the post exists and 0 when it does not |
| Db.Store.PostIdsAreKeys | backend/src/db.rs:381-383 | in a consistent store the join with posts matches at most one post row per id |
| Db.Store.SetBannedByEmail | backend/src/db.rs:399-427 | sets the ban flag on every user with the email and changes nothing else; the ban check then reports the new flag, or still fails for an unknown email |
| Db.Store.BanUserByEmail | backend/src/db.rs:399-412 | always `Ok`; every user with the email is banned, nothing else changes, and an unknown email is not an error |
| Db.Store.UnbanUserByEmail | backend/src/db.rs:414-427 | always `Ok`; every user with the email is unbanned, nothing else changes, and an unknown email is not an error |
| Db.Store.PromoteAdminByEmail | backend/src/db.rs:429-456 | an unknown email is `Database(RowNotFound)` with the store unchanged; otherwise an admins row for the user's id is appended unconditionally, so duplicates are possible, and the admin check is then true |
| Db.Store.DemoteAdminByEmail | backend/src/db.rs:458-482 | an unknown email is `Database(RowNotFound)` with the store unchanged; otherwise every admins row for the user's id is removed, so with unique emails the admin check is then false however often the user was promoted |
| UserHandlers.RegisterCheck | backend/src/user_handlers.rs:21-34 | empty email or password, then a password mismatch, give `MissingCredentials`; `UserAlreadyExists` exactly when those pass and `get_user` finds the email; registration goes ahead exactly when `get_user` fails |
| UserHandlers.SessionClaims | backend/src/user_handlers.rs:58-62 | session claims carry id 0, the submitted email and an expiry 28800 seconds after now |
| UserHandlers.IssueSession | backend/src/user_handlers.rs:58-82 | a clock before the epoch panics; a signing failure is `MissingCredentials` and nothing else is; a cookie that is not a valid header value panics; success happens exactly when none of these does, and is a 302 to "/" whose Set-Cookie is the http-only `jwt` cookie holding the signed token |
| UserHandlers.SessionCookieCarriesToken | backend/src/user_handlers.rs:67-80 | the issued response is a 302 to "/" and its cookie reads back as `jwt` = the signed token, with the `HttpOnly` attribute |
| UserHandlers.SessionRoundTrip | backend/src/user_handlers.rs:58-67 | with keys from one secret, a next request within the eight hours, and a token library that decodes the unexpired tokens it signs, a request carrying the issued cookie is accepted by both extractors with exactly the claims that were signed |
| UserHandlers.StoredRow | backend/src/user_handlers.rs:52-54 | the stored row holds the hash of the password, not the password, and is not banned |
| UserHandlers.CreateHashedUser | backend/src/user_handlers.rs:38-54 | a missing SALT panics; a hashing failure is `Any("Password hashing failed")`; both leave the store unchanged; otherwise the user is stored under the hash |
| UserHandlers.Register | backend/src/user_handlers.rs:16-83 | every rejection by the checks leaves the store unchanged; a successful run appends exactly one row with the password's hash, which `get_user` then finds, and issues the session; only users_id_seq advances, by one exactly on success; emails stay unique; other tables are untouched |
| UserHandlers.RegisteredUserCanLogIn | backend/src/user_handlers.rs:93-105 | when `get_user` finds the hash of a password and the hashing library verifies what it hashes, `login` with that password issues the session |
| UserHandlers.Login | backend/src/user_handlers.rs:85-134 | empty fields give `MissingCredentials`; an unknown email gives `get_user`'s `Database(RowNotFound)`; an unreadable hash gives `InternalServerError`; a wrong password gives `InvalidPassword`; a session is issued only after the password verified against the stored hash |
| UserHandlers.Logout | backend/src/user_handlers.rs:137-150 | always a 302 to "/" with only Location and Set-Cookie headers; the cookie reads back as `jwt` with an empty value and the attributes `path=/` and `expires=Thu, 01 Jan 1970 00:00:00 UTC`, so the browser drops the session |
| Handlers.RootView | backend/src/handlers.rs:27-44 | with claims, "pages.html" with `is_logged_in` true and the claims in the context; without, "index.html" with `is_logged_in` false and no claims |
| Handlers.Root | backend/src/handlers.rs:23-53 | renders the view for the optional identity and panics exactly when rendering fails; the store is not consulted |
| Handlers.RootLoggedInExactlyWithSession | backend/src/handlers.rs:25-44 | the logged-in template is chosen exactly for the requests the `Claims` extractor accepts, and the context holds the claims it extracts |
| Handlers.RegisterJson | backend/src/handlers.rs:56-97 | the same checks as the form `register`, each rejection leaving the store unchanged; on success the password's hash is stored and `create_user`'s message is returned, with no session; only users_id_seq advances, by one exactly on success |
| Handlers.Protected | backend/src/handlers.rs:150-155 | always `Ok`; the greeting followed by the claims' display text |
| Handlers.ClaimsTextShowsId | backend/src/models/user.rs:38 | the display text of the claims leads with the id, which reads back as that number |
| Handlers.ProtectedRequest | backend/src/handlers.rs:150-155 | the protected route rejects with `InvalidToken` (401) exactly when the `Claims` extractor rejects, and otherwise greets with exactly the extracted claims |
| Format.DecimalRoundTrip | backend/src/models/user.rs:38 | the decimal digits of a number read back as that number |
| Format.SignedRoundTrip | backend/src/models/user.rs:38 | a signed decimal (as `{}` writes an i32) reads back as that number |

## Left out

- The connection pool, `new_pool`, `run_backend`, `get_host_from_env`, `init_logging`, the logging calls and the `println!` of the cache check: I/O. The `posts` vector inside `Store` is never read and is not modelled.
- The database schema is not part of this model. No unique or foreign-key constraint is assumed, so two users may share an email unless registration kept them apart; `UniqueEmails` states when they are.
- Database failures other than "no rows" and an exhausted SERIAL sequence (connection loss, constraint violations) are not modelled. The `unwrap` on `delete_post_by_id`'s DELETE therefore never panics in the model.
- Row order: tables keep insertion order, and `fetch_one` with several matches returns the first in that order. SQL leaves the order open. Under `Valid()` ids are unique, so lookups by id do not depend on it.
- Db.Store.GetTopPosts: the model computes one of the orders the query may return; every order is characterised by `Ranking.IsTopRanking`.
- Db.Store.GetNumberOfVotesForPost: the i64 count is an unbounded integer. A count cannot exceed the number of vote rows.
- Concurrency between requests, including the duplicate-vote and cache-fill races: the model is sequential.
- argon2, `jsonwebtoken` (including its expiry check against the clock), the `cookie` crate's parser and Tera are uninterpreted parameters. The model assumes the `cookie` crate writes an http-only cookie as `name=value; HttpOnly`.
- Environment variables are parameters: SALT becomes `salt`, and JWT_SECRET becomes the `Keys` a caller builds with `NewKeys`. The `MISSING JWT SECRET!` panic of the lazy `KEYS` static is not modelled. DATABASE_URL, API_HOST and API_PORT are left out.
- JSON text: response bodies are maps of fields, not serialized JSON, and the token's JSON payload is the library's business.
- Panic texts: `Result::expect` panics with its text, then `: ` and the error's debug form. The model keeps only the text. So `Missing SALT` stands for `Missing SALT: NotPresent`, and `Time somehow went backwards` stands for that text followed by the `SystemTimeError`.
- The token library's clock: a `Jwt` value stands for the library while one request is handled, so its `decode` has already read the clock. `DecodesUnexpired` and `RejectsExpired` state what the default validation promises at that moment. The model assumes jsonwebtoken's default leeway of 60 seconds.
- Lib.GetTimestampAfter8Hours: the nanosecond carry is modelled, but the u64 overflow panic of `Duration + Duration` cannot happen from a signed 64-bit clock. It is kept only as a branch.
- `login` in backend/src/handlers.rs (lines 99-148) repeats the form `login` of backend/src/user_handlers.rs line for line, so `UserHandlers.Login` models both.
- The forwarding handlers of backend/src/handlers.rs (`get_all_posts`, `get_post_by_id`, `create_post`, `delete_post_by_id`, `update_post_by_id`, `get_user_posts_by_id`, `create_vote`) only wrap one `Store` call; the `Store` members model them.
- `delete_vote_by_id` in backend/src/handlers.rs calls a `Store` method that db.rs does not define: not modelled.
- backend/src/post_handlers.rs, vote_handlers.rs, admin_handlers.rs, routes/main_routes.rs, layers.rs, models/displaypost.rs and client/src/main.rs are not part of this model. The same goes for the APOD fetch-or-cache flow and its NASA errors.
- The records `UserEmail`, `LoggedInUser`, `GetPostById` and `GetVoteById` are not used by the core and are not modelled.

## Findings

| source | as written | input that shows it | evidently intended | confidence | as-written member | corrected member |
|---|---|---|---|---|---|---|
| backend/src/db.rs:305-315 | each `Post` takes `row.get("id")` from `SELECT *` over posts joined with votes; two columns are named "id" and sqlx's by-name lookup resolves to the last one, votes.id | user 7 has a vote with id 2 on post 1: the result is post 1's columns under id 2, naming a post that does not exist | each returned post carries posts.id | medium (depends on sqlx's handling of duplicate column names); not executed | Db.UserPostsAsWrittenMislabelsIds | Db.Store.GetUserPostsById |
