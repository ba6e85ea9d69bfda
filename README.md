# Verified model of the authentication routes of BackendPontoGorilla

This project models the authentication workflow in `auth.js`. That file
holds four Express handlers under `/api/auth`:
- `/register` creates an account.
- `/login` checks a password and issues a one-hour JWT.
- `/forgot` stores a random 15-minute reset token and mails a link.
- `/reset` validates such a token, stores a new password hash and deletes
  the token.

The handlers read and write two tables: `users` (id, email, password hash)
and `password_resets` (email, token, created_at, expires_at).

Here those tables are fields of a class, `Auth.AuthService`, and each
handler is a method of it. Every handler is a straight line of guards with
early replies. Each method's result is a `Reply` that carries the HTTP
status the handler sends (201, 200, 400 or 500). Each method's contract
states the reply and the exact new contents of the tables in every case.
The class invariant `TablesValid` says:
- there is at most one user per email;
- ids are distinct;
- every reset row was made by `/forgot`: a registered email, a 64-digit
  lower-case hex token, and `expires_at = created_at + 15 min`.

What the environment supplies is a parameter of each method:
- the current time, in milliseconds;
- the bcrypt salt;
- the 32 bytes from `crypto.randomBytes`;
- whether the mail transport delivered;
- which store call, if any, answers with an error (`Option<StoreError>`).
  The "no row" answer (PostgREST code PGRST116) is not an input. It follows
  from the tables themselves.

Request fields are strings. In the two handlers that guard with `!field`
(`/login`, auth.js:69, and `/reset`, auth.js:178), an absent field and an
empty one are both falsy; both are represented by the empty string.

Files:
- `wrappers.dfy` defines `Option`.
- `hex.dfy` renders the token bytes as hex, with an inverse that proves no
  information is lost.
- `credentials.dfy` holds bcrypt's hash/compare pair as an abstract `Hash`
  with `Matches`, and the JWT claim record.
- `tables.dfy` gives each PostgREST query the handlers run as a pure
  function over rows, with lemmas about it.
- `auth.dfy` has the service class, the reply function of `/reset` with its
  lemmas, and three end-to-end scenarios.

Behaviours of the code that the model keeps as written:
- Each handler treats a store lookup error differently. `/register` and
  `/login` answer 500. `/forgot` and `/reset` answer 400, the same reply as
  "not found".
- Any number of rows may match (email, token); `/reset` validates only the
  newest of them (auth.js:190-192). With rows as
  `/forgot` writes them, it is accepted exactly when some such row is still
  inside its window (`ResetReplyCases`).
- The expiry test is `now > expires_at`. A request at exactly `expires_at`
  is accepted (auth.js:203, `ExpiryIsStrict`).
- The reset row is stored before the mail is sent. It stays, and still
  works, when sending fails; the reply is then 500 (`Forgot`,
  `UndeliveredLink`).
- `/reset` does not check the answer of its final delete. If that delete
  fails, the password is still changed, the reply is still 200, and the
  token stays usable until it expires.
- A new `/forgot` does not invalidate earlier tokens for the same email.

## Model

| member | source | states |
|---|---|---|
| `Auth.Reply.Status` | auth.js:46-228 | account creation is the only 201 reply; a login token, a sent mail and a changed password are the 200 replies; a server error and a failed mail are the 500 replies; every other reply is 400 |
| `Auth.Given` | auth.js:69 | a request field passes the `!field` guard exactly when it is non-empty |
| `Hex.HexEncode` | auth.js:125 | the token has exactly two characters per random byte, all lower-case hex digits (64 for 32 bytes) |
| `Hex.DecodeEncode` | auth.js:125 | decoding a token gives back exactly the random bytes it was made from |
| `Hex.EncodeDecode` | auth.js:125 | every even-length lower-case hex string is the token of the bytes it decodes to |
| `Hex.EncodeInjective` | auth.js:125 | distinct random byte strings give distinct tokens |
| `Credentials.HashPassword` | auth.js:49 | the hash bcrypt stores for a password matches that password |
| `Credentials.MatchesOnlyItsPassword` | auth.js:94 | `bcrypt.compare` accepts the password a hash was made from and no other, whatever the salt; this is the collision-free abstraction of bcrypt, holding by definition |
| `Credentials.IssueSession` | auth.js:101 | the session claims carry the user id, `iat` is the current second and `exp` is one hour after it |
| `Tables.FindUser` | auth.js:35-39 | an email lookup returns a stored user with that email, and finds nothing exactly when no user has that email |
| `Tables.FindUserUnique` | auth.js:75-79 | with unique emails, the lookup returns the one user holding the email |
| `Tables.FindUserAppend` | auth.js:50-52 | after inserting a user under a fresh email, that email resolves to the new user and every other lookup is unchanged |
| `Tables.UniqueEmailsAppend` | auth.js:45-52 | inserting only after the duplicate check keeps at most one user per email |
| `Tables.SetPassword` | auth.js:209-212 | updating by email gives every user with that email the new hash and changes no id, no email and no other user |
| `Tables.FindUserAfterSetPassword` | auth.js:209-212 | after the update, that email's lookup carries the new hash and every other lookup is unchanged |
| `Tables.SetPasswordLookups` | auth.js:209-212 | for a registered email, the update leaves it resolving to a user with the new hash, and other emails resolve as before |
| `Tables.SetPasswordKeepsEmails` | auth.js:209-212 | the update neither adds nor removes an email, and keeps emails unique |
| `Tables.NewestMatch` | auth.js:185-192 | the reset query returns a row for exactly (email, token) with the greatest `created_at`, and nothing exactly when no row matches |
| `Tables.NewestDecidesLiveness` | auth.js:185-205 | when every row expires 15 minutes after creation, the newest matching row is unexpired exactly when some matching row is |
| `Tables.DeleteMatching` | auth.js:219-223 | the delete removes every row for (email, token) and keeps every other row with its multiplicity |
| `Tables.DeleteMatchingConsumes` | auth.js:219-223 | after the delete, no row matches the pair, and the rows left are exactly the non-matching rows |
| `Auth.AddUserKeepsValid` | auth.js:45-52 | a registration under a fresh email and the next id keeps the table invariant |
| `Auth.AddRowKeepsValid` | auth.js:121-132 | a reset row for a found user, with a 64-digit token and a 15-minute window, keeps the table invariant |
| `Auth.SetPasswordKeepsValid` | auth.js:208-212 | the password update of `/reset` keeps the table invariant |
| `Auth.DeleteKeepsValid` | auth.js:219-223 | the token delete of `/reset` keeps the table invariant |
| `Auth.ResetReply` | auth.js:178-228 | `/reset` answers 200 only on success, and only for an existing row whose `expires_at` is not before now; it answers 500 only when the password update fails |
| `Auth.ResetReplyCases` | auth.js:178-225 | `/reset` replies: 400 on a missing field; 400 on a lookup error or no row; 400 when no row is still in its window; 500 on an update error; otherwise 200. Each is an if-and-only-if |
| `Auth.ExpiryIsStrict` | auth.js:202-205 | a reset at exactly the newest row's `expires_at` succeeds; one millisecond later it is refused as expired |
| `Auth.ResetIsSingleUse` | auth.js:219-223 | once the rows for (email, token) are deleted, the same reset request is refused, at any time and whatever the store answers |
| `Auth.ResetSetsPassword` | auth.js:207-216 | after an accepted reset, the email resolves to the same user with a hash matching the new password, and no other user changes |
| `Auth.AuthService.Register` | auth.js:31-63 | lookup error: 500, no change. Existing email: 400, no change. Insert error: 500, no change. Otherwise 201, exactly one user appended with the next id and a matching hash, reset rows untouched |
| `Auth.AuthService.Login` | auth.js:66-108 | missing field: 400. Lookup error: 500. Unknown email: 400. Wrong password: 400. Otherwise 200 with a token for the stored user's id expiring in one hour. The store is never modified |
| `Auth.AuthService.Forgot` | auth.js:111-167 | lookup error or unknown user: 400, no change. Insert error: 500, no change. Otherwise exactly one row appended (`created_at = now`, `expires_at = now + 900000`, 64-digit hex token); 200 if the mail went out, 500 if not, and the row stays either way |
| `Auth.AuthService.Reset` | auth.js:170-230 | reply as `ResetReply`. On refusal nothing changes. On success the email's hash is replaced; every (email, token) row is deleted unless the delete fails; users are never added |
| `Auth.RegisterThenLogin` | auth.js:31-108 | on an empty store: register 201, wrong password 400, right password 200 with a token for id 0, second registration 400 |
| `Auth.ResetThenLogin` | auth.js:31-230 | register, forgot (200), reset with the mailed token (200), then the old password is refused and the new one is accepted |
| `Auth.UndeliveredLink` | auth.js:111-230 | a token whose mail failed (500) is refused one millisecond after its window and accepted at its last millisecond |

## Left out

- `index.js` (Express app, CORS origins, JSON middleware, `listen`) is server setup with no logic.
- The router, the `req`/`res` objects and the unused `multer` upload configuration (`auth.js:9-15`) are framework plumbing.
- The Supabase client and PostgREST semantics are replaced by in-memory tables plus the `StoreError` input. `.single()` also fails when several users share an email. The invariant makes that unreachable, so it is not modelled.
- User ids are assigned by the database. Here a counter stands in for them; the code treats ids as opaque.
- bcrypt internals are not modelled: salting, cost factor 10, timing-safe comparison, and truncation of passwords past 72 bytes. `Matches` compares whole passwords.
- JWT signing, the secret, the signature and token verification are not modelled. Only the claims (`userId`, `iat`, `exp`) are. A `jwt.sign` failure (for example, no secret configured, which answers 500) is not modelled.
- The mail transport and the mail text and HTML with the reset link are left out. Only delivery success or failure is an input.
- `crypto.randomBytes`, `new Date()` and `console.log` are replaced by parameters, or dropped in the case of logging. Times are integer milliseconds. The conversion of timestamps through the database's timestamp columns is not modelled.
- Request fields are strings. A non-string JSON value is not modelled. Neither is an absent (`undefined`) field in the two unguarded handlers: in `/register` an absent password reaches `bcrypt.hash(undefined)` and answers 500 unless the email is already registered (400, auth.js:45-46), and an absent email is not looked up as `""` (auth.js:38) and is dropped from the insert (auth.js:52), so the answer depends on the column's constraint; in `/forgot` the lookup `.eq('email', undefined)` (auth.js:118) would not match a user registered under `""`, and the answer would be 400. The model reads both as the empty string, so `Forgot` with `""` finds a user registered under `""`.
- The `!user` branch of `/login` (`auth.js:89-91`) cannot be reached. `.single()` reports a missing row as an error first.
- Rows created at the same millisecond for the same (email, token) come back in an order the database does not specify. `NewestMatch` picks the earliest stored. Under the invariant such rows expire together, so the reply does not depend on which one is picked.
- Concurrent requests and their races on the tables are the database's concern. Each method runs as one atomic step.
