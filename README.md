# GlucoCheck authentication, modelled in Dafny

GlucoCheck's web API authenticates users with JSON Web Tokens, in `routes.py`. This project models that part of the API:

- **Input validators.** `is_valid_email` and `is_valid_password` are modelled as predicates. They are read the way Python's `re.match` reads the two anchored patterns, including the single trailing newline that `$` tolerates. Each is proved equal to a direct description of the pattern.
- **The `token_required` guard.** It takes the second space-separated field of the `Authorization` header, checks the process-wide `token_blacklist`, decodes the token with `SECRET_KEY` and looks the user up, in that order. It is a function from the header, the blacklist, the clock and the known ids to either an admitted user id or a refusal. The refusal carries the route's exact status and message.
- **`generate_tokens`.** It issues an access token (`SECRET_KEY`, one hour) and a refresh token (`JWT_REFRESH_SECRET_KEY`, seven days). The JWT library is a codec that encodes a token (claims `id`, `exp` and the signing secret) and parses it back. Decoding follows PyJWT's order: a bad signature or the wrong secret is invalid, otherwise the token is expired once `now >= exp` (section 4.1.4 of RFC 7519), otherwise its id is returned.
- **The routes.** `register`, `login`, `logout`, `refresh`, `forgot_password`, `reset_password` and `reset_password_from_profile` are methods of `Auth.AuthService`. The service's state is:
  - the user table, a map from id to row with unique emails;
  - the next auto-increment id;
  - the blacklist.

  Each method's postcondition gives the route's answer in every branch and the new state.

The class invariant says more than that the table is consistent. Every string in the blacklist is a token signed with `SECRET_KEY`, because only `logout` adds to the blacklist, and only a token the guard admitted. So `refresh`'s revocation check never fires for a genuine refresh token. Logging out leaves the refresh token usable. `Sessions.LogoutRevokesAccessOnly` proves this end to end.

Reset tokens are signed with `SECRET_KEY`, as access tokens are. `reset_password` neither consults the blacklist nor records that a token was used, and it stores any non-empty password without the strength check. So a reset link works more than once, and an access token works as a reset token. `Sessions.ResetLinksAreReusable` proves this.

Passwords are modelled by an idealised digest in place of bcrypt:
- `Hash` is injective; bcrypt is not, since it reads only the first 72 bytes of a password (see "## Left out").
- It fails on the empty password, as Flask-Bcrypt raises `ValueError` there.
- `Verify(p, h)` holds exactly when `h` is the digest of `p`.

Files:

| file | module | contents |
|---|---|---|
| wrappers.dfy | Wrappers | `Option` |
| text.dfy | Text | `str.split` on one separator character, and its inverse |
| validation.dfy | Validation | the two validators and their pattern descriptions |
| passwords.dfy | Passwords | the password digest |
| tokens.dfy | Tokens | the secrets, lifetimes, codec, `jwt.decode` and `generate_tokens` |
| users.dfy | Users | the `users` table and its invariant |
| http.dfy | Http | every response the routes give |
| token_required.dfy | TokenRequired | header parsing and the guard cascade |
| auth.dfy | Auth | `AuthService`, one method per route |
| sessions.dfy | Sessions | request sequences by one client, with the statuses they get |

## Model

| member | source | states |
|---|---|---|
| Text.Split | routes.py:33 | `str.split(" ")` gives at least one field, and no field contains the separator |
| Text.JoinSplit | routes.py:33 | joining the fields of a split with the separator gives back the original string, so no character is lost |
| Text.SplitJoin | routes.py:33 | splitting a join of separator-free fields gives back the fields, so empty fields are kept as Python keeps them |
| Validation.IsValidEmailMatchesRegex | routes.py:70-73 | `is_valid_email` accepts a string exactly when it is local part `[a-zA-Z0-9_.+-]+`, then `@`, then label `[a-zA-Z0-9-]+`, then `.`, then tail `[a-zA-Z0-9-.]+`, with at most one trailing newline |
| Validation.ValidEmailHasOneAt | routes.py:72 | an accepted address has exactly one `@`, not in first position, and a `.` after it |
| Validation.EmailBodyHasNoFinalNewline | routes.py:72 | a string that matches the pattern without the tolerated newline does not end in a newline |
| Validation.PlainEmailAccepted | routes.py:72 | `alice@example.com` is accepted |
| Validation.DoubledDotEmailAccepted | routes.py:72 | `a@b..c` is accepted, because the tail class admits dots |
| Validation.EmailNeedsAt | routes.py:72 | a string without `@` is refused |
| Validation.EmailNeedsDot | routes.py:72 | a string without `.` is refused |
| Validation.IsValidPasswordMeetsPolicy | routes.py:75-85 | `is_valid_password` accepts a string exactly when, without its tolerated trailing newline, it is at least 8 characters from `A-Za-z0-9@$!%*?&#` and contains a lowercase letter, an uppercase letter, a digit and one of `@$!%*?&#` |
| Validation.ValidPasswordNonEmpty | routes.py:84 | an accepted password has at least 8 characters, so it is not the empty password the model's digest refuses |
| Validation.StrongPasswordAccepted | routes.py:84 | `Passw0rd!` is accepted |
| Validation.PasswordWithoutSpecialRefused | routes.py:84 | `Passw0rd` is refused for want of a special character |
| Validation.ShortPasswordRefused | routes.py:84 | `short1!` is refused |
| Passwords.HashVerifiesOnlyItsPassword | routes.py:143 | the digest of a non-empty password exists, and it verifies that password and no other |
| Tokens.DecodeIssued | routes.py:44 | an issued token decodes to its id under its own secret before `exp`, is expired from `exp` on, and is invalid under the other secret |
| Tokens.GeneratedTokens | routes.py:56-67 | the access and refresh tokens differ. The access token decodes only with `SECRET_KEY` and only for 3600 s; the refresh token decodes only with `JWT_REFRESH_SECRET_KEY` and only for 604800 s; both carry the user's id |
| Tokens.DecodeNeedsKey | routes.py:178 | a string not signed with the given secret decodes as invalid whatever the clock |
| Users.EmailFindsOneRow | models.py:40 | under the table invariant, an email finds at most one row |
| Users.InsertKeepsInvariant | routes.py:110-118 | inserting a row under the next id, with an unused email, keeps ids and emails unique |
| Users.SetPasswordKeepsInvariant | routes.py:230-232 | overwriting one row's digest keeps the table invariant |
| TokenRequired.BearerHeaderToken | routes.py:29-33 | for `scheme token rest`, where `scheme` and `token` have no space and `rest` is empty or starts with a space, the token taken is `token` |
| TokenRequired.FoundTokenShape | routes.py:29-33 | conversely, every token taken from a header is a non-empty, space-free second field of that header |
| TokenRequired.HeaderWithoutSpace | routes.py:32-35 | a non-empty header without a space gives 403 "Invalid token format!" |
| TokenRequired.HeaderWithEmptyToken | routes.py:37-38 | a header whose second field is empty, such as `Bearer `, gives 403 "Token is missing!" |
| TokenRequired.GuardStatuses | routes.py:25-54 | every refusal is 401, 403 or 404. It is 401 exactly for a revoked or expired token, and 404 exactly for an unrevoked, validly signed, unexpired token whose user is missing |
| TokenRequired.RevokedBeforeDecoded | routes.py:40-41 | a revoked token is refused with 401 "Token has been revoked!" whatever the clock, the codec or the users |
| TokenRequired.GuardAdmitsExactly | routes.py:25-54 | the guard admits user `id` exactly when a token was taken, it is not revoked, it decodes with `SECRET_KEY` to `id`, and `id` is a known user |
| TokenRequired.MoreRevokedAdmitsLess | routes.py:40-41 | a larger blacklist never admits a request that a smaller one refused |
| TokenRequired.AdmittedTokenIsAccessSigned | routes.py:43-53 | an admitted request carried an unrevoked token signed with `SECRET_KEY` |
| TokenRequired.SecretKeyTokenAtGuard | routes.py:43-51 | an unrevoked `SECRET_KEY` token of a known user, as `Bearer <token>`, is admitted before its `exp` and refused as expired from then on. This holds for access tokens and reset tokens alike |
| TokenRequired.RefreshTokenAtGuard | routes.py:43-51 | an unrevoked refresh token presented to the guard is 403 "Invalid token!" at every time |
| Auth.AuthService.constructor | routes.py:20-21 | the service starts with no users, next id 1 and an empty blacklist |
| Auth.AuthService.Register | routes.py:87-123 | missing field, bad email, weak password and used email are each 400, in that order. Otherwise exactly one row is added under the next id, with the given names and email, the digest of the given password and role `GLUCOCHECK_USER`, and the answer is 201 with that id. Nothing changes on a refusal |
| Auth.AuthService.Login | routes.py:131-156 | empty fields give 400, then a bad email gives 400. The answer is 200 exactly when a row with the email verifies the password, and then carries that user's two generated tokens and public fields. Otherwise it is the same 401 for an unknown email and a wrong password |
| Auth.AuthService.Logout | routes.py:160-165 | a guard refusal is returned unchanged and revokes nothing. An admitted request adds exactly its token, not revoked before, to the blacklist and changes nothing else |
| Auth.AuthService.Refresh | routes.py:167-188 | the checks run in order: empty (400), revoked (401), expired (401), invalid (403), missing user (404). Success returns only a new access token. A genuine refresh token is never answered as revoked |
| Auth.AuthService.ForgotPassword | routes.py:190-215 | an empty email gives 400 and an unknown email 404, with no mail. For a known email, when `mail.send` raises the answer is 500 with no mail delivered; when it returns the answer is 200, and a mail to that address carries the reset link of a `SECRET_KEY` token for the user's id that expires in 1800 s |
| Auth.AuthService.ResetPassword | routes.py:218-239 | an empty password gives 400. Expired and invalid tokens both give 400, and a missing user gives 404. Otherwise exactly that user's digest becomes the digest of the new password, with no strength check and no change to the blacklist |
| Auth.AuthService.ResetPasswordFromProfile | routes.py:241-255 | a guard refusal is returned. Missing fields give 400. A current password that does not verify gives 401 and leaves the digest unchanged. An empty new password gives 500 with nothing changed. Otherwise exactly the admitted user's digest is replaced |
| Sessions.LogoutRevokesAccessOnly | routes.py:160-188 | after register (201), login (200) and logout (200), a second logout with the same token is 401, while the refresh token from the same login still gets 200 |
| Sessions.ResetLinksAreReusable | routes.py:190-239 | with the reset mail delivered (200), one reset link resets the password twice (200, 200), the login's access token resets it a third time (200), and the original password then fails to log in (401) |

## Left out

- HTTP and JSON plumbing (`Blueprint`, `request.json`, `jsonify`) is left out. A body is modelled as a set of optional strings.
- JSON values that are not strings are not modelled. Most of them make a validator, bcrypt or the database raise, and the route answers 500. Some do not: a non-string `refresh_token` such as `5` passes the emptiness test and the blacklist, then `jwt.decode` rejects it, so `refresh` answers 403 "Invalid refresh token".
- Each route's generic `except Exception` answer (500 in `register` and `login`) is left out. It covers database failures, which are outside the model.
- Database behaviour is left out: column length limits, email comparison under the database's collation (the model compares exactly) and transactions. The check-then-insert race on email in `register`, and unsynchronised access to the shared blacklist, are concurrency; the model is sequential.
- Signed tokens whose payload lacks `exp` or `id` are not modelled; a token here always carries both. PyJWT accepts a token with no `exp`, and such a token never expires. A token with no `id` makes `data['id']` or `payload['id']` raise (routes.py:45, 179, 226), and the route answers 500. The routes never issue such tokens, and making one needs a secret.
- JWT serialisation and HMAC-SHA256 signing are a codec given as a parameter. Lemmas assume only that it round-trips the tokens involved, and that their encodings are non-empty and contain no space.
- bcrypt salting and cost are left out. The digest is an injective function of the password.
- Passwords.HashVerifiesOnlyItsPassword: bcrypt uses only the first 72 bytes of a password. The `Bcrypt()` instance in routes.py:18 is never configured to pre-hash long passwords, and `is_valid_password` sets no upper length. So with real bcrypt, two passwords that agree on their first 72 bytes verify against each other's digest, or a long password makes the route fail, depending on the bcrypt version. The model's digest distinguishes every pair of passwords, so `Register`, `Login`, `ResetPassword` and `ResetPasswordFromProfile` do not capture either behaviour for passwords over 72 bytes.
- `datetime.utcnow` is a `now` parameter in whole seconds. The two calls inside `generate_tokens` are read as the same instant.
- The secrets and lifetimes read from the environment in config.py are the defaults: 3600 s, 604800 s and 30 minutes. The two secrets are modelled as different keys; a deployment that sets them equal is not modelled.
- Sending the reset mail is left out. `ForgotPassword` returns the mail's recipient and link instead; the fixed subject and sender address are not modelled.
- Auth.AuthService.ForgotPassword: whether `mail.send` (routes.py:213) returns is a parameter, `delivered`. In the files as given, the `Mail()` of routes.py:23 is never bound to the application (app.py sets up only CORS, the database, bcrypt and migrations), so the send raises and the route answers 500. That is the model's `delivered == false` case. Had it been bound, the default settings of config.py:14-18 hold placeholder SMTP credentials.
- Sessions.ResetLinksAreReusable: the session takes the reset mail to be delivered, which needs a mailer bound and configured. With the files as given, the forgot-password request answers 500 and no link is delivered.
- Validation.IsValidPassword: `\d` is read as the ASCII digits `0-9`. Python 3 also matches other Unicode decimal digits there.
- The food-item routes in routes.py (lines 257-381), the Google and food-image blueprints imported by app.py, and app.py and run.py themselves are not part of this model.
