/**
 * The authentication routes as one service: the user table, the id the next
 * row gets, and the process-wide `token_blacklist`, with a method per route.
 * Each method gives the route's answer and the new state; the clock (`now`,
 * whole seconds since the epoch) is a parameter, and the reset email is
 * returned rather than sent.
 */
module Auth {
  import opened Wrappers
  import opened Text
  import opened Validation
  import opened Passwords
  import opened Tokens
  import opened Users
  import opened Http
  import opened TokenRequired

  /** `not data.get(key)`: the key is missing or its value is empty. */
  predicate Blank(field: Option<string>) {
    field.None? || field.value == ""
  }

  /** The JSON body of `/register`; `None` is a key the body does not have. */
  datatype RegisterRequest = RegisterRequest(
    firstName: Option<string>,
    lastName: Option<string>,
    email: Option<string>,
    password: Option<string>)
  {
    /** `all(field in data for field in [...])`: present, possibly empty. */
    predicate Complete() {
      firstName.Some? && lastName.Some? && email.Some? && password.Some?
    }
  }

  /** The row `register` inserts: the given names and email, the digest of the password, the default role. */
  function RegisteredUser(id: int, req: RegisterRequest): User
    requires req.Complete() && req.password.value != ""
  {
    User(id, req.firstName.value, req.lastName.value, req.email.value,
         Hash(req.password.value).value, DEFAULT_ROLE)
  }

  /** `users` with row `id`'s digest replaced by the digest of `password`. */
  function WithPassword(users: map<int, User>, id: int, password: string): map<int, User>
    requires id in users && password != ""
  {
    users[id := users[id].(password := Hash(password).value)]
  }

  /** The message `forgot_password` sends: to the user's address, with the reset link in its text. */
  datatype ResetMail = ResetMail(recipient: string, link: string)

  function ResetLink(token: string): string {
    "http://localhost:5000/reset-password/" + token
  }

  class AuthService {
    var users: map<int, User>
    var nextId: int
    var blacklist: set<string>
    const codec: Codec

    /**
     * The table is consistent, and every revoked string is a token signed
     * with `SECRET_KEY` (only `logout` revokes, and only a token the guard
     * admitted).
     */
    ghost predicate Valid()
      reads this
    {
      && StoreInvariant(users, nextId)
      && forall t :: t in blacklist ==> SignedWith(codec, t, SecretKey)
    }

    constructor (codec: Codec)
      ensures Valid()
      ensures this.codec == codec && users == map[] && nextId == 1 && blacklist == {}
    {
      this.codec := codec;
      users := map[];
      nextId := 1;
      blacklist := {};
    }

    /** `POST /register`: the checks in order, each 400, then one new row and 201. */
    method Register(req: RegisterRequest) returns (resp: Response)
      requires Valid()
      modifies this
      ensures Valid() && blacklist == old(blacklist)
      ensures !req.Complete() ==> resp == MissingFields
      ensures req.Complete() && !IsValidEmail(req.email.value) ==> resp == InvalidEmailFormat
      ensures req.Complete() && IsValidEmail(req.email.value) && !IsValidPassword(req.password.value) ==>
                resp == WeakPassword
      ensures (req.Complete() && IsValidEmail(req.email.value) && IsValidPassword(req.password.value) &&
               EmailTaken(old(users), req.email.value)) ==> resp == EmailInUse
      ensures resp.status == 201 <==>
                req.Complete() && IsValidEmail(req.email.value) && IsValidPassword(req.password.value) &&
                !EmailTaken(old(users), req.email.value)
      ensures resp.status == 201 ==>
                && req.password.value != ""
                && resp.body == Registered(old(nextId))
                && users == old(users)[old(nextId) := RegisteredUser(old(nextId), req)]
                && nextId == old(nextId) + 1
      ensures resp.status != 201 ==> users == old(users) && nextId == old(nextId)
    {
      if !req.Complete() {
        return MissingFields;
      }
      var email, password := req.email.value, req.password.value;
      if !IsValidEmail(email) {
        return InvalidEmailFormat;
      }
      if !IsValidPassword(password) {
        return WeakPassword;
      }
      if EmailTaken(users, email) {
        return EmailInUse;
      }
      ValidPasswordNonEmpty(password);
      var user := RegisteredUser(nextId, req);
      InsertKeepsInvariant(users, nextId, user);
      users := users[nextId := user];
      resp := Response(201, Registered(nextId));
      nextId := nextId + 1;
    }

    /**
     * `POST /login`: both tokens and the user's public fields when a row has
     * the email and its digest verifies the password; one and the same 401
     * whether the email is unknown or the password wrong.
     */
    method Login(email: Option<string>, password: Option<string>, now: int) returns (resp: Response)
      requires Valid()
      ensures Blank(email) || Blank(password) ==> resp == CredentialsRequired
      ensures !Blank(email) && !Blank(password) && !IsValidEmail(email.value) ==> resp == InvalidEmailFormat
      ensures !Blank(email) && !Blank(password) && IsValidEmail(email.value) ==>
                (resp.status == 200 <==> Authenticates(users, email.value, password.value))
      ensures (!Blank(email) && !Blank(password) && IsValidEmail(email.value) &&
               !Authenticates(users, email.value, password.value)) ==> resp == InvalidCredentials
      ensures forall id :: && !Blank(email) && !Blank(password) && IsValidEmail(email.value)
                           && id in users && users[id].email == email.value
                           && Verify(password.value, users[id].password) ==>
                resp == Response(200, LoggedIn(GenerateTokens(codec, id, now).0,
                                               GenerateTokens(codec, id, now).1,
                                               users[id].Public()))
    {
      if Blank(email) || Blank(password) {
        return CredentialsRequired;
      }
      if !IsValidEmail(email.value) {
        return InvalidEmailFormat;
      }
      if EmailTaken(users, email.value) {
        var id :| id in users && users[id].email == email.value;
        if Verify(password.value, users[id].password) {
          var (access, refresh) := GenerateTokens(codec, id, now);
          return Response(200, LoggedIn(access, refresh, users[id].Public()));
        }
      }
      resp := InvalidCredentials;
    }

    /** `POST /logout`: behind the guard, revoke exactly the presented token. */
    method Logout(header: Option<string>, now: int) returns (resp: Response)
      requires Valid()
      modifies this
      ensures Valid() && users == old(users) && nextId == old(nextId)
      ensures Guard(header, old(blacklist), codec, old(users).Keys, now).Refuse? ==>
                && resp == Guard(header, old(blacklist), codec, old(users).Keys, now).response
                && blacklist == old(blacklist)
      ensures Guard(header, old(blacklist), codec, old(users).Keys, now).Admit? ==>
                && resp == LoggedOut
                && ExtractToken(header).Found?
                && ExtractToken(header).token !in old(blacklist)
                && blacklist == old(blacklist) + {ExtractToken(header).token}
    {
      var verdict := Guard(header, blacklist, codec, users.Keys, now);
      if verdict.Refuse? {
        return verdict.response;
      }
      AdmittedTokenIsAccessSigned(header, blacklist, codec, users.Keys, now);
      var token := Split(header.value, ' ')[1];
      blacklist := blacklist + {token};
      resp := LoggedOut;
    }

    /**
     * `POST /refresh`: the blacklist, then `jwt.decode` with the refresh
     * secret, then the user; success is a new access token only, the refresh
     * token is not replaced. A string the blacklist holds is signed with
     * `SECRET_KEY`, so the revocation answer is never given for a genuine
     * refresh token.
     */
    method Refresh(refreshToken: Option<string>, now: int) returns (resp: Response)
      requires Valid()
      ensures Blank(refreshToken) ==> resp == RefreshTokenRequired
      ensures !Blank(refreshToken) && refreshToken.value in blacklist ==> resp == RefreshTokenRevoked
      ensures !Blank(refreshToken) && refreshToken.value !in blacklist ==>
                match Decode(codec, refreshToken.value, RefreshSecretKey, now)
                case Expired => resp == RefreshTokenExpired
                case Invalid => resp == InvalidRefreshToken
                case Ok(id) =>
                  resp == if id in users then Response(200, NewAccessToken(GenerateTokens(codec, id, now).0))
                          else UserNotFound
      ensures refreshToken.Some? && SignedWith(codec, refreshToken.value, RefreshSecretKey) ==>
                resp != RefreshTokenRevoked
    {
      if Blank(refreshToken) {
        return RefreshTokenRequired;
      }
      var token := refreshToken.value;
      if token in blacklist {
        return RefreshTokenRevoked;
      }
      match Decode(codec, token, RefreshSecretKey, now)
      case Expired =>
        resp := RefreshTokenExpired;
      case Invalid =>
        resp := InvalidRefreshToken;
      case Ok(id) =>
        if id !in users {
          return UserNotFound;
        }
        var (access, _) := GenerateTokens(codec, id, now);
        resp := Response(200, NewAccessToken(access));
    }

    /**
     * `POST /forgot-password`: for a known email, a reset token (`SECRET_KEY`,
     * thirty minutes) mailed to that address inside the reset link. The email
     * is looked up as given; it is not validated. `delivered` is whether
     * `mail.send` returns: when it raises, the route has no handler for it,
     * so the answer is 500 and the link reaches nobody.
     */
    method ForgotPassword(email: Option<string>, delivered: bool, now: int) returns (resp: Response, mail: Option<ResetMail>)
      requires Valid()
      ensures Blank(email) ==> resp == EmailRequired && mail == None
      ensures !Blank(email) && !EmailTaken(users, email.value) ==> resp == UserNotFound && mail == None
      ensures !Blank(email) && EmailTaken(users, email.value) && !delivered ==>
                resp == InternalServerError && mail == None
      ensures forall id :: !Blank(email) && id in users && users[id].email == email.value && delivered ==>
                && resp == ResetEmailSent
                && mail == Some(ResetMail(email.value, ResetLink(codec.encode(Issue(id, RESET_TOKEN_TTL, SecretKey, now)))))
    {
      if Blank(email) {
        return EmailRequired, None;
      }
      if !EmailTaken(users, email.value) {
        return UserNotFound, None;
      }
      var id :| id in users && users[id].email == email.value;
      var resetToken := codec.encode(Issue(id, RESET_TOKEN_TTL, SecretKey, now));
      if !delivered {
        return InternalServerError, None;
      }
      mail := Some(ResetMail(users[id].email, ResetLink(resetToken)));
      resp := ResetEmailSent;
    }

    /**
     * `POST /reset-password/<token>`: any non-empty password, no strength
     * check; the token is decoded with `SECRET_KEY`, expired and invalid both
     * give 400, and nothing records that it was used, nor is the blacklist
     * consulted.
     */
    method ResetPassword(token: string, password: Option<string>, now: int) returns (resp: Response)
      requires Valid()
      modifies this
      ensures Valid() && blacklist == old(blacklist) && nextId == old(nextId)
      ensures Blank(password) ==> resp == PasswordRequired && users == old(users)
      ensures !Blank(password) ==>
                match Decode(codec, token, SecretKey, now)
                case Expired => resp == ResetTokenExpired && users == old(users)
                case Invalid => resp == InvalidResetToken && users == old(users)
                case Ok(id) =>
                  if id in old(users) then
                    resp == PasswordResetDone && users == WithPassword(old(users), id, password.value)
                  else
                    resp == UserNotFound && users == old(users)
    {
      if Blank(password) {
        return PasswordRequired;
      }
      match Decode(codec, token, SecretKey, now)
      case Expired =>
        resp := ResetTokenExpired;
      case Invalid =>
        resp := InvalidResetToken;
      case Ok(id) =>
        if id !in users {
          return UserNotFound;
        }
        SetPasswordKeepsInvariant(users, nextId, id, Hash(password.value).value);
        users := WithPassword(users, id, password.value);
        resp := PasswordResetDone;
    }

    /**
     * `POST /profile/reset-password`: behind the guard; both fields must be
     * present, the current password must verify against the stored digest,
     * and the new one is stored without a strength check. An empty new
     * password makes the bcrypt wrapper raise, which the route does not catch.
     */
    method ResetPasswordFromProfile(header: Option<string>, currentPassword: Option<string>,
                                    newPassword: Option<string>, now: int) returns (resp: Response)
      requires Valid()
      modifies this
      ensures Valid() && blacklist == old(blacklist) && nextId == old(nextId)
      ensures Guard(header, blacklist, codec, old(users).Keys, now).Refuse? ==>
                resp == Guard(header, blacklist, codec, old(users).Keys, now).response && users == old(users)
      ensures Guard(header, blacklist, codec, old(users).Keys, now).Admit? ==>
                var id := Guard(header, blacklist, codec, old(users).Keys, now).userId;
                if currentPassword.None? || newPassword.None? then
                  resp == PasswordsRequired && users == old(users)
                else if !Verify(currentPassword.value, old(users)[id].password) then
                  resp == CurrentPasswordIncorrect && users == old(users)
                else if newPassword.value == "" then
                  resp == InternalServerError && users == old(users)
                else
                  resp == PasswordUpdated && users == WithPassword(old(users), id, newPassword.value)
    {
      var verdict := Guard(header, blacklist, codec, users.Keys, now);
      if verdict.Refuse? {
        return verdict.response;
      }
      var id := verdict.userId;
      if currentPassword.None? || newPassword.None? {
        return PasswordsRequired;
      }
      if !Verify(currentPassword.value, users[id].password) {
        return CurrentPasswordIncorrect;
      }
      var digest := Hash(newPassword.value);
      if digest.None? {
        return InternalServerError;
      }
      SetPasswordKeepsInvariant(users, nextId, id, digest.value);
      users := WithPassword(users, id, newPassword.value);
      resp := PasswordUpdated;
    }
  }
}
