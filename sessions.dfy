/**
 * Client sessions against one fresh service, each request after the other,
 * with the status every request gets. They pin down how the routes combine:
 * a revoked access token is refused, while the refresh token issued with it
 * still works; a reset link can be used more than once, and an access token
 * serves as a reset token.
 */
module Sessions {
  import opened Wrappers
  import opened Validation
  import opened Passwords
  import opened Tokens
  import opened Users
  import opened Http
  import opened TokenRequired
  import opened Auth

  /** A registration `register` accepts on an empty table. */
  predicate Acceptable(req: RegisterRequest) {
    req.Complete() && IsValidEmail(req.email.value) && IsValidPassword(req.password.value)
  }

  /** Register, log in, log out, log out again with the same token, then refresh. */
  method LogoutRevokesAccessOnly(codec: Codec, req: RegisterRequest, now: int)
    returns (registered: int, loggedIn: int, loggedOut: int, loggedOutAgain: int, refreshed: int)
    requires Acceptable(req)
    requires Faithful(codec, Issue(1, ACCESS_TOKEN_TTL, SecretKey, now))
    requires Faithful(codec, Issue(1, REFRESH_TOKEN_TTL, RefreshSecretKey, now))
    ensures registered == 201 && loggedIn == 200 && loggedOut == 200
    ensures loggedOutAgain == 401
    ensures refreshed == 200
  {
    var svc := new AuthService(codec);
    ValidPasswordNonEmpty(req.password.value);
    var r := svc.Register(req);
    registered := r.status;
    assert svc.users == map[1 := RegisteredUser(1, req)];

    r := svc.Login(req.email, req.password, now);
    loggedIn := r.status;
    var (access, refresh) := GenerateTokens(codec, 1, now);
    assert r.body == LoggedIn(access, refresh, svc.users[1].Public());
    GeneratedTokens(codec, 1, now, now);

    var header := Some("Bearer " + access);
    SecretKeyTokenAtGuard(codec, 1, ACCESS_TOKEN_TTL, now, svc.blacklist, svc.users.Keys, now);
    r := svc.Logout(header, now);
    loggedOut := r.status;
    assert svc.blacklist == {access} by {
      BearerHeaderToken("Bearer", access, "");
      assert "Bearer" + " " + access + "" == "Bearer " + access;
    }

    RevokedBeforeDecoded(header, svc.blacklist, codec, svc.users.Keys, now);
    r := svc.Logout(header, now);
    loggedOutAgain := r.status;

    r := svc.Refresh(Some(refresh), now);
    refreshed := r.status;
  }

  /**
   * Register, log in, ask for a reset link, reset to `first` and then to
   * `second` through the same link, reset to `third` with the access token
   * from the login, then log in with the original password. None of the new
   * passwords need pass the strength check. The reset mail is taken to be
   * delivered.
   */
  method ResetLinksAreReusable(codec: Codec, req: RegisterRequest, first: string, second: string, third: string, now: int)
    returns (mailed: int, firstReset: int, secondReset: int, resetWithAccessToken: int, oldPasswordLogin: int)
    requires Acceptable(req)
    requires first != "" && second != "" && third != ""
    requires third != req.password.value
    requires Faithful(codec, Issue(1, RESET_TOKEN_TTL, SecretKey, now))
    requires Faithful(codec, Issue(1, ACCESS_TOKEN_TTL, SecretKey, now))
    ensures mailed == 200 && firstReset == 200 && secondReset == 200
    ensures resetWithAccessToken == 200
    ensures oldPasswordLogin == 401
  {
    var svc := new AuthService(codec);
    ValidPasswordNonEmpty(req.password.value);
    var r := svc.Register(req);
    assert svc.users == map[1 := RegisteredUser(1, req)];

    r := svc.Login(req.email, req.password, now);
    var access := GenerateTokens(codec, 1, now).0;
    assert r.body.accessToken == access;

    var mail;
    r, mail := svc.ForgotPassword(req.email, true, now);
    mailed := r.status;
    var resetToken := mail.value.link[|ResetLink("")|..];
    assert resetToken == codec.encode(Issue(1, RESET_TOKEN_TTL, SecretKey, now));

    DecodeIssued(codec, 1, RESET_TOKEN_TTL, SecretKey, now, SecretKey, now + 60);
    r := svc.ResetPassword(resetToken, Some(first), now + 60);
    firstReset := r.status;

    DecodeIssued(codec, 1, RESET_TOKEN_TTL, SecretKey, now, SecretKey, now + 120);
    r := svc.ResetPassword(resetToken, Some(second), now + 120);
    secondReset := r.status;

    DecodeIssued(codec, 1, ACCESS_TOKEN_TTL, SecretKey, now, SecretKey, now + 180);
    r := svc.ResetPassword(access, Some(third), now + 180);
    resetWithAccessToken := r.status;
    assert svc.users[1].password == Digest(third);

    HashVerifiesOnlyItsPassword(third, req.password.value);
    r := svc.Login(req.email, req.password, now + 240);
    oldPasswordLogin := r.status;
  }
}
