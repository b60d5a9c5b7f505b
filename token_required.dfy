/**
 * The `token_required` decorator: how the bearer token is taken from the
 * `Authorization` header, and the fixed order of checks that either hands the
 * wrapped route the user the token names or answers with an error.
 */
module TokenRequired {
  import opened Wrappers
  import opened Text
  import opened Tokens
  import opened Http

  datatype Bearer = Found(token: string) | Refused(response: Response)

  /**
   * The token is `header.split(" ")[1]`. An absent or empty header leaves the
   * token unset; a header without a space has no second field (`IndexError`);
   * an empty second field is as good as no token.
   */
  function ExtractToken(header: Option<string>): Bearer {
    if header.None? || header.value == "" then Refused(TokenMissing)
    else
      var fields := Split(header.value, ' ');
      if |fields| < 2 then Refused(InvalidTokenFormat)
      else if fields[1] == "" then Refused(TokenMissing)
      else Found(fields[1])
  }

  /** What `decorated_function` does: call the route with the user, or answer itself. */
  datatype Verdict = Admit(userId: int) | Refuse(response: Response)

  /**
   * The checks in the decorator's order: a usable token, then the blacklist,
   * then `jwt.decode` with `SECRET_KEY`, then the user lookup. `known` is the
   * set of ids `User.query.get` finds.
   */
  function Guard(header: Option<string>, blacklist: set<string>, codec: Codec, known: set<int>, now: int): Verdict {
    match ExtractToken(header)
    case Refused(r) => Refuse(r)
    case Found(token) =>
      if token in blacklist then Refuse(TokenRevoked)
      else
        match Decode(codec, token, SecretKey, now)
        case Expired => Refuse(TokenExpired)
        case Invalid => Refuse(InvalidToken)
        case Ok(id) => if id in known then Admit(id) else Refuse(TokenUserNotFound)
  }

  // ----- the header

  /**
   * `Authorization: <scheme> <token>`, possibly followed by more
   * space-separated fields, yields exactly `<token>`.
   */
  lemma BearerHeaderToken(scheme: string, token: string, rest: string)
    requires ' ' !in scheme && ' ' !in token && token != ""
    requires rest == "" || rest[0] == ' '
    ensures ExtractToken(Some(scheme + " " + token + rest)) == Found(token)
  {
    var h := scheme + " " + token + rest;
    var fields := Split(h, ' ');
    assert fields[1] == token by {
      assert h == scheme + [' '] + (token + rest);
      SplitAtFirstSeparator(scheme, ' ', token + rest);
      SecondFieldStart(token, rest);
    }
    assert |fields| >= 2;
  }

  lemma SecondFieldStart(token: string, rest: string)
    requires ' ' !in token
    requires rest == "" || rest[0] == ' '
    ensures Split(token + rest, ' ')[0] == token
  {
    if rest == "" {
      assert token + rest == token;
      SplitWithoutSeparator(token, ' ');
    } else {
      assert token + rest == token + [' '] + rest[1..];
      SplitAtFirstSeparator(token, ' ', rest[1..]);
    }
  }

  /** Conversely, a token taken from a header is its second field, exactly as above. */
  lemma FoundTokenShape(h: string, t: string) returns (scheme: string, rest: string)
    requires ExtractToken(Some(h)) == Found(t)
    ensures ' ' !in scheme && ' ' !in t && t != ""
    ensures rest == "" || rest[0] == ' '
    ensures h == scheme + " " + t + rest
  {
    var fields := Split(h, ' ');
    JoinSplit(h, ' ');
    scheme := fields[0];
    var tail := fields[1..];
    if |tail| == 1 {
      rest := "";
    } else {
      rest := " " + Join(tail[1..], ' ');
    }
    assert Join(fields, ' ') == scheme + [' '] + Join(tail, ' ');
  }

  /** A header without a space has no second field: 403 "Invalid token format!". */
  lemma HeaderWithoutSpace(h: string)
    requires h != "" && ' ' !in h
    ensures ExtractToken(Some(h)) == Refused(InvalidTokenFormat)
  {
    IndexOfMissing(h, ' ');
  }

  /** `"Bearer "` and the like have an empty second field: 403 "Token is missing!". */
  lemma HeaderWithEmptyToken(scheme: string, rest: string)
    requires ' ' !in scheme
    requires rest == "" || rest[0] == ' '
    ensures ExtractToken(Some(scheme + " " + rest)) == Refused(TokenMissing)
  {
    var h := scheme + " " + rest;
    assert h == scheme + [' '] + rest;
    SplitAtFirstSeparator(scheme, ' ', rest);
    if rest == "" {
      SplitWithoutSeparator(rest, ' ');
    } else {
      assert rest == [] + [' '] + rest[1..];
      SplitAtFirstSeparator([], ' ', rest[1..]);
    }
  }

  // ----- the order of the checks

  /**
   * Every refusal is 401, 403 or 404: 401 exactly for a revoked or an expired
   * token, 404 exactly for a sound token whose user is gone, 403 for the rest
   * (no usable token, or a token `jwt.decode` rejects as invalid).
   */
  lemma GuardStatuses(header: Option<string>, blacklist: set<string>, codec: Codec, known: set<int>, now: int)
    ensures var verdict, bearer := Guard(header, blacklist, codec, known, now), ExtractToken(header);
            && (verdict.Refuse? ==> verdict.response.status in {401, 403, 404})
            && (verdict.Refuse? && verdict.response.status == 401 <==>
                  bearer.Found? &&
                  (bearer.token in blacklist || Decode(codec, bearer.token, SecretKey, now) == Expired))
            && (verdict.Refuse? && verdict.response.status == 404 <==>
                  && bearer.Found? && bearer.token !in blacklist
                  && Decode(codec, bearer.token, SecretKey, now).Ok?
                  && Decode(codec, bearer.token, SecretKey, now).id !in known)
  {
  }

  /** A revoked token is refused with 401 before it is decoded: neither the clock, the secrets nor the users matter. */
  lemma RevokedBeforeDecoded(header: Option<string>, blacklist: set<string>, codec: Codec, known: set<int>, now: int)
    requires ExtractToken(header).Found? && ExtractToken(header).token in blacklist
    ensures Guard(header, blacklist, codec, known, now) == Refuse(TokenRevoked)
  {
  }

  /** The guard admits a request exactly when every check passes, and then names the token's user. */
  lemma GuardAdmitsExactly(header: Option<string>, blacklist: set<string>, codec: Codec, known: set<int>, now: int, id: int)
    ensures Guard(header, blacklist, codec, known, now) == Admit(id) <==>
              && ExtractToken(header).Found?
              && ExtractToken(header).token !in blacklist
              && Decode(codec, ExtractToken(header).token, SecretKey, now) == Ok(id)
              && id in known
  {
  }

  /** Revoking more tokens never admits a request that was refused, and leaves every other answer as it was. */
  lemma MoreRevokedAdmitsLess(header: Option<string>, blacklist: set<string>, more: set<string>, codec: Codec, known: set<int>, now: int)
    requires blacklist <= more
    ensures Guard(header, more, codec, known, now).Admit? ==>
              Guard(header, blacklist, codec, known, now) == Guard(header, more, codec, known, now)
    ensures Guard(header, blacklist, codec, known, now).Refuse? ==>
              Guard(header, more, codec, known, now).Refuse?
  {
  }

  /** An admitted request carried a token signed with `SECRET_KEY` that is not revoked. */
  lemma AdmittedTokenIsAccessSigned(header: Option<string>, blacklist: set<string>, codec: Codec, known: set<int>, now: int)
    requires Guard(header, blacklist, codec, known, now).Admit?
    ensures ExtractToken(header).Found?
    ensures SignedWith(codec, ExtractToken(header).token, SecretKey)
    ensures ExtractToken(header).token !in blacklist
  {
  }

  // ----- issued tokens at the guard

  /**
   * A token signed with `SECRET_KEY`, sent as `Bearer <token>` and not revoked,
   * admits its user until its lifetime has passed and is refused as expired
   * from then on. Access tokens (one hour) and reset tokens (thirty minutes)
   * are both of this kind.
   */
  lemma SecretKeyTokenAtGuard(codec: Codec, id: int, ttl: int, issued: int, blacklist: set<string>, known: set<int>, now: int)
    requires Faithful(codec, Issue(id, ttl, SecretKey, issued))
    requires codec.encode(Issue(id, ttl, SecretKey, issued)) !in blacklist
    requires id in known
    ensures Guard(Some("Bearer " + codec.encode(Issue(id, ttl, SecretKey, issued))), blacklist, codec, known, now) ==
              if now < issued + ttl then Admit(id) else Refuse(TokenExpired)
  {
    var token := codec.encode(Issue(id, ttl, SecretKey, issued));
    BearerHeaderToken("Bearer", token, "");
    assert "Bearer" + " " + token + "" == "Bearer " + token;
  }

  /** A refresh token is never accepted in place of an access token: 403, expired or not. */
  lemma RefreshTokenAtGuard(codec: Codec, id: int, issued: int, blacklist: set<string>, known: set<int>, now: int)
    requires Faithful(codec, Issue(id, REFRESH_TOKEN_TTL, RefreshSecretKey, issued))
    requires codec.encode(Issue(id, REFRESH_TOKEN_TTL, RefreshSecretKey, issued)) !in blacklist
    ensures Guard(Some("Bearer " + codec.encode(Issue(id, REFRESH_TOKEN_TTL, RefreshSecretKey, issued))), blacklist, codec, known, now) ==
              Refuse(InvalidToken)
  {
    var token := codec.encode(Issue(id, REFRESH_TOKEN_TTL, RefreshSecretKey, issued));
    BearerHeaderToken("Bearer", token, "");
    assert "Bearer" + " " + token + "" == "Bearer " + token;
  }
}
