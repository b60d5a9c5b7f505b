/**
 * The JSON Web Tokens of the routes (RFC 7519, signed with HS256 as section
 * 3.2 of RFC 7518 defines it), abstracted to their claims `{id, exp}` and the
 * secret that signed them. The library that turns a token into its compact
 * string and back is a `Codec` value; the properties the routes depend on are
 * stated per token by `Faithful`.
 */
module Tokens {
  import opened Wrappers

  /** `JWT_ACCESS_TOKEN_EXPIRES`, in seconds (default of the configuration). */
  const ACCESS_TOKEN_TTL: int := 3600
  /** `JWT_REFRESH_TOKEN_EXPIRES`, in seconds (seven days). */
  const REFRESH_TOKEN_TTL: int := 604800
  /** `RESET_PASSWORD_TOKEN_EXPIRES`, thirty minutes in seconds. */
  const RESET_TOKEN_TTL: int := 30 * 60

  /** Which secret signed a token: `SECRET_KEY` or `JWT_REFRESH_SECRET_KEY`. */
  datatype Key = SecretKey | RefreshSecretKey

  /** The payload every token of the routes carries; `exp` in whole seconds since the epoch. */
  datatype Claims = Claims(id: int, exp: int)

  datatype Token = Token(claims: Claims, key: Key)

  /**
   * The JWT library: `encode` is `jwt.encode(claims, key, "HS256")`; `parse`
   * reads a string back to the token it encodes when it is a well-formed HS256
   * token, with an `id` and an `exp` claim, signed with one of the two
   * secrets (as every token the routes issue is), and gives `None` otherwise.
   */
  datatype Codec = Codec(encode: Token -> string, parse: string -> Option<Token>)

  /**
   * What the routes rely on for a token they issued: its string reads back to
   * it, and it is a non-empty run of base64url segments and dots, so it holds
   * no space.
   */
  ghost predicate Faithful(codec: Codec, t: Token) {
    && codec.parse(codec.encode(t)) == Some(t)
    && codec.encode(t) != []
    && ' ' !in codec.encode(t)
  }

  /** `jwt.encode({'id': id, 'exp': now + ttl}, key)` before serialisation. */
  function Issue(id: int, ttl: int, key: Key, now: int): Token {
    Token(Claims(id, now + ttl), key)
  }

  /** The outcome of `jwt.decode(text, key, algorithms=["HS256"])`. */
  datatype Decoded =
    | Ok(id: int)   // returns the payload
    | Expired       // raises ExpiredSignatureError
    | Invalid       // raises another InvalidTokenError

  /**
   * `jwt.decode` at time `now`: the signature is checked before the claims,
   * so a token signed with the other secret is `Invalid` whatever its `exp`;
   * a token is expired from the second its `exp` names on (section 4.1.4 of
   * RFC 7519: the current time must be before the expiration time).
   */
  function Decode(codec: Codec, text: string, key: Key, now: int): Decoded {
    match codec.parse(text)
    case None => Invalid
    case Some(t) =>
      if t.key != key then Invalid
      else if t.claims.exp <= now then Expired
      else Ok(t.claims.id)
  }

  /** An issued token decodes with its own secret until its lifetime has passed, and never with the other. */
  lemma DecodeIssued(codec: Codec, id: int, ttl: int, key: Key, now: int, key': Key, later: int)
    requires Faithful(codec, Issue(id, ttl, key, now))
    ensures Decode(codec, codec.encode(Issue(id, ttl, key, now)), key', later) ==
              if key' != key then Invalid
              else if later < now + ttl then Ok(id)
              else Expired
  {
  }

  /** `generate_tokens(user)`: an access token and a refresh token for the same user, issued at `now`. */
  function GenerateTokens(codec: Codec, id: int, now: int): (string, string) {
    (codec.encode(Issue(id, ACCESS_TOKEN_TTL, SecretKey, now)),
     codec.encode(Issue(id, REFRESH_TOKEN_TTL, RefreshSecretKey, now)))
  }

  /**
   * The pair `generate_tokens` returns: the access token decodes with
   * `SECRET_KEY` for an hour, the refresh token with `JWT_REFRESH_SECRET_KEY`
   * for seven days, both to the user's id, neither with the other secret, and
   * the two strings differ.
   */
  lemma GeneratedTokens(codec: Codec, id: int, now: int, later: int)
    requires Faithful(codec, Issue(id, ACCESS_TOKEN_TTL, SecretKey, now))
    requires Faithful(codec, Issue(id, REFRESH_TOKEN_TTL, RefreshSecretKey, now))
    ensures var (access, refresh) := GenerateTokens(codec, id, now);
            && access != refresh
            && Decode(codec, access, SecretKey, later) == (if later < now + 3600 then Ok(id) else Expired)
            && Decode(codec, access, RefreshSecretKey, later) == Invalid
            && Decode(codec, refresh, RefreshSecretKey, later) == (if later < now + 604800 then Ok(id) else Expired)
            && Decode(codec, refresh, SecretKey, later) == Invalid
  {
    DecodeIssued(codec, id, ACCESS_TOKEN_TTL, SecretKey, now, SecretKey, later);
    DecodeIssued(codec, id, ACCESS_TOKEN_TTL, SecretKey, now, RefreshSecretKey, later);
    DecodeIssued(codec, id, REFRESH_TOKEN_TTL, RefreshSecretKey, now, RefreshSecretKey, later);
    DecodeIssued(codec, id, REFRESH_TOKEN_TTL, RefreshSecretKey, now, SecretKey, later);
  }

  /** A string that decodes with `key` is the encoding of a token signed with `key`. */
  predicate SignedWith(codec: Codec, text: string, key: Key) {
    codec.parse(text).Some? && codec.parse(text).value.key == key
  }

  lemma DecodeNeedsKey(codec: Codec, text: string, key: Key, now: int)
    requires !SignedWith(codec, text, key)
    ensures Decode(codec, text, key, now) == Invalid
  {
  }
}
