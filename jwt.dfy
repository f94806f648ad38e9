/**
 * The token service as the rest of the application sees it. Signing and
 * parsing are not modelled: the tokens that verify under the signing key
 * are given as a map from token text to its claims, and a token is
 * rejected by the parser once the current instant is past its expiration.
 */
module Jwt {
  import opened Base

  /** The claims carried by a signed token. */
  datatype Claims = Claims(subject: Option<string>, issuedAt: int, expiration: int)

  /** Token text to claims, for every token whose signature verifies. */
  type TokenOracle = map<string, Claims>

  /** Seconds per minute, for the configured validity in minutes. */
  const MINUTE: int := 60

  /**
   * getClaims: parsing succeeds for a token that verifies and whose
   * expiration is not before the current instant.
   */
  function ParseClaims(tokens: TokenOracle, jwt: string, now: int): (r: Result<Claims>)
    ensures r.Ok? <==> jwt in tokens && now <= tokens[jwt].expiration
    ensures r.Ok? ==> r.value == tokens[jwt]
  {
    if jwt in tokens && now <= tokens[jwt].expiration then Ok(tokens[jwt])
    else Err(RuntimeEx("Invalid JWT token"))
  }

  /** isTokenValid: false on a blank token, otherwise "expiration after now". */
  predicate IsTokenValid(tokens: TokenOracle, jwt: string, now: int)
  {
    !IsBlank(jwt) && ParseClaims(tokens, jwt, now).Ok? && ParseClaims(tokens, jwt, now).value.expiration > now
  }

  /** extractUsername: the subject claim; a blank, forged or expired token throws. */
  function ExtractUsername(tokens: TokenOracle, jwt: string, now: int): (r: Result<Option<string>>)
    ensures IsBlank(jwt) ==> r.Err?
    ensures r.Ok? <==> !IsBlank(jwt) && jwt in tokens && now <= tokens[jwt].expiration
    ensures r.Ok? ==> r.value == tokens[jwt].subject
  {
    if IsBlank(jwt) then Err(RuntimeEx("JWT token cannot be null or blank"))
    else
      var c := ParseClaims(tokens, jwt, now);
      if c.Err? then Err(c.error) else Ok(c.value.subject)
  }

  /** getTokenExpiry: the expiration claim of a token that parses. */
  function GetTokenExpiry(tokens: TokenOracle, jwt: string, now: int): (r: Result<int>)
    ensures r.Ok? <==> !IsBlank(jwt) && jwt in tokens && now <= tokens[jwt].expiration
    ensures r.Ok? ==> r.value == tokens[jwt].expiration
  {
    if IsBlank(jwt) then Err(RuntimeEx("JWT token cannot be null or blank"))
    else
      var c := ParseClaims(tokens, jwt, now);
      if c.Err? then Err(RuntimeEx("Error extracting token expiry")) else Ok(c.value.expiration)
  }

  /** generateToken: subject = email, issued now, expiring VALIDITY minutes later. */
  function IssueClaims(email: string, now: int, validityMinutes: nat): (c: Claims)
    ensures c.subject == Some(email)
    ensures c.expiration - c.issuedAt == validityMinutes * MINUTE
  {
    Claims(Some(email), now, now + validityMinutes * MINUTE)
  }

  /**
   * A freshly issued token is valid at every instant strictly before
   * issue time + VALIDITY minutes, and at no instant from then on.
   */
  lemma IssuedTokenLifetime(tokens: TokenOracle, jwt: string, email: string, issued: int, validityMinutes: nat, at: int)
    requires !IsBlank(jwt) && jwt in tokens && tokens[jwt] == IssueClaims(email, issued, validityMinutes)
    ensures IsTokenValid(tokens, jwt, at) <==> at < issued + validityMinutes * MINUTE
  {
  }

  /**
   * A valid token also yields its subject and its expiry, and that expiry
   * is in the future.
   */
  lemma ValidTokenParses(tokens: TokenOracle, jwt: string, now: int)
    requires IsTokenValid(tokens, jwt, now)
    ensures ExtractUsername(tokens, jwt, now) == Ok(tokens[jwt].subject)
    ensures GetTokenExpiry(tokens, jwt, now) == Ok(tokens[jwt].expiration)
    ensures tokens[jwt].expiration > now
  {
  }

  /** The scheme prefix of an Authorization header carrying a token. */
  const BEARER_PREFIX: string := "Bearer "

  /**
   * The token of an Authorization header: what follows "Bearer ", when the
   * header is present and starts with it.
   */
  function BearerToken(header: Option<string>): (t: Option<string>)
    ensures t.Some? <==> header.Some? && StartsWith(header.value, BEARER_PREFIX)
    ensures t.Some? ==> header.value == BEARER_PREFIX + t.value
  {
    if header.Some? && StartsWith(header.value, BEARER_PREFIX) then
      assert header.value == header.value[..|BEARER_PREFIX|] + header.value[|BEARER_PREFIX|..];
      Some(header.value[|BEARER_PREFIX|..])
    else None
  }

  /** Reading the token back out of the header built from it gives the token. */
  lemma BearerRoundTrip(t: string)
    ensures BearerToken(Some(BEARER_PREFIX + t)) == Some(t)
  {
    assert (BEARER_PREFIX + t)[..|BEARER_PREFIX|] == BEARER_PREFIX;
  }
}
