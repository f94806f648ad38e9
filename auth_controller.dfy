/**
 * The logout endpoint: the bearer token is taken from the Authorization
 * header and handed to the authentication service; a failure of the
 * service is answered by the global exception handler.
 */
module AuthController {
  import opened Base
  import opened Entities
  import opened Jwt
  import opened Store
  import AuthService
  import JwtFilter
  import opened ExceptionHandler

  const MISSING_TOKEN: string := "Missing token"
  const LOGGED_OUT: string := "Logout successful"

  /**
   * logout: a header that is missing or does not start with "Bearer " is
   * answered with 400 "Missing token" and nothing changes. Otherwise the
   * rest of the header is the token: a blank one is answered 400 by the
   * validation handler, a forged or expired one 401 by the authentication
   * handler, and a valid one is blacklisted and answered 200.
   */
  method Logout(db: Database, header: Option<string>, tokens: TokenOracle, now: int) returns (resp: Response)
    requires db.Valid()
    modifies db
    ensures db.Valid()
    ensures db.users == old(db.users) && db.roles == old(db.roles) && db.expenses == old(db.expenses)
    ensures BearerToken(header).None? ==> resp == Response(400, MISSING_TOKEN) && db.blacklist == old(db.blacklist)
    ensures BearerToken(header).Some? && IsBlank(BearerToken(header).value) ==>
      resp == Response(400, "Token cannot be null or blank") && db.blacklist == old(db.blacklist)
    ensures BearerToken(header).Some? && !IsBlank(BearerToken(header).value)
            && !IsTokenValid(tokens, BearerToken(header).value, now) ==>
      resp == Response(401, "Invalid or expired token") && db.blacklist == old(db.blacklist)
    ensures resp.status == 200 <==>
      BearerToken(header).Some? && !IsBlank(BearerToken(header).value) && IsTokenValid(tokens, BearerToken(header).value, now)
    ensures resp.status == 200 ==>
      var t := BearerToken(header).value;
      resp.body == LOGGED_OUT && db.blacklist == AuthService.Revoke(old(db.blacklist), t, tokens[t].expiration)
  {
    var token := BearerToken(header);
    if token.None? {
      return Response(400, MISSING_TOKEN);
    }
    var outcome := AuthService.Logout(db, token, tokens, now);
    match outcome
    case Fail(e) => resp := Handle(e);
    case Pass => resp := Response(200, LOGGED_OUT);
  }

  /**
   * After a successful logout the same header never signs a request in
   * again, whatever the token's own validity and whoever it names.
   */
  lemma LoggedOutHeaderRefused(header: Option<string>, blacklist: map<string, BlacklistedToken>, expiry: int,
                               tokens: TokenOracle, users: map<UserId, User>, roles: map<RoleId, Role>,
                               now: int, signedIn: bool)
    requires BearerToken(header).Some?
    ensures JwtFilter.Decide(header, AuthService.Revoke(blacklist, BearerToken(header).value, expiry),
                             tokens, users, roles, now, signedIn).install.None?
  {
    JwtFilter.BlacklistedNeverAuthenticates(header, AuthService.Revoke(blacklist, BearerToken(header).value, expiry),
                                            tokens, users, roles, now, signedIn);
  }
}
