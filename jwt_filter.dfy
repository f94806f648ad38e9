/**
 * The per-request authentication filter. It reads the bearer token, skips
 * blank and blacklisted tokens, reads the subject, and signs the request
 * in as that user when no one is signed in yet and the token is still
 * valid. Every failure on the way is swallowed: the filter itself never
 * rejects a request, it only leaves it anonymous for the authorization
 * rules to judge.
 */
module JwtFilter {
  import opened Base
  import opened Entities
  import opened UserRepository
  import opened Jwt
  import opened Store

  /** The authentication placed in the security context: principal and granted authorities. */
  datatype Authentication = Authentication(principal: User, authorities: set<string>)

  /**
   * What the filter decides for one request: whether it passes the request
   * on from inside its try block (an early return), and the
   * authentication to install, if any.
   */
  datatype Decision = Decision(early: bool, install: Option<Authentication>)

  /** loadUserByUsername: a blank name, no active user or several are all failures. */
  function LoadUserByUsername(users: UserTable, email: string): (r: Result<User>)
    ensures r.Ok? <==> !IsBlank(email) && FindActiveByEmail(users, email).Found?
    ensures r.Ok? ==> r.value == users[FindActiveByEmail(users, email).key] && IsLive(r.value) && r.value.email == email
  {
    if IsBlank(email) then Err(RuntimeEx("Email cannot be empty"))
    else match FindActiveByEmail(users, email)
      case Absent => Err(RuntimeEx("User not found with email: " + email))
      case Duplicate => Err(DatabaseEx("Failed to load user due to database error"))
      case Found(id) => Ok(users[id])
  }

  /**
   * The filter's decision. A request is signed in exactly when nobody is
   * signed in yet, the header carries a bearer token that is not blank,
   * not blacklisted and still valid, its subject names one active user,
   * and that user's authorities can be read.
   */
  function Decide(header: Option<string>, blacklist: map<string, BlacklistedToken>, tokens: TokenOracle,
                  users: UserTable, roles: map<RoleId, Role>, now: int, signedIn: bool): (d: Decision)
    ensures d.install.Some? ==> !d.early
    ensures d.install.Some? <==>
      !signedIn && BearerToken(header).Some?
      && !IsBlank(BearerToken(header).value)
      && BearerToken(header).value !in blacklist
      && IsTokenValid(tokens, BearerToken(header).value, now)
      && tokens[BearerToken(header).value].subject.Some?
      && LoadUserByUsername(users, tokens[BearerToken(header).value].subject.value).Ok?
      && Authorities(LoadUserByUsername(users, tokens[BearerToken(header).value].subject.value).value, roles).Ok?
    ensures d.install.Some? ==>
      var email := tokens[BearerToken(header).value].subject.value;
      d.install.value.principal == LoadUserByUsername(users, email).value
      && d.install.value.principal.email == email
      && d.install.value.authorities == Authorities(d.install.value.principal, roles).value
    ensures d.early <==>
      BearerToken(header).None?
      || IsBlank(BearerToken(header).value)
      || BearerToken(header).value in blacklist
      || (ExtractUsername(tokens, BearerToken(header).value, now).Ok?
          && NullOrBlank(ExtractUsername(tokens, BearerToken(header).value, now).value))
  {
    var bearer := BearerToken(header);
    if bearer.None? then Decision(true, None)
    else
      var jwt := bearer.value;
      if IsBlank(jwt) then Decision(true, None)
      else if jwt in blacklist then Decision(true, None)
      else
        var username := ExtractUsername(tokens, jwt, now);
        if username.Err? then Decision(false, None)
        else if NullOrBlank(username.value) then Decision(true, None)
        else if signedIn then Decision(false, None)
        else
          var user := LoadUserByUsername(users, username.value.value);
          if user.Err? then Decision(false, None)
          else if !IsTokenValid(tokens, jwt, now) then Decision(false, None)
          else
            var authorities := Authorities(user.value, roles);
            if authorities.Err? then Decision(false, None)
            else Decision(false, Some(Authentication(user.value, authorities.value)))
  }

  /** A blacklisted token never signs a request in, however valid it is otherwise. */
  lemma BlacklistedNeverAuthenticates(header: Option<string>, blacklist: map<string, BlacklistedToken>,
                                      tokens: TokenOracle, users: UserTable, roles: map<RoleId, Role>, now: int, signedIn: bool)
    requires BearerToken(header).Some? && BearerToken(header).value in blacklist
    ensures Decide(header, blacklist, tokens, users, roles, now, signedIn) == Decision(true, None)
  {
  }

  /** An authentication already in the context is never replaced. */
  lemma ExistingAuthenticationKept(header: Option<string>, blacklist: map<string, BlacklistedToken>,
                                   tokens: TokenOracle, users: UserTable, roles: map<RoleId, Role>, now: int)
    ensures Decide(header, blacklist, tokens, users, roles, now, true).install.None?
  {
  }

  /** An expired token signs nobody in: validity ends at the expiration instant. */
  lemma ExpiredTokenAnonymous(header: Option<string>, blacklist: map<string, BlacklistedToken>,
                              tokens: TokenOracle, users: UserTable, roles: map<RoleId, Role>, now: int, signedIn: bool)
    requires BearerToken(header).Some? && BearerToken(header).value in tokens
    requires tokens[BearerToken(header).value].expiration <= now
    ensures Decide(header, blacklist, tokens, users, roles, now, signedIn).install.None?
  {
  }

  /** The request state the filter acts on: the security context and the downstream chain. */
  class RequestContext {
    /** SecurityContextHolder's current authentication. */
    var authentication: Option<Authentication>
    /** How many times the rest of the filter chain has been invoked. */
    var chainCalls: nat

    constructor(existing: Option<Authentication>)
      ensures authentication == existing && chainCalls == 0
    {
      authentication := existing;
      chainCalls := 0;
    }

    /** filterChain.doFilter: the downstream chain runs once, and may throw. */
    method InvokeChain(downstreamThrows: bool) returns (thrown: bool)
      modifies this
      ensures chainCalls == old(chainCalls) + 1
      ensures authentication == old(authentication)
      ensures thrown == downstreamThrows
    {
      chainCalls := chainCalls + 1;
      thrown := downstreamThrows;
    }
  }

  /**
   * doFilterInternal. Its early returns pass the request on from inside
   * the try block, so when the downstream chain throws there the filter
   * swallows the exception and passes the request on a second time, after
   * the block; that second exception leaves the filter. The filter adds
   * nothing of its own to what escapes.
   */
  method DoFilterInternal(ctx: RequestContext, db: Database, header: Option<string>, tokens: TokenOracle,
                          now: int, downstreamThrows: bool) returns (escaped: bool)
    modifies ctx
    ensures
      var d := Decide(header, db.blacklist, tokens, db.users, db.roles, now, old(ctx.authentication).Some?);
      ctx.authentication == (if d.install.Some? then d.install else old(ctx.authentication))
      && ctx.chainCalls == old(ctx.chainCalls) + (if d.early && downstreamThrows then 2 else 1)
    ensures escaped == downstreamThrows
  {
    var d := Decide(header, db.blacklist, tokens, db.users, db.roles, now, ctx.authentication.Some?);
    if d.early {
      var thrown := ctx.InvokeChain(downstreamThrows);
      if !thrown {
        return false;
      }
      // the catch block logs the exception; control reaches the final call below
    } else if d.install.Some? {
      ctx.authentication := d.install;
    }
    escaped := ctx.InvokeChain(downstreamThrows);
  }
}
