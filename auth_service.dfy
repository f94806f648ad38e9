/**
 * Login with failed-attempt lockout, and logout by blacklisting the token.
 *
 * The lockout is a small state machine on three fields of the user:
 * a failure inside the one-hour window counts up, a failure after a quiet
 * hour restarts the count at one, the fifth counted failure locks the
 * account for a day, and a successful login clears all three fields. A
 * locked account refuses every attempt, right or wrong, and is not
 * changed by it; the lock lapses lazily once its instant has passed.
 */
module AuthService {
  import opened Base
  import opened Entities
  import opened UserRepository
  import opened Jwt
  import opened Store

  /** The number of counted failures that locks an account. */
  const MAX_FAILED_ATTEMPTS: int := 5

  /** Duration.toHours of a span in seconds: whole hours, truncated toward zero. */
  function WholeHours(seconds: int): (h: int)
    ensures h >= 1 <==> seconds >= HOUR
    ensures seconds >= 0 ==> h * HOUR <= seconds < (h + 1) * HOUR
    ensures seconds < 0 ==> h <= 0
  {
    if seconds >= 0 then seconds / HOUR else -((-seconds) / HOUR)
  }

  /** checkAccountLock refuses the attempt: a lock is set and still ahead. */
  predicate IsLocked(u: User, now: int)
  {
    u.lockedUntil.Some? && now < u.lockedUntil.value
  }

  /** The lockout fields are the only ones a login attempt may change. */
  predicate SameExceptLockout(u: User, v: User)
  {
    v == u.(failedAttempts := v.failedAttempts, lastFailedAttempt := v.lastFailedAttempt, lockedUntil := v.lockedUntil)
  }

  /**
   * processFailedAttempt: the count restarts at one when there was no
   * earlier failure or the last one is a whole hour or more ago, and
   * otherwise goes up by one; the failure instant is recorded, and a count
   * of five or more locks the account until a day from now.
   */
  function RecordFailure(u: User, now: int): (v: User)
    ensures SameExceptLockout(u, v)
    ensures v.lastFailedAttempt == Some(now)
    ensures v.failedAttempts ==
      if u.lastFailedAttempt.None? || now - u.lastFailedAttempt.value >= HOUR then 1 else u.failedAttempts + 1
    ensures v.failedAttempts >= MAX_FAILED_ATTEMPTS ==> v.lockedUntil == Some(now + DAY)
    ensures v.failedAttempts < MAX_FAILED_ATTEMPTS ==> v.lockedUntil == u.lockedUntil
  {
    var count :=
      if u.lastFailedAttempt.None? || WholeHours(now - u.lastFailedAttempt.value) >= 1 then 1
      else u.failedAttempts + 1;
    u.(failedAttempts := count,
       lastFailedAttempt := Some(now),
       lockedUntil := if count >= MAX_FAILED_ATTEMPTS then Some(now + DAY) else u.lockedUntil)
  }

  /** resetFailedAttempts: clears the three fields when any failure is counted. */
  function ResetFailures(u: User): (v: User)
    ensures SameExceptLockout(u, v)
    ensures u.failedAttempts > 0 ==> v.failedAttempts == 0 && v.lastFailedAttempt.None? && v.lockedUntil.None?
    ensures u.failedAttempts <= 0 ==> v == u
  {
    if u.failedAttempts > 0 then u.(failedAttempts := 0, lastFailedAttempt := None, lockedUntil := None) else u
  }

  /** What a login attempt on an existing, live account comes to. */
  datatype AttemptResult = LockedOut(until: int) | BadCredentials | Authenticated

  /** The outcome of one attempt and the user row it leaves behind. */
  datatype Step = Step(outcome: AttemptResult, user: User)

  /**
   * One login attempt on a found account: refused while locked (whatever
   * the password), counted as a failure on a wrong password, and clearing
   * the counters on a right one.
   */
  function Attempt(u: User, passwordOk: bool, now: int): (s: Step)
    ensures SameExceptLockout(u, s.user)
    ensures s.outcome.LockedOut? <==> IsLocked(u, now)
    ensures s.outcome.LockedOut? ==> s.user == u && s.outcome.until == u.lockedUntil.value
    ensures s.outcome == Authenticated <==> !IsLocked(u, now) && passwordOk
    ensures s.outcome == BadCredentials ==> s.user.lastFailedAttempt == Some(now)
    ensures s.outcome == BadCredentials && u.failedAttempts >= 0 ==> s.user.failedAttempts >= 1
  {
    if IsLocked(u, now) then Step(LockedOut(u.lockedUntil.value), u)
    else if !passwordOk then Step(BadCredentials, RecordFailure(u, now))
    else Step(Authenticated, ResetFailures(u))
  }

  /**
   * The lockout fields agree with each other: the count is not negative,
   * it is zero exactly when no failure instant is recorded, and a lock
   * never outlasts a day after the last recorded failure.
   */
  predicate LockoutConsistent(u: User)
  {
    u.failedAttempts >= 0
    && (u.failedAttempts == 0 <==> u.lastFailedAttempt.None?)
    && (u.lockedUntil.Some? ==> u.lastFailedAttempt.Some? && u.lockedUntil.value <= u.lastFailedAttempt.value + DAY)
  }

  /** With a clock that does not run backwards, every attempt keeps the lockout fields consistent. */
  lemma AttemptKeepsConsistent(u: User, passwordOk: bool, now: int)
    requires LockoutConsistent(u)
    requires u.lastFailedAttempt.Some? ==> u.lastFailedAttempt.value <= now
    ensures LockoutConsistent(Attempt(u, passwordOk, now).user)
  {
  }

  /** A new account (no failure recorded) is consistent. */
  lemma FreshAccountConsistent(u: User)
    requires u.failedAttempts == 0 && u.lastFailedAttempt.None? && u.lockedUntil.None?
    ensures LockoutConsistent(u)
    ensures !IsLocked(u, 0) && forall now :: !IsLocked(u, now)
  {
  }

  /**
   * A successful login leaves a consistent account fully unlocked: no
   * failures counted, no failure instant, no lock.
   */
  lemma SuccessClearsLockout(u: User, now: int)
    requires LockoutConsistent(u) && !IsLocked(u, now)
    ensures Attempt(u, true, now).outcome == Authenticated
    ensures Attempt(u, true, now).user.failedAttempts == 0
    ensures Attempt(u, true, now).user.lastFailedAttempt.None?
    ensures Attempt(u, true, now).user.lockedUntil.None?
  {
  }

  /**
   * While an account is locked, neither the right nor the wrong password
   * gets in, and the attempt changes nothing.
   */
  lemma LockedRefusesEveryPassword(u: User, now: int, passwordOk: bool)
    requires IsLocked(u, now)
    ensures Attempt(u, passwordOk, now) == Attempt(u, !passwordOk, now)
    ensures Attempt(u, passwordOk, now).user == u
    ensures Attempt(u, passwordOk, now).outcome == LockedOut(u.lockedUntil.value)
  {
  }

  /**
   * The sliding window: a failure a whole hour or more after the previous
   * one counts as the first, and does not lock.
   */
  lemma WindowReset(u: User, now: int)
    requires !IsLocked(u, now)
    requires u.lastFailedAttempt.Some? && now - u.lastFailedAttempt.value >= HOUR
    ensures Attempt(u, false, now).user.failedAttempts == 1
    ensures Attempt(u, false, now).user.lockedUntil == u.lockedUntil
    ensures !IsLocked(Attempt(u, false, now).user, now)
  {
  }

  /** A lock set at instant t holds for exactly one day and lapses by itself. */
  lemma LockLastsOneDay(u: User, t: int, later: int)
    requires !IsLocked(u, t)
    requires RecordFailure(u, t).failedAttempts >= MAX_FAILED_ATTEMPTS
    ensures IsLocked(RecordFailure(u, t), later) <==> later < t + DAY
  {
  }

  /** The account after a series of failed attempts at the given instants. */
  function Replay(u: User, times: seq<int>): User
    decreases |times|
  {
    if times == [] then u
    else Attempt(Replay(u, times[..|times| - 1]), false, times[|times| - 1]).user
  }

  /**
   * The state after the first k failures of a series, when the series is
   * not yet locked (counting at least k) or locked for at least a day from
   * the first failure.
   */
  predicate Progress(u: User, times: seq<int>, k: nat, s: User)
    requires k <= |times| && |times| > 0
  {
    (s.lockedUntil == u.lockedUntil && k <= s.failedAttempts
      && (k > 0 ==> s.lastFailedAttempt == Some(times[k - 1]) && s.failedAttempts < MAX_FAILED_ATTEMPTS))
    || (s.lockedUntil.Some? && s.lockedUntil.value >= times[0] + DAY)
  }

  lemma {:induction false} ReplayProgress(u: User, times: seq<int>, k: nat)
    requires 0 < |times| && k <= |times|
    requires u.failedAttempts >= 0 && !IsLocked(u, times[0])
    requires forall i :: 0 < i < |times| ==> times[i - 1] <= times[i] && times[i] - times[i - 1] < HOUR
    requires forall i :: 0 <= i < |times| ==> times[0] <= times[i] < times[0] + DAY
    ensures Progress(u, times, k, Replay(u, times[..k]))
  {
    if k == 0 {
      assert times[..0] == [];
    } else {
      ReplayProgress(u, times, k - 1);
      var prefix := times[..k];
      assert prefix[..k - 1] == times[..k - 1];
      var s := Replay(u, times[..k - 1]);
      var t := times[k - 1];
      assert Replay(u, prefix) == Attempt(s, false, t).user;
      if s.lockedUntil.Some? && s.lockedUntil.value >= times[0] + DAY {
        assert IsLocked(s, t);
      } else {
        assert !IsLocked(s, t);
        if k > 1 {
          assert s.lastFailedAttempt == Some(times[k - 2]);
          assert 0 <= t - times[k - 2] < HOUR;
        }
      }
    }
  }

  /**
   * Five failed attempts, each less than an hour after the one before,
   * lock an account that was not locked at the first of them: the next
   * attempt, with any password, is refused.
   */
  lemma FiveFailuresLock(u: User, times: seq<int>, passwordOk: bool)
    requires |times| == MAX_FAILED_ATTEMPTS
    requires u.failedAttempts >= 0 && !IsLocked(u, times[0])
    requires forall i :: 0 < i < |times| ==> times[i - 1] <= times[i] && times[i] - times[i - 1] < HOUR
    ensures IsLocked(Replay(u, times), times[|times| - 1])
    ensures Attempt(Replay(u, times), passwordOk, times[|times| - 1]).outcome.LockedOut?
  {
    assert times[0] <= times[1] <= times[2] <= times[3] <= times[4];
    assert times[4] - times[0] < 4 * HOUR;
    ReplayProgress(u, times, |times|);
    assert times[..|times|] == times;
  }

  // ---------------------------------------------------------------- login

  /** The login request body; either field may be missing. */
  datatype LoginRequest = LoginRequest(email: Option<string>, password: Option<string>)

  /** The login response: token and a short summary of the user. */
  datatype LoginResponse = LoginResponse(token: string, id: UserId, name: string, email: string, isActive: bool)

  /** The refusal of a locked account, naming the formatted lock instant. */
  function LockedMessage(lockText: string): (m: string)
    ensures |m| > |lockText|
  {
    "Account is locked until: " + lockText + ". Try again later."
  }

  /**
   * login. `matches` is the password encoder's check of a raw password
   * against the stored hash; `lockText` formats a lock instant as
   * "yyyy-MM-dd HH:mm"; `token` is what the token service signs for the
   * user at this instant. The user row is saved when a failure is counted
   * or the counters are cleared; a failed login still keeps that update.
   */
  method Login(db: Database, request: Option<LoginRequest>, matches: (string, string) -> bool,
               lockText: int -> string, token: string, now: int) returns (r: Result<LoginResponse>)
    requires db.Valid()
    modifies db
    ensures db.Valid()
    ensures db.roles == old(db.roles) && db.expenses == old(db.expenses) && db.blacklist == old(db.blacklist)
    ensures request.None? || request.value.email.None? || request.value.password.None? ==>
      r == Err(ValidationEx("Email and password cannot be null")) && db.users == old(db.users)
    ensures request.Some? && request.value.email.Some? && request.value.password.Some? ==>
      var email := request.value.email.value;
      match FindActiveByEmail(old(db.users), email)
      case Absent => r == Err(UserNotFoundEx("User not found with email: " + email)) && db.users == old(db.users)
      case Duplicate => r.Err? && db.users == old(db.users)
      case Found(id) =>
        var u := old(db.users)[id];
        var passwordOk := matches(request.value.password.value, u.password);
        if !IsLocked(u, now) && passwordOk && Authorities(u, old(db.roles)).Err? then
          r.Err? && db.users == old(db.users)
        else
          var s := Attempt(u, passwordOk, now);
          db.users == old(db.users)[id := s.user]
          && match s.outcome
             case LockedOut(until) => r == Err(AuthenticationFailedEx(LockedMessage(lockText(until))))
             case BadCredentials => r == Err(AuthenticationFailedEx("Invalid email or password"))
             case Authenticated =>
               r == Ok(LoginResponse(token, id, Concat(u.firstName, u.lastName), u.email, u.isActive))
  {
    if request.None? || request.value.email.None? || request.value.password.None? {
      return Err(ValidationEx("Email and password cannot be null"));
    }
    var email := request.value.email.value;
    var password := request.value.password.value;
    var found := FindActiveByEmail(db.users, email);
    if found.Absent? {
      return Err(UserNotFoundEx("User not found with email: " + email));
    } else if found.Duplicate? {
      return Err(RuntimeEx("query did not return a unique result"));
    }
    var id := found.key;
    var user := db.users[id];
    // checkAccountLock
    if IsLocked(user, now) {
      return Err(AuthenticationFailedEx(LockedMessage(lockText(user.lockedUntil.value))));
    }
    // authenticationManager.authenticate: password check, then the authorities of the principal
    if !matches(password, user.password) {
      db.SaveUser(RecordFailure(user, now));
      return Err(AuthenticationFailedEx("Invalid email or password"));
    }
    if Authorities(user, db.roles).Err? {
      return Err(Authorities(user, db.roles).error);
    }
    if user.failedAttempts > 0 {
      db.SaveUser(ResetFailures(user));
    }
    if !IsEnabled(user) {
      return Err(AuthenticationFailedEx("User account is disabled"));
    }
    r := Ok(LoginResponse(token, id, Concat(user.firstName, user.lastName), user.email, user.isActive));
  }

  /** The disabled-account branch of login cannot be reached: the finder only returns active users. */
  lemma DisabledBranchUnreachable(users: UserTable, email: string)
    requires FindActiveByEmail(users, email).Found?
    ensures IsEnabled(users[FindActiveByEmail(users, email).key])
  {
    LoginFinderOnlyEnabled(users, email);
  }

  // ---------------------------------------------------------------- logout

  /**
   * Blacklisting a token: a record keyed by the token is present
   * afterwards; an existing record is kept as it is, so a token is never
   * recorded twice.
   */
  function Revoke(blacklist: map<string, BlacklistedToken>, token: string, expiry: int): (b: map<string, BlacklistedToken>)
    ensures b.Keys == blacklist.Keys + {token}
    ensures forall t :: t in blacklist ==> b[t] == blacklist[t]
    ensures token !in blacklist ==> b[token] == BlacklistedToken(token, expiry)
  {
    if token in blacklist then blacklist else blacklist[token := BlacklistedToken(token, expiry)]
  }

  /** Logging out twice with the same token leaves the blacklist as logging out once. */
  lemma RevokeIdempotent(blacklist: map<string, BlacklistedToken>, token: string, e1: int, e2: int)
    ensures Revoke(Revoke(blacklist, token, e1), token, e2) == Revoke(blacklist, token, e1)
  {
  }

  /**
   * logout: a blank token is a validation error, a forged or expired one
   * an authentication failure; a valid token is blacklisted with its own
   * expiry, unless it already is.
   */
  method Logout(db: Database, token: Option<string>, tokens: TokenOracle, now: int) returns (r: Outcome)
    requires db.Valid()
    modifies db
    ensures db.Valid()
    ensures db.users == old(db.users) && db.roles == old(db.roles) && db.expenses == old(db.expenses)
    ensures NullOrBlank(token) ==> r == Fail(ValidationEx("Token cannot be null or blank"))
    ensures !NullOrBlank(token) && !IsTokenValid(tokens, token.value, now) ==>
      r == Fail(AuthenticationFailedEx("Invalid or expired token"))
    ensures r.Pass? <==> !NullOrBlank(token) && IsTokenValid(tokens, token.value, now)
    ensures r.Pass? ==> db.blacklist == Revoke(old(db.blacklist), token.value, tokens[token.value].expiration)
    ensures r.Fail? ==> db.blacklist == old(db.blacklist)
  {
    if NullOrBlank(token) {
      return Fail(ValidationEx("Token cannot be null or blank"));
    }
    var jwt := token.value;
    if !IsTokenValid(tokens, jwt, now) {
      return Fail(AuthenticationFailedEx("Invalid or expired token"));
    }
    if jwt in db.blacklist {
      return Pass;
    }
    ValidTokenParses(tokens, jwt, now);
    var expiry := GetTokenExpiry(tokens, jwt, now);
    db.SaveToken(BlacklistedToken(jwt, expiry.value));
    r := Pass;
  }
}
