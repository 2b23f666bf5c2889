/** The two gates in front of the handlers: `verifyJwt`, which picks the access
    token, verifies it and loads the user it names, and `authorAndAdmin`, which
    lets only authors and admins through. */
module Middleware {
  import opened Http
  import opened Text
  import opened Foreign
  import opened Tables
  import opened UserModel
  import opened Db
  import opened Auth
  import opened Books

  // ---------------------------------------------------------------------------
  // verifyJwt

  /** The token `verifyJwt` reads: the access-token cookie when it is set and not
      empty; otherwise the Authorization header, when sent, with its first
      occurrence of the bearer prefix removed. */
  function SelectToken(cookie: Option<string>, header: Option<string>): (r: Option<string>)
    ensures r.None? <==> !Given(cookie) && header.None?
    ensures Given(cookie) ==> r == cookie
  {
    if Given(cookie) then cookie
    else if header.Some? then Some(ReplaceFirst(header.value, "Bearer ", ""))
    else None
  }

  /** A set, non-empty cookie is used whatever header comes with it. */
  lemma CookieWins(cookie: string, header: Option<string>)
    requires cookie != ""
    ensures SelectToken(Some(cookie), header) == Some(cookie)
  {
  }

  /** Without a usable cookie, `Bearer <token>` yields `<token>`. */
  lemma BearerStripped(cookie: Option<string>, token: string)
    requires !Given(cookie)
    ensures SelectToken(cookie, Some("Bearer " + token)) == Some(token)
  {
    ReplaceFirstAtStart("Bearer ", token);
  }

  /** Without a usable cookie, the first `"Bearer "` of the header is cut out wherever
      it stands, and a header without one is taken whole. */
  lemma HeaderFirstBearerCut(cookie: Option<string>, header: string, k: nat)
    requires !Given(cookie)
    ensures OccursAt(header, "Bearer ", k) && (forall j :: 0 <= j < k ==> !OccursAt(header, "Bearer ", j))
            ==> SelectToken(cookie, Some(header)) == Some(header[..k] + header[k + 7..])
    ensures IndexOf(header, "Bearer ").None? ==> SelectToken(cookie, Some(header)) == Some(header)
  {
    if OccursAt(header, "Bearer ", k) && (forall j :: 0 <= j < k ==> !OccursAt(header, "Bearer ", j)) {
      ReplaceFirstRemovesFirst(header, "Bearer ", k);
    }
  }

  /** `verifyJwt`'s decision: no token (401 "Unauthorized"); a token that fails to
      verify, or whose `_id` is not an ObjectId so that `findById` throws (401 with
      the thrown message); an id naming no user (401 "Invalid Access Token");
      otherwise the stored user, password included. */
  function Authenticate(s: State, svc: Services, cookie: Option<string>, header: Option<string>,
                        now: int): (r: Result<UserRecord>)
    ensures r.Err? ==> r.status == 401
    ensures r.Ok? ==> exists id :: id in s.users.rows && s.users.rows[id] == r.value
  {
    var token := SelectToken(cookie, header);
    if !Given(token) then Err(401, Unauthorized)
    else
      match svc.verify(token.value, now)
      case None => Err(401, TokenRejected)
      case Some(id) =>
        if !svc.isValidId(id) then Err(401, TokenRejected)
        else if id !in s.users.rows then Err(401, InvalidAccessToken)
        else Ok(s.users.rows[id])
  }

  /** Every refusal is a 401; a request passes exactly when its token verifies to
      the id of a stored user, and then carries that user. */
  lemma AuthenticateOutcome(s: State, svc: Services, cookie: Option<string>, header: Option<string>, now: int)
    requires Consistent(s, svc)
    ensures var r := Authenticate(s, svc, cookie, header, now);
            var token := SelectToken(cookie, header);
      && (r.Err? ==> r.status == 401)
      && (!Given(token) ==> r == Err(401, Unauthorized))
      && (r.Ok? <==> Given(token) && svc.verify(token.value, now).Some?
                     && svc.verify(token.value, now).value in s.users.rows)
      && (r.Ok? ==> r.value.id == svc.verify(token.value, now).value
                    && r.value == s.users.rows[r.value.id])
  {
  }

  /** What the middleware relies on from jsonwebtoken. A signed token is never
      empty. An access token expires `ttlS` whole seconds after its `iat`: at clock
      reading `t` (ms) it verifies to the `_id` it was signed with while the current
      whole second is before `iat + ttlS`, and fails from then on. A refresh token
      is signed with the refresh secret, so the access-token verify refuses it. */
  ghost predicate JwtExpiresAfter(svc: Services, ttlS: int) {
    forall c, t :: svc.sign(c).Some? ==>
      && svc.sign(c).value != ""
      && svc.verify(svc.sign(c).value, t) ==
           (if c.AccessClaims? && EpochSeconds(t) < c.issuedAt + ttlS then Some(c.id) else None)
  }

  /** The access token a successful login sets as cookie authenticates later
      requests as the user who logged in, as that user is then stored, until the
      token expires; from then on it is refused with 401. The refresh token of the
      same login is refused at any time. */
  lemma LoginCookieAuthenticates(s: State, svc: Services, userName: Option<string>, email: Option<string>,
                                 password: string, now: int, ttlS: int, header: Option<string>, later: int)
    requires Consistent(s, svc) && JwtExpiresAfter(svc, ttlS)
    requires Login(s, svc, userName, email, password, now).0.Ok?
    ensures var (l, s') := Login(s, svc, userName, email, password, now);
            var r := Authenticate(s', svc, Some(l.value.accessToken), header, later);
      && (EpochSeconds(later) < EpochSeconds(now) + ttlS ==>
            l.value.user.id in s'.users.rows && r == Ok(s'.users.rows[l.value.user.id]))
      && (EpochSeconds(later) >= EpochSeconds(now) + ttlS ==> r == Err(401, TokenRejected))
      && Authenticate(s', svc, Some(l.value.refreshToken), header, later) == Err(401, TokenRejected)
  {
    LoginSuccess(s, svc, userName, email, password, now);
    LoginPreservesConsistent(s, svc, userName, email, password, now);
    var id := FindForLogin(s.users, svc, userName, email).value;
    var (l, s') := Login(s, svc, userName, email, password, now);
    var c := AccessClaimsOf(s.users.rows[id], now);
    assert Some(l.value.accessToken) == svc.sign(c);
    assert svc.verify(l.value.accessToken, later) ==
           (if EpochSeconds(later) < EpochSeconds(now) + ttlS then Some(c.id) else None);
    var c' := RefreshClaimsOf(s.users.rows[id], now);
    assert Some(l.value.refreshToken) == svc.sign(c');
    assert svc.verify(l.value.refreshToken, later).None?;
  }

  /** The request as the middleware sees it: the cookie and header it arrived with,
      the user `verifyJwt` attaches, and whether `next()` was called. */
  class Request {
    const cookieToken: Option<string>
    const authorization: Option<string>
    var user: Option<UserRecord>
    var nextCalled: bool

    constructor (cookieToken: Option<string>, authorization: Option<string>)
      ensures this.cookieToken == cookieToken && this.authorization == authorization
      ensures user.None? && !nextCalled
    {
      this.cookieToken := cookieToken;
      this.authorization := authorization;
      user := None;
      nextCalled := false;
    }

    /** `req.user = user; next()` on success; on failure the error goes to the
        error handler and neither happens. */
    method Admit(r: Result<UserRecord>)
      modifies this
      ensures r.Ok? ==> user == Some(r.value) && nextCalled
      ensures r.Err? ==> user == old(user) && nextCalled == old(nextCalled)
    {
      if r.Ok? {
        user := Some(r.value);
        nextCalled := true;
      }
    }
  }

  // ---------------------------------------------------------------------------
  // authorAndAdmin

  /** Pass on to `next()`, or answer at once with a status. */
  datatype Gate = Allow | Reject(status: int, reason: Reason)

  /** A caller whose role is neither author nor admin is answered 403 at once. */
  function AuthorAndAdmin(caller: UserRecord): (g: Gate)
    ensures g.Allow? <==> caller.role == Author || caller.role == Admin
    ensures g.Reject? ==> g == Reject(403, RoleForbidden)
  {
    RoleNameRoundTrip(caller.role);
    if RoleName(caller.role) != "author" && RoleName(caller.role) != "admin" then Reject(403, RoleForbidden)
    else Allow
  }

  /** Customers and plain users are turned away, so `next()` is never reached for them. */
  lemma CustomersAndUsersRejected(caller: UserRecord)
    requires caller.role == Customer || caller.role == RegularUser
    ensures AuthorAndAdmin(caller) == Reject(403, RoleForbidden)
  {
  }
}
