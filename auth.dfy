/** The authentication controller as functions from a database state to a reply
    and the next state: `registerUser`, `verifyOTP`, `loginUser` and
    `generateAccessAndRefreshToken`. Every guard answers before any write. */
module Auth {
  import opened Http
  import opened Text
  import opened Foreign
  import opened Tables
  import opened UserModel
  import opened Db

  /** The body of a registration request. */
  datatype RegisterForm = RegisterForm(userName: string, email: string, password: string,
                                       phone: string, role: string)

  /** Some field of the registration form is empty once trimmed. */
  predicate AnyBlank(f: RegisterForm) {
    Trim(f.userName) == "" || Trim(f.email) == "" || Trim(f.password) == ""
    || Trim(f.phone) == "" || Trim(f.role) == ""
  }

  /** The first user whose email or phone matches; the schema trims both filter values. */
  function FindByEmailOrPhone(users: Table<UserRecord>, email: string, phone: string): (r: Option<Id>)
    ensures users.Valid() ==> (r.None? <==> forall k :: k in users.rows ==>
                           users.rows[k].email != Trim(email) && users.rows[k].phone != Trim(phone))
  {
    users.FindFirst((u: UserRecord) => u.email == Trim(email) || u.phone == Trim(phone))
  }

  /** The first user whose email matches. */
  function FindByEmail(users: Table<UserRecord>, email: string): (r: Option<Id>)
    ensures r.Some? ==> r.value in users.rows && users.rows[r.value].email == Trim(email)
    ensures users.Valid() ==> (r.None? <==> forall k :: k in users.rows ==> users.rows[k].email != Trim(email))
  {
    users.FindFirst((u: UserRecord) => u.email == Trim(email))
  }

  /** One clause of a filter: an absent value behaves as the database treats `undefined`. */
  predicate FieldMatches(svc: Services, stored: string, submitted: Option<string>) {
    match submitted
    case None => svc.undefinedMatchesAll
    case Some(v) => stored == Trim(v)
  }

  predicate LoginMatch(svc: Services, u: UserRecord, userName: Option<string>, email: Option<string>) {
    FieldMatches(svc, u.userName, userName) || FieldMatches(svc, u.email, email)
  }

  /** The first user whose user name or email matches, as `loginUser` looks it up. */
  function FindForLogin(users: Table<UserRecord>, svc: Services, userName: Option<string>,
                        email: Option<string>): (r: Option<Id>)
    ensures r.Some? ==> r.value in users.rows && LoginMatch(svc, users.rows[r.value], userName, email)
    ensures users.Valid() ==>
      (r.None? <==> forall k :: k in users.rows ==> !LoginMatch(svc, users.rows[k], userName, email))
  {
    users.FindFirst((u: UserRecord) => LoginMatch(svc, u, userName, email))
  }

  /** A JavaScript value that is neither `undefined` nor the empty string. */
  predicate Truthy(v: Option<string>) {
    v.Some? && v.value != ""
  }

  /** The document `User.create` stores: the schema trims the trimmed fields and
      the pre-save hook hashes the password, which is not trimmed. */
  function NewUser(id: Id, f: RegisterForm, avatar: Url, role: Role, hash: string -> string): (u: UserRecord)
    ensures u.id == id && u.email == Trim(f.email) && u.phone == Trim(f.phone)
    ensures u.password == hash(f.password)
    ensures !u.isVerified && u.otp.None? && u.otpExpires.None? && u.refreshToken.None?
  {
    PreSave(UserRecord(id, Trim(f.userName), Trim(f.email), f.password, avatar, role, None,
                       Trim(f.phone), None, None, None, false), true, hash)
  }

  /** `registerUser`'s guards, in order: blank fields and an existing email or phone
      answer 400, a missing avatar 400, a failed upload 500, and a role or phone the
      schema refuses 500 (mongoose validation at `User.create`). Otherwise the
      uploaded avatar's URL and the parsed role. */
  function RegisterChecks(s: State, svc: Services, f: RegisterForm, avatarPath: Option<string>)
    : (r: Result<(Url, Role)>)
    ensures r.Err? ==> r.status == 400 || r.status == 500
    ensures r.Ok? ==> !AnyBlank(f) && avatarPath.Some? && svc.upload(avatarPath.value) == Some(r.value.0)
                      && RoleName(r.value.1) == Trim(f.role) && IsTenDigitPhone(Trim(f.phone))
  {
    if AnyBlank(f) then Err(400, MissingFields)
    else if FindByEmailOrPhone(s.users, f.email, f.phone).Some? then Err(400, UserExists)
    else if avatarPath.None? || avatarPath.value == "" then Err(400, AvatarMissing)
    else
      match svc.upload(avatarPath.value)
      case None => Err(500, AvatarUploadFailed)
      case Some(url) =>
        var role := ParseRole(Trim(f.role));
        if role.None? || !IsTenDigitPhone(Trim(f.phone)) then Err(500, SchemaRejected)
        else Ok((url, role.value))
  }

  /** `registerUser`: once the guards pass, the user is created unverified, given an
      OTP and mailed. A failed mail answers 500 but the user stays stored. The reply
      carries only the email. */
  function Register(s: State, svc: Services, f: RegisterForm, avatarPath: Option<string>,
                    newId: Id, now: int, draw: OtpDraw): (r: (Result<string>, State))
    ensures r.1.books == s.books && r.1.categories == s.categories
    ensures r.0.Err? && r.0.reason != EmailFailed ==> r.1 == s
    ensures r.0.Ok? ==> r.0.value == Trim(f.email)
    ensures forall k :: k in r.1.users.rows ==> k in s.users.rows || k == newId
  {
    match RegisterChecks(s, svc, f, avatarPath)
    case Err(st, why) => (Err(st, why), s)
    case Ok((url, role)) =>
      var (code, u) := IssueOtp(NewUser(newId, f, url, role, svc.hash), now, draw);
      var s' := s.(users := s.users.Insert(newId, u));
      if !svc.sendEmail(u.email, code) then (Err(500, EmailFailed), s')
      else (Ok(u.email), s')
  }

  /** `verifyOTP` (the handler). */
  function VerifyOtp(s: State, email: string, code: string, now: int): (r: (Result<Unit>, State))
    ensures r.1.books == s.books && r.1.categories == s.categories
    ensures r.0.Err? ==> r.1 == s
    ensures forall k :: k in r.1.users.rows <==> k in s.users.rows
  {
    match FindByEmail(s.users, email)
    case None => (Err(404, UserNotFound), s)
    case Some(id) =>
      var u := s.users.rows[id];
      if u.isVerified then (Err(400, AlreadyVerified), s)
      else
        var (ok, u') := CheckOtp(u, code, now);
        if !ok then (Err(400, InvalidOtp), s)
        else (Ok(Unit), s.(users := s.users.Put(id, u')))
  }

  /** `generateAccessAndRefreshToken`: signs both tokens and stores the refresh token
      in place of the previous one; every failure is a 500 and writes nothing. */
  function IssueTokens(s: State, svc: Services, id: Id, now: int): (r: (Result<(Token, Token)>, State))
    ensures r.1.books == s.books && r.1.categories == s.categories
    ensures r.0.Err? ==> r.0.status == 500 && r.1 == s
    ensures r.1.users.rows.Keys == s.users.rows.Keys
  {
    if id !in s.users.rows then (Err(500, TokenGenerationFailed), s)
    else
      var u := s.users.rows[id];
      var access := svc.sign(AccessClaimsOf(u, now));
      var refresh := svc.sign(RefreshClaimsOf(u, now));
      if access.None? || refresh.None? then (Err(500, TokenGenerationFailed), s)
      else (Ok((access.value, refresh.value)),
            s.(users := s.users.Put(id, u.(refreshToken := Some(refresh.value)))))
  }

  /** `select("-password -refreshToken")`: the user without those two fields. */
  datatype PublicUser = PublicUser(id: Id, userName: string, email: string, avatar: Url, role: Role,
                                   address: Option<string>, phone: string, otp: Option<string>,
                                   otpExpires: Option<int>, isVerified: bool)

  function Public(u: UserRecord): PublicUser {
    PublicUser(u.id, u.userName, u.email, u.avatar, u.role, u.address, u.phone, u.otp,
               u.otpExpires, u.isVerified)
  }

  datatype LoginReply = LoginReply(user: PublicUser, accessToken: Token, refreshToken: Token)

  /** `loginUser`: identifier required (400), user found (404), verified (403),
      password matches (401); then tokens are issued. */
  function Login(s: State, svc: Services, userName: Option<string>, email: Option<string>,
                 password: string, now: int): (r: (Result<LoginReply>, State))
    ensures r.1.books == s.books && r.1.categories == s.categories
    ensures r.0.Err? ==> r.1 == s
    ensures r.1.users.rows.Keys == s.users.rows.Keys
    ensures r.0.Ok? ==> r.0.value.user.isVerified
  {
    if !Truthy(userName) && !Truthy(email) then (Err(400, IdentifierRequired), s)
    else
      match FindForLogin(s.users, svc, userName, email)
      case None => (Err(404, UserDoesNotExist), s)
      case Some(id) =>
        var u := s.users.rows[id];
        if !u.isVerified then (Err(403, NotVerified), s)
        else if !svc.compare(password, u.password) then (Err(401, BadCredentials), s)
        else
          match IssueTokens(s, svc, id, now)
          case (Err(st, why), s') => (Err(st, why), s')
          case (Ok((access, refresh)), s') =>
            (Ok(LoginReply(Public(s'.users.rows[id]), access, refresh)), s')
  }

  // ---------------------------------------------------------------------------
  // registerUser

  /** The guards answer in the source's order, and none of them writes. */
  lemma RegisterGuards(s: State, svc: Services, f: RegisterForm, avatarPath: Option<string>,
                       newId: Id, now: int, draw: OtpDraw)
    requires s.users.Valid()
    ensures var r := RegisterChecks(s, svc, f, avatarPath);
      && (AnyBlank(f) ==> r == Err(400, MissingFields))
      && (!AnyBlank(f)
          && (exists k :: k in s.users.rows
                && (s.users.rows[k].email == Trim(f.email) || s.users.rows[k].phone == Trim(f.phone)))
          ==> r == Err(400, UserExists))
      && (!AnyBlank(f) && FindByEmailOrPhone(s.users, f.email, f.phone).None? &&
          (avatarPath.None? || avatarPath.value == "")
          ==> r == Err(400, AvatarMissing))
      && (!AnyBlank(f) && FindByEmailOrPhone(s.users, f.email, f.phone).None? &&
          avatarPath.Some? && avatarPath.value != "" && svc.upload(avatarPath.value).None?
          ==> r == Err(500, AvatarUploadFailed))
    ensures var r := RegisterChecks(s, svc, f, avatarPath);
      && (!AnyBlank(f) && FindByEmailOrPhone(s.users, f.email, f.phone).None? &&
          avatarPath.Some? && avatarPath.value != "" && svc.upload(avatarPath.value).Some? &&
          (ParseRole(Trim(f.role)).None? || !IsTenDigitPhone(Trim(f.phone)))
          ==> r == Err(500, SchemaRejected))
      && (r.Ok? <==>
            && !AnyBlank(f)
            && (forall k :: k in s.users.rows ==>
                  s.users.rows[k].email != Trim(f.email) && s.users.rows[k].phone != Trim(f.phone))
            && avatarPath.Some? && avatarPath.value != "" && svc.upload(avatarPath.value).Some?
            && ParseRole(Trim(f.role)).Some? && IsTenDigitPhone(Trim(f.phone)))
    ensures var (r, s') := Register(s, svc, f, avatarPath, newId, now, draw);
      (r.Err? && r.reason != EmailFailed ==> s' == s)
  {
    if RegisterChecks(s, svc, f, avatarPath).Ok? {
      RegisterCreatesUnverified(s, svc, f, avatarPath, newId, now, draw);
    }
  }

  /** Guards that pass mean: no field blank, no user with that email or phone, an
      uploaded avatar, a role of the enum and a ten-digit phone. */
  lemma RegisterChecksPass(s: State, svc: Services, f: RegisterForm, avatarPath: Option<string>)
    requires s.users.Valid()
    requires RegisterChecks(s, svc, f, avatarPath).Ok?
    ensures var (url, role) := RegisterChecks(s, svc, f, avatarPath).value;
      && !AnyBlank(f)
      && (forall k :: k in s.users.rows ==>
            s.users.rows[k].email != Trim(f.email) && s.users.rows[k].phone != Trim(f.phone))
      && avatarPath.Some? && svc.upload(avatarPath.value) == Some(url)
      && RoleName(role) == Trim(f.role) && IsTenDigitPhone(Trim(f.phone))
  {
    assert !AnyBlank(f) && FindByEmailOrPhone(s.users, f.email, f.phone).None?;
    var url := svc.upload(avatarPath.value);
    var role := ParseRole(Trim(f.role));
    assert url.Some? && role.Some? && IsTenDigitPhone(Trim(f.phone));
    assert RegisterChecks(s, svc, f, avatarPath).value == (url.value, role.value);
  }

  /** A registration whose guards pass (it succeeds, or only the mail fails) inserts
      exactly one unverified user carrying a fresh OTP, and changes nothing else;
      the reply is the stored email. */
  lemma RegisterCreatesUnverified(s: State, svc: Services, f: RegisterForm,
                                  avatarPath: Option<string>, newId: Id, now: int, draw: OtpDraw)
    requires RegisterChecks(s, svc, f, avatarPath).Ok?
    ensures var (r, s') := Register(s, svc, f, avatarPath, newId, now, draw);
            var (url, role) := RegisterChecks(s, svc, f, avatarPath).value;
      && s'.books == s.books && s'.categories == s.categories
      && s'.users.order == s.users.order + [newId]
      && s'.users.rows == s.users.rows[newId := s'.users.rows[newId]]
      && var u := s'.users.rows[newId];
         && u == UserRecord(newId, Trim(f.userName), Trim(f.email), svc.hash(f.password), url, role,
                            None, Trim(f.phone), None, Some(OtpCode(draw)), Some(now + OtpTtlMs), false)
         && (r.Ok? <==> svc.sendEmail(u.email, OtpCode(draw)))
         && (r.Err? ==> r == Err(500, EmailFailed))
         && (r.Ok? ==> r.value == u.email)
  {
  }

  /** Registration keeps the database consistent; in particular the email-or-phone
      check keeps both unique. */
  lemma RegisterPreservesConsistent(s: State, svc: Services, f: RegisterForm,
                                    avatarPath: Option<string>, newId: Id, now: int, draw: OtpDraw)
    requires Consistent(s, svc) && newId !in s.users.rows && svc.isValidId(newId)
    ensures Consistent(Register(s, svc, f, avatarPath, newId, now, draw).1, svc)
  {
    if RegisterChecks(s, svc, f, avatarPath).Ok? {
      RegisterChecksPass(s, svc, f, avatarPath);
      RegisterCreatesUnverified(s, svc, f, avatarPath, newId, now, draw);
      var u := Register(s, svc, f, avatarPath, newId, now, draw).1.users.rows[newId];
      InsertUserPreservesConsistent(s, svc, newId, u);
    }
  }

  /** Adding a user whose email and phone are new keeps contacts unique. */
  lemma InsertKeepsUnique(users: map<Id, UserRecord>, id: Id, u: UserRecord)
    requires UniqueContacts(users) && id !in users
    requires forall k :: k in users ==> users[k].email != u.email && users[k].phone != u.phone
    ensures UniqueContacts(users[id := u])
  {
    var rows := users[id := u];
    forall i, j | i in rows && j in rows && i != j
      ensures rows[i].email != rows[j].email && rows[i].phone != rows[j].phone
    {
      if i != id && j != id {
        assert rows[i] == users[i] && rows[j] == users[j];
      }
    }
  }

  /** Adding a user whose email and phone are new keeps the database consistent. */
  lemma InsertUserPreservesConsistent(s: State, svc: Services, id: Id, u: UserRecord)
    requires Consistent(s, svc) && id !in s.users.rows && svc.isValidId(id)
    requires u.id == id && OtpPaired(u)
    requires forall k :: k in s.users.rows ==> s.users.rows[k].email != u.email && s.users.rows[k].phone != u.phone
    ensures Consistent(s.(users := s.users.Insert(id, u)), svc)
  {
    InsertKeepsUnique(s.users.rows, id, u);
  }

  /** Rewriting a user's document without touching its id, email or phone, and with
      its OTP fields still paired, keeps the database consistent. */
  lemma PutUserPreservesConsistent(s: State, svc: Services, id: Id, u: UserRecord)
    requires Consistent(s, svc) && id in s.users.rows
    requires u.id == id && OtpPaired(u)
    requires u.email == s.users.rows[id].email && u.phone == s.users.rows[id].phone
    ensures Consistent(s.(users := s.users.Put(id, u)), svc)
  {
    var rows := s.users.rows[id := u];
    forall i, j | i in rows && j in rows && i != j
      ensures rows[i].email != rows[j].email && rows[i].phone != rows[j].phone
    {
      assert rows[i].email == s.users.rows[i].email && rows[i].phone == s.users.rows[i].phone;
      assert rows[j].email == s.users.rows[j].email && rows[j].phone == s.users.rows[j].phone;
    }
  }

  // ---------------------------------------------------------------------------
  // verifyOTP

  /** Unknown email: 404; already verified: 400 without touching the OTP fields;
      wrong or expired code: 400; every error writes nothing. */
  lemma VerifyOtpGuards(s: State, email: string, code: string, now: int)
    requires s.users.Valid()
    ensures var (r, s') := VerifyOtp(s, email, code, now);
      && ((forall k :: k in s.users.rows ==> s.users.rows[k].email != Trim(email))
          ==> r == Err(404, UserNotFound))
      && (r.Err? ==> s' == s)
      && (forall id :: FindByEmail(s.users, email) == Some(id) ==>
            (s.users.rows[id].isVerified ==> r == Err(400, AlreadyVerified))
            && (!s.users.rows[id].isVerified && !CheckOtp(s.users.rows[id], code, now).0
                ==> r == Err(400, InvalidOtp)))
  {
  }

  /** A successful verification marks exactly the matched user verified and clears
      its OTP; no other document changes. */
  lemma VerifyOtpSuccess(s: State, email: string, code: string, now: int)
    requires VerifyOtp(s, email, code, now).0.Ok?
    ensures var s' := VerifyOtp(s, email, code, now).1;
            var id := FindByEmail(s.users, email).value;
            var u := s.users.rows[id];
      && !u.isVerified && u.otp == Some(code) && now <= ExpiryMs(u.otpExpires)
      && s'.users == s.users.Put(id, u.(otp := None, otpExpires := None, isVerified := true))
      && s'.books == s.books && s'.categories == s.categories
  {
  }

  lemma VerifyOtpPreservesConsistent(s: State, svc: Services, email: string, code: string, now: int)
    requires Consistent(s, svc)
    ensures Consistent(VerifyOtp(s, email, code, now).1, svc)
  {
    if VerifyOtp(s, email, code, now).0.Ok? {
      VerifyOtpSuccess(s, email, code, now);
      var id := FindByEmail(s.users, email).value;
      var u := s.users.rows[id];
      PutUserPreservesConsistent(s, svc, id, u.(otp := None, otpExpires := None, isVerified := true));
    }
  }

  /** With unique emails, the user found by email is the one holding it. */
  lemma {:induction false} FindByUniqueEmail(users: Table<UserRecord>, id: Id, email: string)
    requires users.Valid() && UniqueContacts(users.rows)
    requires id in users.rows && users.rows[id].email == Trim(email)
    ensures FindByEmail(users, email) == Some(id)
  {
    var r := FindByEmail(users, email);
    assert r.Some?;
    assert users.rows[r.value].email == users.rows[id].email;
  }

  /** Likewise for the login lookup by email alone, provided an absent user name
      matches nothing. */
  lemma {:induction false} FindForLoginByUniqueEmail(users: Table<UserRecord>, svc: Services, id: Id, email: string)
    requires users.Valid() && UniqueContacts(users.rows) && !svc.undefinedMatchesAll
    requires id in users.rows && users.rows[id].email == Trim(email)
    ensures FindForLogin(users, svc, None, Some(email)) == Some(id)
  {
    var l := FindForLogin(users, svc, None, Some(email));
    assert LoginMatch(svc, users.rows[id], None, Some(email));
    assert l.Some?;
    assert LoginMatch(svc, users.rows[l.value], None, Some(email));
    assert !FieldMatches(svc, users.rows[l.value].userName, None);
    assert users.rows[l.value].email == users.rows[id].email;
  }

  /** A verified user is refused at once, whatever the code and time, and nothing is written. */
  lemma VerifiedUserRefused(s: State, email: string, code: string, now: int, id: Id)
    requires FindByEmail(s.users, email) == Some(id) && s.users.rows[id].isVerified
    ensures VerifyOtp(s, email, code, now) == (Err(400, AlreadyVerified), s)
  {
  }

  /** The code is single use: once a verification has succeeded, the next attempt
      with any code at any time is refused (as "already verified") and writes nothing. */
  lemma {:induction false} VerifyOtpOnce(s: State, svc: Services, email: string, code: string, now: int,
                                         code': string, later: int)
    requires Consistent(s, svc)
    requires VerifyOtp(s, email, code, now).0.Ok?
    ensures var s' := VerifyOtp(s, email, code, now).1;
            VerifyOtp(s', email, code', later) == (Err(400, AlreadyVerified), s')
  {
    var s' := VerifyOtp(s, email, code, now).1;
    var id := FindByEmail(s.users, email).value;
    assert s'.users.Valid() && UniqueContacts(s'.users.rows) && id in s'.users.rows
           && s'.users.rows[id].email == Trim(email) && s'.users.rows[id].isVerified by {
      VerifyOtpSuccess(s, email, code, now);
      VerifyOtpPreservesConsistent(s, svc, email, code, now);
    }
    assert FindByEmail(s'.users, email) == Some(id) by {
      FindByUniqueEmail(s'.users, id, email);
    }
    VerifiedUserRefused(s', email, code', later, id);
  }

  // ---------------------------------------------------------------------------
  // generateAccessAndRefreshToken and loginUser

  /** The refresh token returned is the one stored, replacing any previous one; the
      rest of the user and the database stay as they were. Any failure is a 500
      that writes nothing. */
  lemma IssueTokensOutcome(s: State, svc: Services, id: Id, now: int)
    ensures var (r, s') := IssueTokens(s, svc, id, now);
      && (r.Err? ==> r.status == 500 && s' == s)
      && (r.Ok? ==>
            && id in s.users.rows
            && s'.users == s.users.Put(id, s.users.rows[id].(refreshToken := Some(r.value.1)))
            && s'.books == s.books && s'.categories == s.categories
            && Some(r.value.0) == svc.sign(AccessClaimsOf(s.users.rows[id], now))
            && Some(r.value.1) == svc.sign(RefreshClaimsOf(s.users.rows[id], now)))
  {
  }

  /** The guards answer in order: no identifier (400), no match (404), unverified
      (403, whatever the password), wrong password (401); no error writes. */
  lemma LoginGuards(s: State, svc: Services, userName: Option<string>, email: Option<string>,
                    password: string, now: int)
    requires s.users.Valid()
    ensures var (r, s') := Login(s, svc, userName, email, password, now);
      && (!Truthy(userName) && !Truthy(email) ==> r == Err(400, IdentifierRequired))
      && (r.Err? ==> s' == s)
      && ((Truthy(userName) || Truthy(email)) ==>
            ((forall k :: k in s.users.rows ==> !LoginMatch(svc, s.users.rows[k], userName, email))
               ==> r == Err(404, UserDoesNotExist))
            && (forall id :: FindForLogin(s.users, svc, userName, email) == Some(id) ==>
                  (!s.users.rows[id].isVerified ==> r == Err(403, NotVerified))
                  && (s.users.rows[id].isVerified && !svc.compare(password, s.users.rows[id].password)
                      ==> r == Err(401, BadCredentials))))
  {
  }

  /** A successful login returns two signed tokens, stores the refresh token on the
      matched verified user, and replies with that user's public fields. */
  lemma LoginSuccess(s: State, svc: Services, userName: Option<string>, email: Option<string>,
                     password: string, now: int)
    requires Login(s, svc, userName, email, password, now).0.Ok?
    ensures var (r, s') := Login(s, svc, userName, email, password, now);
            var id := FindForLogin(s.users, svc, userName, email).value;
      && s.users.rows[id].isVerified && svc.compare(password, s.users.rows[id].password)
      && s'.users == s.users.Put(id, s.users.rows[id].(refreshToken := Some(r.value.refreshToken)))
      && r.value.user == Public(s'.users.rows[id])
      && s'.books == s.books && s'.categories == s.categories
  {
  }

  lemma LoginPreservesConsistent(s: State, svc: Services, userName: Option<string>,
                                 email: Option<string>, password: string, now: int)
    requires Consistent(s, svc)
    ensures Consistent(Login(s, svc, userName, email, password, now).1, svc)
  {
    var (r, s') := Login(s, svc, userName, email, password, now);
    if r.Ok? {
      LoginSuccess(s, svc, userName, email, password, now);
      var id := FindForLogin(s.users, svc, userName, email).value;
      PutUserPreservesConsistent(s, svc, id, s.users.rows[id].(refreshToken := Some(r.value.refreshToken)));
    }
  }

  // ---------------------------------------------------------------------------
  // The account lifecycle

  /** After a registration whose guards pass, the new user is stored unverified with
      the hashed password and the mailed OTP, and emails are still unique. */
  lemma RegisteredState(s: State, svc: Services, f: RegisterForm, avatarPath: Option<string>,
                        newId: Id, now: int, draw: OtpDraw)
    requires s.users.Valid() && UniqueContacts(s.users.rows) && newId !in s.users.rows
    requires RegisterChecks(s, svc, f, avatarPath).Ok?
    ensures var s1 := Register(s, svc, f, avatarPath, newId, now, draw).1;
      && s1.users.Valid() && UniqueContacts(s1.users.rows) && newId in s1.users.rows
      && s1.users.rows[newId].id == newId && f.email != "" && s1.users.rows[newId].email == Trim(f.email)
      && !s1.users.rows[newId].isVerified
      && s1.users.rows[newId].password == svc.hash(f.password)
      && s1.users.rows[newId].otp == Some(OtpCode(draw))
      && s1.users.rows[newId].otpExpires == Some(now + OtpTtlMs)
  {
    RegisterChecksPass(s, svc, f, avatarPath);
    RegisterCreatesUnverified(s, svc, f, avatarPath, newId, now, draw);
    var s1 := Register(s, svc, f, avatarPath, newId, now, draw).1;
    var u := s1.users.rows[newId];
    assert u.email == Trim(f.email) && u.phone == Trim(f.phone);
    assert s1.users == s.users.Insert(newId, u);
    InsertKeepsUnique(s.users.rows, newId, u);
    assert f.email != "" by {
      assert Trim(f.email) != "";
      assert Trim("") == "";
    }
  }

  /** An unverified user holding `code`, asked for it before it expires, is verified. */
  lemma VerifyPendingUser(s: State, email: string, code: string, at: int, id: Id)
    requires s.users.Valid() && UniqueContacts(s.users.rows) && id in s.users.rows
    requires s.users.rows[id].email == Trim(email) && !s.users.rows[id].isVerified
    requires s.users.rows[id].otp == Some(code) && at <= ExpiryMs(s.users.rows[id].otpExpires)
    ensures var (v, s') := VerifyOtp(s, email, code, at);
      && v == Ok(Unit)
      && s'.users == s.users.Put(id, s.users.rows[id].(otp := None, otpExpires := None, isVerified := true))
      && s'.users.Valid() && UniqueContacts(s'.users.rows)
  {
    FindByUniqueEmail(s.users, id, email);
    var s' := VerifyOtp(s, email, code, at).1;
    assert forall k :: k in s'.users.rows ==>
      s'.users.rows[k].email == s.users.rows[k].email && s'.users.rows[k].phone == s.users.rows[k].phone;
  }

  /** A verified user logging in by email with the right password gets a session
      whose refresh token is the one stored on that user. */
  lemma LoginVerifiedUser(s: State, svc: Services, email: string, password: string, at: int, id: Id)
    requires s.users.Valid() && UniqueContacts(s.users.rows) && id in s.users.rows
    requires s.users.rows[id].id == id && s.users.rows[id].email == Trim(email) && email != ""
    requires s.users.rows[id].isVerified
    requires svc.compare(password, s.users.rows[id].password)
    requires !svc.undefinedMatchesAll && forall c :: svc.sign(c).Some?
    ensures var (l, s') := Login(s, svc, None, Some(email), password, at);
      && l.Ok? && l.value.user.id == id && l.value.user.isVerified
      && id in s'.users.rows && s'.users.rows[id].refreshToken == Some(l.value.refreshToken)
  {
    FindForLoginByUniqueEmail(s.users, svc, id, email);
    var u := s.users.rows[id];
    assert svc.sign(AccessClaimsOf(u, at)).Some? && svc.sign(RefreshClaimsOf(u, at)).Some?;
  }

  /** Until the OTP is verified, logging in with the registered email is refused
      with 403, whatever the password. */
  lemma RegisteredUserCannotLogIn(s: State, svc: Services, f: RegisterForm, avatarPath: Option<string>,
                                  newId: Id, now: int, draw: OtpDraw, password: string, loginAt: int)
    requires s.users.Valid() && UniqueContacts(s.users.rows) && newId !in s.users.rows
    requires RegisterChecks(s, svc, f, avatarPath).Ok?
    requires !svc.undefinedMatchesAll
    ensures var s1 := Register(s, svc, f, avatarPath, newId, now, draw).1;
            Login(s1, svc, None, Some(f.email), password, loginAt) == (Err(403, NotVerified), s1)
  {
    RegisteredState(s, svc, f, avatarPath, newId, now, draw);
    var s1 := Register(s, svc, f, avatarPath, newId, now, draw).1;
    FindForLoginByUniqueEmail(s1.users, svc, newId, f.email);
  }

  /** Register, then verify with the mailed code before it expires, then log in with
      the same email and password: verification answers 200, login succeeds, and
      the session's refresh token is the one stored on the new user. */
  lemma RegisterVerifyLogin(s: State, svc: Services, f: RegisterForm, avatarPath: Option<string>,
                            newId: Id, now: int, draw: OtpDraw, verifyAt: int, loginAt: int)
    requires s.users.Valid() && UniqueContacts(s.users.rows) && newId !in s.users.rows
    requires HashSound(svc) && !svc.undefinedMatchesAll
    requires forall c :: svc.sign(c).Some?
    requires RegisterChecks(s, svc, f, avatarPath).Ok?
    requires verifyAt <= now + OtpTtlMs
    ensures var s1 := Register(s, svc, f, avatarPath, newId, now, draw).1;
            var (v, s2) := VerifyOtp(s1, f.email, OtpCode(draw), verifyAt);
            var (l, s3) := Login(s2, svc, None, Some(f.email), f.password, loginAt);
      && v == Ok(Unit)
      && l.Ok? && l.value.user.id == newId && l.value.user.isVerified
      && newId in s3.users.rows && s3.users.rows[newId].refreshToken == Some(l.value.refreshToken)
  {
    RegisteredState(s, svc, f, avatarPath, newId, now, draw);
    var s1 := Register(s, svc, f, avatarPath, newId, now, draw).1;
    VerifyPendingUser(s1, f.email, OtpCode(draw), verifyAt, newId);
    var s2 := VerifyOtp(s1, f.email, OtpCode(draw), verifyAt).1;
    LoginVerifiedUser(s2, svc, f.email, f.password, loginAt, newId);
  }
}
