/** The user document: its fields, the schema's constraints on `role` and `phone`,
    the pre-save hook that hashes the password, the OTP methods and the token
    payloads. The pure functions on `UserRecord` are the specification; the class
    `User` is the mutable document whose methods are proved against them. */
module UserModel {
  import opened Http
  import opened Text
  import opened Foreign

  /** The schema's `role` enum; `RegularUser` is the role named "user". */
  datatype Role = Admin | Customer | Author | RegularUser

  function RoleName(r: Role): string {
    match r
    case Admin => "admin"
    case Customer => "customer"
    case Author => "author"
    case RegularUser => "user"
  }

  /** Schema validation of a (trimmed) role string against the enum. */
  function ParseRole(s: string): (r: Option<Role>)
    ensures r.Some? <==> s == "admin" || s == "customer" || s == "author" || s == "user"
    ensures r.Some? ==> RoleName(r.value) == s
  {
    if s == "admin" then Some(Admin)
    else if s == "customer" then Some(Customer)
    else if s == "author" then Some(Author)
    else if s == "user" then Some(RegularUser)
    else None
  }

  lemma RoleNameRoundTrip(r: Role)
    ensures ParseRole(RoleName(r)) == Some(r)
  {
  }

  /** An OTP stays valid for 5 minutes, in milliseconds. */
  const OtpTtlMs: int := 5 * 60 * 1000

  /** The persisted fields of a user document. `otpExpires` is a time in ms. */
  datatype UserRecord = UserRecord(
    id: Id,
    userName: string,
    email: string,
    password: string,
    avatar: Url,
    role: Role,
    address: Option<string>,
    phone: string,
    refreshToken: Option<Token>,
    otp: Option<string>,
    otpExpires: Option<int>,
    isVerified: bool)

  /** Both OTP fields are set together and cleared together. */
  predicate OtpPaired(u: UserRecord) {
    u.otp.Some? <==> u.otpExpires.Some?
  }

  /** The random part of an OTP: a uniform draw in [0, 1) scaled by 900000, rounded down. */
  type OtpDraw = d: int | 0 <= d < 900000

  /** The code `generateOTP` draws: 100000 plus the scaled random draw, written in
      decimal, so always six digits. */
  function OtpCode(draw: OtpDraw): (code: string)
    ensures |code| == 6 && AllDigits(code)
    ensures DecimalValue(code) == 100000 + draw
    ensures 100000 <= DecimalValue(code) <= 999999
  {
    assert Pow10(3) == 1000 && Pow10(5) == 100000 && Pow10(6) == 1000000;
    DecimalLength(100000 + draw, 6);
    DecimalRoundTrip(100000 + draw);
    DecimalString(100000 + draw)
  }

  /** `generateOTP`: the code returned is the one stored, and it expires 5 minutes from now. */
  function IssueOtp(u: UserRecord, now: int, draw: OtpDraw): (r: (string, UserRecord))
    ensures r.1 == u.(otp := Some(r.0), otpExpires := Some(now + OtpTtlMs))
    ensures r.0 == OtpCode(draw)
  {
    var code := OtpCode(draw);
    (code, u.(otp := Some(code), otpExpires := Some(now + OtpTtlMs)))
  }

  /** JavaScript's `now > this.otpExpires` reads a null expiry as 0. */
  function ExpiryMs(e: Option<int>): int {
    e.GetOr(0)
  }

  /** `verifyOTP(entered)`: the code is compared first, then the expiry; a success
      clears both OTP fields and marks the user verified. */
  function CheckOtp(u: UserRecord, entered: string, now: int): (r: (bool, UserRecord))
    ensures !r.0 ==> r.1 == u
    ensures r.0 ==> u.otp == Some(entered) && r.1.isVerified && r.1.otp.None? && r.1.otpExpires.None?
  {
    if u.otp != Some(entered) then (false, u)
    else if now > ExpiryMs(u.otpExpires) then (false, u)
    else (true, u.(otp := None, otpExpires := None, isVerified := true))
  }

  /** A failing check leaves the document as it was; a passing one requires the stored
      code and an unexpired deadline, and changes exactly the three OTP-related fields. */
  lemma CheckOtpOutcome(u: UserRecord, entered: string, now: int)
    ensures CheckOtp(u, entered, now).0 <==> u.otp == Some(entered) && now <= ExpiryMs(u.otpExpires)
    ensures !CheckOtp(u, entered, now).0 ==> CheckOtp(u, entered, now).1 == u
    ensures CheckOtp(u, entered, now).0 ==>
              CheckOtp(u, entered, now).1 == u.(otp := None, otpExpires := None, isVerified := true)
  {
  }

  /** Single use: once a check has passed, no later check passes, whatever the code and time. */
  lemma CheckOtpSingleUse(u: UserRecord, entered: string, now: int, entered': string, later: int)
    requires CheckOtp(u, entered, now).0
    ensures CheckOtp(CheckOtp(u, entered, now).1, entered', later) == (false, CheckOtp(u, entered, now).1)
  {
  }

  /** A freshly issued code passes exactly up to and including its deadline; any other
      code fails. */
  lemma IssueThenCheck(u: UserRecord, now: int, draw: OtpDraw, entered: string, later: int)
    ensures var (code, issued) := IssueOtp(u, now, draw);
            CheckOtp(issued, entered, later).0 <==> entered == code && later <= now + OtpTtlMs
  {
  }

  /** The pre-save hook: the password is hashed only when it was modified. */
  function PreSave(u: UserRecord, passwordModified: bool, hash: string -> string): (r: UserRecord)
    ensures passwordModified ==> r == u.(password := hash(u.password))
    ensures !passwordModified ==> r == u
  {
    if passwordModified then u.(password := hash(u.password)) else u
  }

  /** Seconds since the epoch, rounded down, for a clock reading `now` in ms. */
  function EpochSeconds(now: int): int {
    now / 1000
  }

  /** `generateAccessToken`'s payload, signed at clock reading `now` (ms). */
  function AccessClaimsOf(u: UserRecord, now: int): (c: Claims)
    ensures c.AccessClaims? && c.id == u.id
    ensures c.issuedAt * 1000 <= now < (c.issuedAt + 1) * 1000
    ensures ParseRole(c.role) == Some(u.role)
  {
    RoleNameRoundTrip(u.role);
    AccessClaims(u.id, RoleName(u.role), u.email, u.userName, u.phone, u.address, u.avatar,
                 u.isVerified, EpochSeconds(now))
  }

  /** `generateRefreshToken`'s payload: only the id, with the same `iat` as the
      access payload signed in the same call. */
  function RefreshClaimsOf(u: UserRecord, now: int): (c: Claims)
    ensures c.RefreshClaims? && c.id == u.id
    ensures c.issuedAt == AccessClaimsOf(u, now).issuedAt
  {
    RefreshClaims(u.id, EpochSeconds(now))
  }

  /** A user document. `passwordModified` is mongoose's record that the password
      was set since the document was last saved (`isModified("password")`). */
  class User {
    const id: Id
    var userName: string
    var email: string
    var password: string
    var avatar: Url
    var role: Role
    var address: Option<string>
    var phone: string
    var refreshToken: Option<Token>
    var otp: Option<string>
    var otpExpires: Option<int>
    var isVerified: bool
    var passwordModified: bool

    function Snapshot(): (r: UserRecord)
      reads this
      ensures r.id == id
    {
      UserRecord(id, userName, email, password, avatar, role, address, phone, refreshToken,
                 otp, otpExpires, isVerified)
    }

    /** `new User({...})` as `User.create` builds it: unverified, no OTP, no refresh
        token, no address, and the password still in clear and marked modified. */
    constructor (id: Id, userName: string, email: string, password: string, avatar: Url,
                 role: Role, phone: string)
      ensures Snapshot() == UserRecord(id, userName, email, password, avatar, role, None, phone,
                                       None, None, None, false)
      ensures passwordModified
    {
      this.id := id;
      this.userName := userName;
      this.email := email;
      this.password := password;
      this.avatar := avatar;
      this.role := role;
      this.address := None;
      this.phone := phone;
      this.refreshToken := None;
      this.otp := None;
      this.otpExpires := None;
      this.isVerified := false;
      this.passwordModified := true;
    }

    /** A document as `findOne` or `findById` hydrates it from a stored record:
        nothing is marked modified. */
    constructor Hydrate(r: UserRecord)
      ensures Snapshot() == r && !passwordModified
    {
      id := r.id;
      userName := r.userName;
      email := r.email;
      password := r.password;
      avatar := r.avatar;
      role := r.role;
      address := r.address;
      phone := r.phone;
      refreshToken := r.refreshToken;
      otp := r.otp;
      otpExpires := r.otpExpires;
      isVerified := r.isVerified;
      passwordModified := false;
    }

    method GenerateOTP(now: int, draw: OtpDraw) returns (code: string)
      modifies this
      ensures (code, Snapshot()) == IssueOtp(old(Snapshot()), now, draw)
      ensures passwordModified == old(passwordModified)
    {
      code := OtpCode(draw);
      otp := Some(code);
      otpExpires := Some(now + OtpTtlMs);
    }

    method VerifyOTP(entered: string, now: int) returns (ok: bool)
      modifies this
      ensures (ok, Snapshot()) == CheckOtp(old(Snapshot()), entered, now)
      ensures passwordModified == old(passwordModified)
    {
      if otp != Some(entered) {
        return false;
      }
      if now > ExpiryMs(otpExpires) {
        return false;
      }
      otp := None;
      otpExpires := None;
      isVerified := true;
      ok := true;
    }

    /** `save()`: runs the pre-save hook, after which nothing counts as modified. */
    method Save(hash: string -> string)
      modifies this
      ensures Snapshot() == PreSave(old(Snapshot()), old(passwordModified), hash)
      ensures !passwordModified
    {
      if passwordModified {
        password := hash(password);
      }
      passwordModified := false;
    }

    function IsPasswordCorrect(compare: (string, string) -> bool, candidate: string): bool
      reads this
    {
      compare(candidate, password)
    }
  }
}
