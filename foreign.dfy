/** The collaborators the handlers call but whose code is not modelled: bcrypt,
    jsonwebtoken, mongoose's ObjectId check, the Cloudinary upload, the mailer and
    the database's reading of an `undefined` filter value. Each is a field of a
    `Services` record, so that every handler is a deterministic function of its
    inputs and of these services. */
module Foreign {
  import opened Http

  type Id = string
  type Url = string
  type Token = string

  /** JWT payloads as `generateAccessToken` and `generateRefreshToken` build them;
      `issuedAt` is the `iat` claim that jsonwebtoken adds from the clock, in whole
      seconds. */
  datatype Claims =
    | AccessClaims(id: Id, role: string, email: string, userName: string, phone: string,
                   address: Option<string>, avatar: Url, isVerified: bool, issuedAt: int)
    | RefreshClaims(id: Id, issuedAt: int)

  datatype Services = Services(
    /** `bcrypt.hash(password, 10)` */
    hash: string -> string,
    /** `bcrypt.compare(password, hash)` */
    compare: (string, string) -> bool,
    /** `jwt.sign` with the configured secret and expiry; `None` when it throws */
    sign: Claims -> Option<Token>,
    /** `jwt.verify(token, ACCESS_TOKEN_SECRET)` at time `now`, giving the `_id` claim;
        `None` when it throws or the claim is absent */
    verify: (Token, int) -> Option<Id>,
    /** `mongoose.Types.ObjectId.isValid` */
    isValidId: string -> bool,
    /** `uploadOnCloudinary(path)`, giving the stored asset's URL; `None` when it returns null */
    upload: string -> Option<Url>,
    /** `sendEmail(to, text)` carrying the code; `false` when it throws */
    sendEmail: (string, string) -> bool,
    /** whether a filter field whose value is `undefined` matches every document
        (the field is dropped from the filter) rather than none */
    undefinedMatchesAll: bool)

  /** The one property of bcrypt the handlers rely on: a password matches its own hash. */
  ghost predicate HashSound(svc: Services) {
    forall p :: svc.compare(p, svc.hash(p))
  }
}
