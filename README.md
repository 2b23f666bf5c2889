# Bookstore backend: accounts, books and categories

This project models the core of the CodeVerse bookstore server (Express and
mongoose) and proves properties of the model. The core is:

- the user document, with its OTP methods, its password-hashing pre-save hook
  and its `role` and `phone` constraints;
- the authentication controller: registration with an emailed OTP, OTP
  verification, login, and token issuing;
- the book controller and the category controller;
- the two middlewares that guard routes: `verifyJwt` and `authorAndAdmin`.

The model has two layers.

- **Specification.** The modules `Auth`, `Books`, `Categories` and
  `Middleware` describe every handler as a pure function. It takes a database
  `State` plus the request, and returns the reply (`Ok` value, or `Err` with an
  HTTP status and a reason) together with the next `State`. Most lemmas are
  about these functions:
  - each guard answers in the source's order, with the source's status;
  - no error writes anything;
  - what a success stores;
  - the invariant `Consistent` is preserved: each user record carries its own
    key, its OTP fields are set and cleared together, emails and phones are
    unique, and every stored id is a valid ObjectId;
  - lifecycle properties, such as register → verify → log in, and OTP single use.
- **Handlers.** Module `Server` has a class `Store` that holds the three
  collections as mutable fields. Its methods follow the handlers statement by
  statement. Each one is proved to compute exactly what its specification
  function says, on the database the store holds, and to keep `Consistent`.
  A handler that changes a user does what mongoose does:
  1. loads the record into a fresh `User` document (`User.Hydrate`);
  2. changes it through the document's own methods (`GenerateOTP`, `VerifyOTP`);
  3. saves it back through `SaveUser`, which runs the pre-save hook.

A collection is a `Table`: a map from id to document, plus the order in which
the collection returns documents. `findOne` yields the first match in that
order. That decides which user a login `$or` query finds, and which category a
name finds when names repeat.

The code of everything the handlers call but that is not modelled is outside
the model. It is passed in as `Services` fields:

- bcrypt's `hash` and `compare`;
- jsonwebtoken's `sign` and `verify`;
- `ObjectId.isValid`;
- the Cloudinary upload;
- the mailer;
- how the database reads a filter field whose value is `undefined`.

The clock (`Date.now()`) and the random draw of `generateOTP` (`Math.random()`)
are parameters. Fresh database ids are parameters too, required to be unused
and valid.

Some behaviour follows the code rather than the design description.

- **A second `verifyOTP`** after a successful one answers 400 "User already
  verified" (auth.controller.js:97-99). It does not re-check the code
  (`VerifyOtpOnce`).
- **Titles within a category are not always unique.** `updateBook` checks
  duplicate titles only when a title is submitted. The check's category is the
  submitted (resolved) one, or the falsy value as sent. So a category-only
  update can put two books with the same title in one category
  (`CategoryOnlyUpdateCanDuplicate`). A title-only rename sends
  `category: undefined`. When the database reads that as null, no stored book
  matches, so the duplicate check never fires, and a rename can reuse another
  book's title in the same category (`TitleOnlyUpdateCanDuplicate`).
  `UpdateBookKeepsTitlesUnique` states the cases where uniqueness is kept.
- **A failed upload answers 500.** `createBook` reads `.url` from each upload
  result, so a null upload throws. The model answers 500 and stores nothing.
- **A failed email still stores the user.** `registerUser` creates the user
  and its OTP first, then sends the email. If the email fails the reply is 500,
  but the user stays stored.
- **A role or phone the schema refuses answers 500.** It is a mongoose
  validation error at `User.create`, not an `ApiError`.
- **A bad token answers 401 `TokenRejected`.** `verifyJwt` turns every thrown
  error into a 401 carrying that error's message. The model keeps only the
  status. It gives a token that fails to verify and an `_id` that does not cast
  the same reason, `TokenRejected`, although the source's messages for the two
  differ. A token that verifies but carries no `_id` is not a thrown error:
  `findById(undefined)` yields null, so the source answers 401 "Invalid Access
  Token" (auth.middleware.js:15-18). The model's `verify` gives an id or nothing,
  so such a token gets `TokenRejected`: the same status with another reason.

Schema `trim` applies to stored values and to query filter values. So the
`findOne` filters compare trimmed strings.

## Model

| member | source | states |
|---|---|---|
| Text.TrimStart | Server/src/models/user.model.js:10 | the result is the suffix of the input that starts at its first non-space character, and only space is dropped |
| Text.TrimEnd | Server/src/models/user.model.js:10 | the result is the prefix that ends at the last non-space character, and only space is dropped |
| Text.TrimBounds | Server/src/controllers/auth.controller.js:32 | `trim` keeps `s[i..j]`, with only white space before `i` and after `j` |
| Text.TrimIsInnerSlice | Server/src/controllers/auth.controller.js:32 | `trim` yields a contiguous slice with white space cut off at both ends only, and no space at either end of the result |
| Text.TrimEmptyIff | Server/src/controllers/auth.controller.js:32 | `field.trim() === ""` holds exactly when the field is all white space |
| Text.TrimIdempotent | Server/src/models/user.model.js:10 | trimming a trimmed value changes nothing, so the schema's trim of a filter value agrees with the stored one |
| Text.IndexOfFrom | Server/src/middleware/auth.middleware.js:8 | the first occurrence of the pattern at or after a position; none when there is none |
| Text.ReplaceFirst | Server/src/middleware/auth.middleware.js:8 | `replace` with a string pattern leaves a string without the pattern unchanged |
| Text.ReplaceFirstAtStart | Server/src/middleware/auth.middleware.js:8 | removing a leading pattern gives exactly the rest |
| Text.ReplaceFirstRemovesFirst | Server/src/middleware/auth.middleware.js:8 | only the first occurrence is cut, and the prefix before it is kept |
| Text.Trim | Server/src/models/user.model.js:10 | `String.prototype.trim`: leading, then trailing, white space dropped; what it keeps is stated by `TrimBounds`, `TrimIsInnerSlice` and `TrimEmptyIff` |
| Text.DecimalString | Server/src/models/user.model.js:77 | `toString()` of a natural is a non-empty string of digits |
| Text.DecimalRoundTrip | Server/src/models/user.model.js:77 | reading back the decimal string of `n` gives `n` |
| Text.DecimalLength | Server/src/models/user.model.js:77 | a natural in [10^(k-1), 10^k) has exactly k digits |
| Text.IsTenDigitPhone | Server/src/models/user.model.js:42 | the schema's phone pattern: exactly ten ASCII digits and nothing else |
| UserModel.ParseRole | Server/src/models/user.model.js:27-33 | a role is accepted exactly when it is one of the four enum names, and maps back to that name |
| UserModel.RoleNameRoundTrip | Server/src/models/user.model.js:31 | every role's name parses back to that role |
| UserModel.OtpCode | Server/src/models/user.model.js:77 | the OTP is six digits whose value is 100000 plus the random draw, so it lies in [100000, 999999] |
| UserModel.IssueOtp | Server/src/models/user.model.js:76-81 | the code returned is the code stored, and it expires five minutes from now; nothing else changes |
| UserModel.CheckOtp | Server/src/models/user.model.js:84-91 | a failed check leaves the user unchanged; a passing one needs the stored code, and leaves the user verified with both OTP fields cleared |
| UserModel.CheckOtpOutcome | Server/src/models/user.model.js:84-91 | the check passes exactly for the stored code before expiry (a null expiry reads as 0); a failure changes nothing; a success clears both OTP fields and sets verified |
| UserModel.CheckOtpSingleUse | Server/src/models/user.model.js:87-89 | after a passing check, no later check passes, whatever the code or time |
| UserModel.IssueThenCheck | Server/src/models/user.model.js:76-91 | a freshly issued code passes exactly up to and including its deadline, and any other code fails |
| UserModel.PreSave | Server/src/models/user.model.js:66-69 | the password is hashed exactly when it was modified, and nothing else changes |
| UserModel.AccessClaimsOf | Server/src/models/user.model.js:94-109 | the access payload names the user's id, its `iat` is the whole second of signing, and its role string parses back to the user's role |
| UserModel.RefreshClaimsOf | Server/src/models/user.model.js:111-119 | the refresh payload is a refresh payload naming only the user's id, with the same `iat` as the access payload of the same call |
| UserModel.User.constructor | Server/src/controllers/auth.controller.js:58-66 | a new document is unverified, with no OTP, no refresh token and no address, and its clear password is marked modified |
| UserModel.User.Hydrate | Server/src/controllers/auth.controller.js:91 | a loaded document holds the stored record and has nothing marked modified |
| UserModel.User.GenerateOTP | Server/src/models/user.model.js:76-81 | the document's new state and the returned code are those of `IssueOtp` |
| UserModel.User.VerifyOTP | Server/src/models/user.model.js:84-91 | the answer and the document's new state are those of `CheckOtp` |
| UserModel.User.Save | Server/src/models/user.model.js:66-69 | saving runs the pre-save hook, and afterwards nothing is marked modified |
| UserModel.User.IsPasswordCorrect | Server/src/models/user.model.js:71-73 | the candidate is compared with the stored hash by the supplied `compare`; `LoginGuards` and `LoginSuccess` state what the answer decides |
| Tables.Table.Insert | Server/src/controllers/auth.controller.js:58 | `create` adds the document under a fresh id, last in collection order, and keeps the table well formed |
| Tables.Table.Put | Server/src/controllers/auth.controller.js:19 | a save overwrites the document under its id, and its place in the order stays |
| Tables.Table.Remove | Server/src/controllers/book.controller.js:135 | `findByIdAndDelete` drops exactly that id and keeps every other document |
| Tables.Table.RemoveKeepsValid | Server/src/controllers/book.controller.js:135 | after a removal the order still lists each key once, and is one shorter when the id was stored |
| Tables.Table.FindFirst | Server/src/controllers/auth.controller.js:37-39 | `findOne` yields a matching document, and none exactly when no document matches |
| Tables.Table.FirstIn | Server/src/controllers/auth.controller.js:118-120 | the match found is the first in collection order; every id before it fails the filter |
| Tables.Table.All | Server/src/controllers/book.controller.js:70 | `find()` yields every document once, in collection order |
| Tables.Without | Server/src/controllers/category.controller.js:73 | the order without the removed id lists exactly the other ids |
| Tables.RemoveDistinct | Server/src/controllers/category.controller.js:73 | removing an id from a list without repeats keeps it without repeats, and shortens it by one exactly when the id was there |
| Auth.FindByEmailOrPhone | Server/src/controllers/auth.controller.js:37-39 | no user is found exactly when no user has the trimmed email or the trimmed phone |
| Auth.FindByEmail | Server/src/controllers/auth.controller.js:91 | the user found holds the trimmed email, and none is found exactly when nobody does |
| Auth.FindForLogin | Server/src/controllers/auth.controller.js:118-120 | the user found matches the user name or the email (an absent value matches as the database reads `undefined`), and none is found exactly when nobody matches |
| Auth.AnyBlank | Server/src/controllers/auth.controller.js:31-35 | some of the five fields is empty once trimmed; by `TrimEmptyIff`, exactly when it is all white space |
| Auth.NewUser | Server/src/controllers/auth.controller.js:58-66 | the created document keeps the id, trimmed email and phone, holds the hashed password, and is unverified with no OTP and no refresh token |
| Auth.RegisterChecks | Server/src/controllers/auth.controller.js:31-66 | every refusal is a 400 or 500; passing means no blank field, the avatar uploaded to the returned URL, an enum role and a ten-digit phone |
| Auth.Register | Server/src/controllers/auth.controller.js:28-84 | books and categories are untouched; no error other than a failed email writes; a success replies with the trimmed email; at most the one new id is added |
| Auth.VerifyOtp | Server/src/controllers/auth.controller.js:88-109 | books and categories are untouched; no error writes; no user is added or removed |
| Auth.IssueTokens | Server/src/controllers/auth.controller.js:12-25 | books and categories are untouched; every failure is a 500 that writes nothing; no user is added or removed |
| Auth.Public | Server/src/controllers/auth.controller.js:139 | the reply's user: every stored field except the password hash and the refresh token |
| Auth.Login | Server/src/controllers/auth.controller.js:111-157 | books and categories are untouched; no error writes; no user is added or removed; a session is only ever given to a verified user |
| Auth.RegisterGuards | Server/src/controllers/auth.controller.js:31-66 | blank field (400), existing email or phone (400), no avatar (400), failed upload (500) and a role or phone the schema refuses (500) answer in that order; the guards pass exactly when none of them fires; no error except a failed email writes anything |
| Auth.RegisterChecksPass | Server/src/controllers/auth.controller.js:31-66 | passing guards mean: no blank field, no user with that email or phone, an uploaded avatar, an enum role and a ten-digit phone |
| Auth.RegisterCreatesUnverified | Server/src/controllers/auth.controller.js:58-83 | passing guards insert exactly one unverified user (trimmed fields, hashed password, fresh OTP) and change nothing else; the reply is the stored email, or 500 exactly when the email fails |
| Auth.RegisterPreservesConsistent | Server/src/controllers/auth.controller.js:37-66 | registration keeps the database consistent, in particular emails and phones unique |
| Auth.InsertKeepsUnique | Server/src/controllers/auth.controller.js:37-43 | adding a user whose email and phone are new keeps contacts unique |
| Auth.InsertUserPreservesConsistent | Server/src/controllers/auth.controller.js:58-66 | adding such a user keeps the database consistent |
| Auth.PutUserPreservesConsistent | Server/src/controllers/auth.controller.js:106 | rewriting a user without changing its id, email or phone, with its OTP fields still paired, keeps the database consistent |
| Auth.VerifyOtpGuards | Server/src/controllers/auth.controller.js:88-104 | unknown email (404), already verified (400), wrong or expired code (400); no error writes |
| Auth.VerifyOtpSuccess | Server/src/controllers/auth.controller.js:101-108 | a success needs an unverified user holding that code before expiry, and rewrites only that user, verified and with its OTP cleared |
| Auth.VerifyOtpPreservesConsistent | Server/src/controllers/auth.controller.js:88-109 | verification keeps the database consistent |
| Auth.FindByUniqueEmail | Server/src/controllers/auth.controller.js:91 | with unique emails, the lookup finds the user holding the email |
| Auth.FindForLoginByUniqueEmail | Server/src/controllers/auth.controller.js:118-120 | logging in by email alone finds the user holding it, when an absent user name matches nothing |
| Auth.VerifiedUserRefused | Server/src/controllers/auth.controller.js:97-99 | a verified user is answered 400 "already verified", whatever the code and time, and nothing is written |
| Auth.VerifyOtpOnce | Server/src/controllers/auth.controller.js:88-109 | after a successful verification, the next one with any code at any time answers 400 and writes nothing |
| Auth.IssueTokensOutcome | Server/src/controllers/auth.controller.js:12-25 | any failure is a 500 that writes nothing; a success returns the signed access and refresh tokens and stores exactly that refresh token on the user |
| Auth.LoginGuards | Server/src/controllers/auth.controller.js:111-135 | no identifier (400), no match (404), unverified (403, whatever the password), wrong password (401); no error writes |
| Auth.LoginSuccess | Server/src/controllers/auth.controller.js:137-156 | a success needs a verified matched user with the right password; it stores the new refresh token on that user and replies with the user's public fields |
| Auth.LoginPreservesConsistent | Server/src/controllers/auth.controller.js:111-157 | login keeps the database consistent |
| Auth.RegisteredState | Server/src/controllers/auth.controller.js:58-79 | after registration the new user is stored unverified, with the hashed password and the mailed OTP, and contacts stay unique |
| Auth.VerifyPendingUser | Server/src/controllers/auth.controller.js:88-109 | an unverified user asking with the stored code before expiry is verified |
| Auth.LoginVerifiedUser | Server/src/controllers/auth.controller.js:111-157 | a verified user logging in by email with the right password gets a session whose refresh token is stored on that user |
| Auth.RegisteredUserCannotLogIn | Server/src/controllers/auth.controller.js:126-129 | until the OTP is verified, login with the registered email answers 403, whatever the password |
| Auth.RegisterVerifyLogin | Server/src/controllers/auth.controller.js:28-157 | register, verify with the mailed code in time, then log in with the same email and password: verification answers 200, login succeeds, and the refresh token is stored on the new user |
| Books.ResolveCategory | Server/src/controllers/book.controller.js:18-27 | an ObjectId-shaped value is looked up by id and anything else by name; none exactly when no category matches |
| Books.FindDuplicate | Server/src/controllers/book.controller.js:105 | the book found has the title, is in scope and is not the excluded one; none exactly when no such book exists |
| Books.UploadAll | Server/src/controllers/book.controller.js:43-48 | the URLs come back in file order, and the batch fails exactly when some upload returns null |
| Books.GetAllBooks | Server/src/controllers/book.controller.js:69-72 | every stored book exactly once, in collection order |
| Books.CreateBook | Server/src/controllers/book.controller.js:9-67 | users and categories are untouched; no error writes; a created book has the new id, the caller as owner, an existing category and at least one image |
| Books.CreateBookGuards | Server/src/controllers/book.controller.js:9-48 | missing fields (400), unknown category (400), duplicate title in the category (400), no images (400), failed upload (500), in that order; no error writes; success exactly when every guard passes |
| Books.CreateBookSuccess | Server/src/controllers/book.controller.js:50-59 | the stored book carries the submitted fields, the resolved category, the caller as owner and the URLs in file order; nothing else changes |
| Books.CreateBookTwice | Server/src/controllers/book.controller.js:31-35 | repeating a successful creation answers 400 (duplicate) and writes nothing |
| Books.CreateBookPreservesConsistent | Server/src/controllers/book.controller.js:9-67 | creation keeps the database consistent |
| Books.CreateBookKeepsTitlesUnique | Server/src/controllers/book.controller.js:31-59 | creation never puts two books with one title in one category |
| Books.UnsubmittedScope | Server/src/controllers/book.controller.js:104-105 | with no category submitted, the duplicate filter matches no book when the database reads `undefined` as null, and every book's category when it drops the clause |
| Books.Merge | Server/src/controllers/book.controller.js:111-120 | the update never changes a book's owner or its images |
| Books.UpdateBook | Server/src/controllers/book.controller.js:75-125 | users and categories are untouched; no error writes; no book is added or removed; the saved book keeps its owner and images |
| Books.UpdateBookGuards | Server/src/controllers/book.controller.js:75-109 | invalid id (400), unknown book (404), unknown submitted category (400), and a duplicate title (400) only when a title is submitted; the update succeeds exactly when the id is valid and stored, a submitted category resolves, and a submitted title has no other book in the filter's scope; no error writes |
| Books.UpdateBookSuccess | Server/src/controllers/book.controller.js:111-121 | a success rewrites only that book: truthy submitted fields and the resolved category replace its own, the rest is kept |
| Books.MergeIdempotent | Server/src/controllers/book.controller.js:111-120 | applying the same update twice is the same as applying it once |
| Books.MergeEmpty | Server/src/controllers/book.controller.js:111-120 | an update with no truthy field changes nothing |
| Books.UpdateBookPreservesConsistent | Server/src/controllers/book.controller.js:75-125 | an update keeps the database consistent |
| Books.PutKeepsTitlesUnique | Server/src/controllers/book.controller.js:120-121 | rewriting one book keeps titles unique when no other book has its new title and category |
| Books.UpdateBookKeepsTitlesUnique | Server/src/controllers/book.controller.js:103-121 | titles stay unique within a category when title and category are both submitted, when a title comes with no category and `undefined` is dropped from the filter, or when neither is submitted |
| Books.CategoryOnlyUpdateCanDuplicate | Server/src/controllers/book.controller.js:92-117 | a concrete database where moving a book to another category, without a title, leaves two books with one title in one category |
| Books.TitleOnlyUpdateCanDuplicate | Server/src/controllers/book.controller.js:103-121 | a concrete database where renaming a book, without a category, to another book's title in the same category passes the duplicate check when `undefined` reads as null |
| Books.DeleteBook | Server/src/controllers/book.controller.js:128-143 | users and categories are untouched; no error writes; a success removes exactly that id |
| Books.DeleteBookOutcome | Server/src/controllers/book.controller.js:128-143 | invalid id (400), unknown book (404), writing nothing; otherwise exactly that book is removed and returned |
| Books.DeleteBookTwice | Server/src/controllers/book.controller.js:135-138 | a second delete of the same id answers 404 |
| Books.DeleteBookPreservesConsistent | Server/src/controllers/book.controller.js:128-143 | deletion keeps the database consistent and titles unique |
| Categories.IsAdmin | Server/src/controllers/category.controller.js:20 | the inline role check compares the role's name with "admin"; `IsAdminIff` proves it holds exactly for the admin role |
| Categories.IsAdminIff | Server/src/controllers/category.controller.js:20 | the inline role check passes exactly for the admin role |
| Categories.FindByName | Server/src/controllers/category.controller.js:16 | the category found has the name, and none is found exactly when no category has it |
| Categories.GetAllCategories | Server/src/controllers/category.controller.js:33-36 | every stored category once, in collection order |
| Categories.CreateCategory | Server/src/controllers/category.controller.js:11-28 | users and books are untouched; no error writes; a success is for an admin and stores under the new id |
| Categories.UpdateCategory | Server/src/controllers/category.controller.js:41-61 | users and books are untouched; no error writes; a success is for an admin and adds or removes no category |
| Categories.DeleteCategory | Server/src/controllers/category.controller.js:65-78 | users and books are untouched; no error writes; a success is for an admin and removes exactly that id |
| Categories.CreateCategoryOutcome | Server/src/controllers/category.controller.js:11-28 | missing fields (400), taken name (400, for any caller), not admin (403); no error writes; success exactly when the fields are given, the caller is admin and the name is free, and it inserts that one category |
| Categories.UpdateCategoryOutcome | Server/src/controllers/category.controller.js:41-61 | invalid id (400), missing fields (400), not admin (403), unknown id (400); no error writes; a success replaces only that category's name and description |
| Categories.UpdateCategoryAllowsTakenName | Server/src/controllers/category.controller.js:48-56 | an admin may rename a category to a name another category already has |
| Categories.DeleteCategoryOutcome | Server/src/controllers/category.controller.js:65-78 | invalid id (400), not admin (403), unknown id (400); no error writes; a success removes and returns exactly that category and leaves the books |
| Categories.DeleteCategoryLeavesBooks | Server/src/controllers/category.controller.js:73 | books naming a deleted category keep naming it, and that category no longer resolves |
| Categories.CreateCategoryPreservesConsistent | Server/src/controllers/category.controller.js:11-28 | creating a category keeps the database consistent |
| Categories.UpdateCategoryPreservesConsistent | Server/src/controllers/category.controller.js:41-61 | updating a category keeps the database consistent |
| Categories.DeleteCategoryPreservesConsistent | Server/src/controllers/category.controller.js:65-78 | deleting a category keeps the database consistent |
| Middleware.SelectToken | Server/src/middleware/auth.middleware.js:8 | there is no token exactly when neither a usable cookie nor a header is sent, and a usable cookie is taken as it is |
| Middleware.CookieWins | Server/src/middleware/auth.middleware.js:8 | a non-empty cookie is used, whatever header comes with it |
| Middleware.BearerStripped | Server/src/middleware/auth.middleware.js:8 | without a cookie, `Bearer <token>` yields `<token>` |
| Middleware.HeaderFirstBearerCut | Server/src/middleware/auth.middleware.js:8 | without a cookie, the first `"Bearer "` is cut wherever it stands, and a header without one is taken whole |
| Middleware.Authenticate | Server/src/middleware/auth.middleware.js:6-27 | every refusal is a 401, and an admitted request carries a stored user |
| Middleware.AuthenticateOutcome | Server/src/middleware/auth.middleware.js:6-27 | every refusal is a 401; no token answers "Unauthorized"; a request passes exactly when its token verifies to the id of a stored user, and then carries that user |
| Middleware.LoginCookieAuthenticates | Server/src/middleware/auth.middleware.js:14-22 | when access tokens verify to their id until `ttlS` whole seconds after their `iat` and refresh tokens never pass the access-token verify, the access token of a successful login authenticates as the user who logged in while the current second is before `iat + ttlS`, and is refused with 401 from then on; that login's refresh token is refused with 401 at any time |
| Middleware.Request.constructor | Server/src/middleware/auth.middleware.js:8 | a request arrives with its cookie and header, no user attached and `next()` not called |
| Middleware.Request.Admit | Server/src/middleware/auth.middleware.js:21-22 | on success the user is attached and `next()` called; on failure neither happens |
| Middleware.AuthorAndAdmin | Server/src/middleware/authorAndAdmin.middleware.js:1-8 | the request passes exactly for authors and admins; every other caller gets 403 |
| Middleware.CustomersAndUsersRejected | Server/src/middleware/authorAndAdmin.middleware.js:2-7 | customers and plain users are answered 403 |
| Server.Store.SaveUser | Server/src/models/user.model.js:66-69 | `save()` on a stored document runs the hook and writes the document back under its id; books and categories are untouched |
| Server.Store.RegisterUser | Server/src/controllers/auth.controller.js:28-84 | the reply and new database are those of `Auth.Register`, and the database stays consistent |
| Server.Store.CreateUser | Server/src/controllers/auth.controller.js:58-76 | `User.create`, `generateOTP` and `save` store the hashed, unverified user with its OTP under the new id, and return that code |
| Server.Store.VerifyOtp | Server/src/controllers/auth.controller.js:88-109 | the reply and new database are those of `Auth.VerifyOtp`, and the database stays consistent |
| Server.Store.GenerateAccessAndRefreshToken | Server/src/controllers/auth.controller.js:12-25 | the reply and new database are those of `Auth.IssueTokens`, and the database stays consistent |
| Server.Store.LoginUser | Server/src/controllers/auth.controller.js:111-157 | the reply and new database are those of `Auth.Login`, and the database stays consistent |
| Server.Store.UploadImages | Server/src/controllers/book.controller.js:43-48 | uploading every file in turn gives what `Books.UploadAll` describes |
| Server.Store.CreateBook | Server/src/controllers/book.controller.js:9-67 | the reply and new database are those of `Books.CreateBook`, and the database stays consistent |
| Server.Store.GetAllBooks | Server/src/controllers/book.controller.js:69-72 | the books are those of `Books.GetAllBooks`, and nothing is written |
| Server.Store.UpdateBook | Server/src/controllers/book.controller.js:75-125 | the reply and new database are those of `Books.UpdateBook`, and the database stays consistent |
| Server.Store.Assign | Server/src/controllers/book.controller.js:111-120 | `Object.assign(book, updateData)` gives the book `Books.Merge` describes |
| Server.Store.DeleteBook | Server/src/controllers/book.controller.js:128-143 | the reply and new database are those of `Books.DeleteBook`, and the database stays consistent |
| Server.Store.CreateCategory | Server/src/controllers/category.controller.js:11-28 | the reply and new database are those of `Categories.CreateCategory`, and the database stays consistent |
| Server.Store.GetAllCategories | Server/src/controllers/category.controller.js:33-36 | the categories are those of `Categories.GetAllCategories`, and nothing is written |
| Server.Store.UpdateCategory | Server/src/controllers/category.controller.js:41-61 | the reply and new database are those of `Categories.UpdateCategory`, and the database stays consistent |
| Server.Store.DeleteCategory | Server/src/controllers/category.controller.js:65-78 | the reply and new database are those of `Categories.DeleteCategory`, and the database stays consistent |
| Server.Store.VerifyJwt | Server/src/middleware/auth.middleware.js:6-27 | the outcome is `Middleware.Authenticate`; on success the user is attached and `next()` called; on failure neither happens |

## Left out

- bcrypt, jsonwebtoken, Cloudinary and the mailer are opaque `Services` fields. Their internals are not modelled, including the salt rounds and the email text. The properties the lifecycle lemmas need are stated as requirements: a password matches its own hash, and (for `LoginCookieAuthenticates`) an access token verifies to its id until `ttlS` whole seconds after its `iat`, while a refresh token, signed with the other secret, never passes the access-token verify. `ttlS` is the access-token lifetime set by `ACCESS_TOKEN_EXPIRES_IN`, in seconds; it is a parameter, not a constant of the model. The refresh-token lifetime (`REFRESH_TOKEN_EXPIRES_IN`) plays no part, because no modelled handler verifies a refresh token.
- `Date.now()` and `Math.random()` are parameters. The draw is taken already scaled to an integer in [0, 900000), so the floating-point arithmetic of `Math.random() * 900000` is not modelled.
- Concurrency: each request runs to completion before the next one starts. Races between a uniqueness check and the insert that follows it are not modelled. The unique indexes on `userName` and `email`, which would catch such races, are not modelled either.
- Unique `userName`: the schema's unique index on `userName` is never checked by the handlers, and it is not part of `Consistent`.
- Mongoose number casting: price and stock arrive as their JavaScript truthiness plus the number mongoose casts them to. A value that fails to cast (a CastError) is not modelled.
- A field missing from the register body makes `undefined.trim()` throw a TypeError in the source (auth.controller.js:32), which reaches the client as a 500. The model's form always has all five string fields.
- A login with no `password` in the body reaches `bcrypt.compare(undefined, hash)`, which throws, so the source answers 500 (auth.controller.js:131). The model's password is always a string.
- A `verifyOTP` request with no `email` runs `findOne({ email: undefined })` (auth.controller.js:91). The model's email is always a string, so that filter's database-dependent result is not modelled.
- An OTP sent as a JSON number never passes, because `!==` compares it with the stored string (user.model.js:85). The model's entered code is always a string, so it does not capture this refusal.
- Books.UpdateBook, Books.DeleteBook, Books.ResolveCategory, Categories.UpdateCategory, Categories.DeleteCategory, Middleware.Authenticate: ids are compared as exact strings. mongoose casts a 24-digit hex id to an ObjectId whatever the case of its letters, so the source also finds a document when the id arrives in upper or mixed case. The model assumes ids arrive in the canonical lower-case form (book.controller.js:20, 84, 94, 135; category.controller.js:56, 73; auth.middleware.js:15).
- `createdUser`'s null check after `User.create` (auth.controller.js:70-72) cannot fail in the model, because the user was just stored.
- The null checks after `Book.create` and `Category.create` (book.controller.js:61-63, category.controller.js:24-26) cannot fail in the model either.
- `populate` in `getAllBooks` is left out: the model returns the stored ids of category and owner, not the joined documents.
- Cookies set by `loginUser` and the `ApiResponse` response envelope are left out. The model returns the reply's data only.
- Route wiring is not modelled:
  - which routes mount which middleware;
  - that the book routes are not mounted in `app.js`;
  - that `deleteBook` is not exported;
  - that `authorAndAdmin` is mounted on no route.
- category.models.js is not part of this model, so category names are compared exactly as submitted, without trimming.
- asyncHandler.js and ApiError.js are not part of this model. A thrown error is modelled as the `Err` status it carries.
- The other models (order, coupon, cart, review, wishlist) define schemas only, with no behaviour, and are not modelled.
- Store handlers hydrate a fresh `User` document per request and save it back. Aliasing between two live documents for one user is not modelled.
