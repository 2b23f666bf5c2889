/** The server as the handlers run it. The store holds the three collections as
    stored records; a handler that changes a user hydrates a `User` document from
    its record, changes it through the document's methods and saves it back, as
    mongoose does. Every handler is a method proved to do exactly what the pure
    function of the same name in `Auth`, `Books`, `Categories` or `Middleware`
    says, on the database `Model()` reads off the store, and to keep that
    database consistent. */
module Server {
  import opened Http
  import opened Text
  import opened Foreign
  import opened Tables
  import opened UserModel
  import opened Db
  import opened Auth
  import opened Books
  import opened Categories
  import opened Middleware

  class Store {
    var users: Table<UserRecord>
    var books: Table<Book>
    var categories: Table<Category>
    const svc: Services

    function Model(): State
      reads this
    {
      State(users, books, categories)
    }

    ghost predicate Valid()
      reads this
    {
      Consistent(Model(), svc)
    }

    /** An empty database. */
    constructor (svc: Services)
      ensures Valid() && this.svc == svc
      ensures Model() == State(Table([], map[]), Table([], map[]), Table([], map[]))
    {
      users := Table([], map[]);
      books := Table([], map[]);
      categories := Table([], map[]);
      this.svc := svc;
    }

    /** `doc.save()` on a document already stored: the pre-save hook runs and the
        document is written back under its id. */
    method SaveUser(u: User)
      requires u.id in users.rows
      modifies this, u
      ensures u.Snapshot() == PreSave(old(u.Snapshot()), old(u.passwordModified), svc.hash)
      ensures !u.passwordModified
      ensures users == old(users).Put(u.id, u.Snapshot())
      ensures books == old(books) && categories == old(categories)
    {
      u.Save(svc.hash);
      users := users.Put(u.id, u.Snapshot());
    }

    // -------------------------------------------------------------------------
    // auth.controller.js

    /** `registerUser`, with the id the database assigns and the clock and random
        draw `generateOTP` reads. */
    method RegisterUser(f: RegisterForm, avatarPath: Option<string>, newId: Id, now: int, draw: OtpDraw)
      returns (r: Result<string>)
      requires Valid() && newId !in users.rows && svc.isValidId(newId)
      modifies this
      ensures Valid()
      ensures (r, Model()) == Auth.Register(old(Model()), svc, f, avatarPath, newId, now, draw)
    {
      ghost var s0 := Model();
      if AnyBlank(f) {
        return Err(400, MissingFields);
      }
      var existing := FindByEmailOrPhone(users, f.email, f.phone);
      if existing.Some? {
        return Err(400, UserExists);
      }
      if avatarPath.None? || avatarPath.value == "" {
        return Err(400, AvatarMissing);
      }
      var avatar := svc.upload(avatarPath.value);
      if avatar.None? {
        return Err(500, AvatarUploadFailed);
      }
      var role := ParseRole(Trim(f.role));
      if role.None? || !IsTenDigitPhone(Trim(f.phone)) {
        return Err(500, SchemaRejected);
      }
      assert RegisterChecks(s0, svc, f, avatarPath) == Ok((avatar.value, role.value));
      var code, storedEmail := CreateUser(newId, Trim(f.userName), Trim(f.email), f.password, avatar.value,
                                          role.value, Trim(f.phone), now, draw);
      RegisterPreservesConsistent(s0, svc, f, avatarPath, newId, now, draw);
      if !svc.sendEmail(storedEmail, code) {
        return Err(500, EmailFailed);
      }
      return Ok(storedEmail);
    }

    /** `User.create` (the first save hashes the password), then `user.generateOTP()`
        and `user.save()`: the stored record carries the OTP whose code is returned. */
    method CreateUser(newId: Id, userName: string, email: string, password: string, avatar: Url, role: Role,
                      phone: string, now: int, draw: OtpDraw) returns (code: string, storedEmail: string)
      modifies this
      ensures var (c, rec) := IssueOtp(PreSave(UserRecord(newId, userName, email, password, avatar, role, None,
                                                          phone, None, None, None, false), true, svc.hash),
                                       now, draw);
        && code == c && storedEmail == rec.email
        && users == old(users).Insert(newId, rec)
        && books == old(books) && categories == old(categories)
    {
      var u := new User(newId, userName, email, password, avatar, role, phone);
      u.Save(svc.hash);
      users := users.Insert(newId, u.Snapshot());
      code := u.GenerateOTP(now, draw);
      SaveUser(u);
      storedEmail := u.email;
    }

    /** `verifyOTP` (the handler). */
    method VerifyOtp(email: string, code: string, now: int) returns (r: Result<Unit>)
      requires Valid()
      modifies this
      ensures Valid()
      ensures (r, Model()) == Auth.VerifyOtp(old(Model()), email, code, now)
    {
      ghost var s0 := Model();
      var found := FindByEmail(users, email);
      if found.None? {
        return Err(404, UserNotFound);
      }
      var u := new User.Hydrate(users.rows[found.value]);
      if u.isVerified {
        return Err(400, AlreadyVerified);
      }
      var ok := u.VerifyOTP(code, now);
      if !ok {
        return Err(400, InvalidOtp);
      }
      SaveUser(u);
      VerifyOtpPreservesConsistent(s0, svc, email, code, now);
      return Ok(Unit);
    }

    /** `generateAccessAndRefreshToken(userId)` */
    method GenerateAccessAndRefreshToken(userId: Id, now: int) returns (r: Result<(Token, Token)>)
      requires Valid()
      modifies this
      ensures Valid()
      ensures (r, Model()) == IssueTokens(old(Model()), svc, userId, now)
    {
      ghost var s0 := Model();
      if userId !in users.rows {
        return Err(500, TokenGenerationFailed);
      }
      var u := new User.Hydrate(users.rows[userId]);
      var accessToken := svc.sign(AccessClaimsOf(u.Snapshot(), now));
      var refreshToken := svc.sign(RefreshClaimsOf(u.Snapshot(), now));
      if accessToken.None? || refreshToken.None? {
        return Err(500, TokenGenerationFailed);
      }
      u.refreshToken := Some(refreshToken.value);
      SaveUser(u);
      IssueTokensOutcome(s0, svc, userId, now);
      PutUserPreservesConsistent(s0, svc, userId, u.Snapshot());
      return Ok((accessToken.value, refreshToken.value));
    }

    /** `loginUser` */
    method LoginUser(userName: Option<string>, email: Option<string>, password: string, now: int)
      returns (r: Result<LoginReply>)
      requires Valid()
      modifies this
      ensures Valid()
      ensures (r, Model()) == Login(old(Model()), svc, userName, email, password, now)
    {
      if !Truthy(userName) && !Truthy(email) {
        return Err(400, IdentifierRequired);
      }
      var found := FindForLogin(users, svc, userName, email);
      if found.None? {
        return Err(404, UserDoesNotExist);
      }
      var u := new User.Hydrate(users.rows[found.value]);
      if !u.isVerified {
        return Err(403, NotVerified);
      }
      if !u.IsPasswordCorrect(svc.compare, password) {
        return Err(401, BadCredentials);
      }
      var tokens := GenerateAccessAndRefreshToken(found.value, now);
      if tokens.Err? {
        return Err(tokens.status, tokens.reason);
      }
      // User.findById(user._id).select("-password -refreshToken")
      var loggedIn := Public(users.rows[found.value]);
      return Ok(LoginReply(loggedIn, tokens.value.0, tokens.value.1));
    }

    // -------------------------------------------------------------------------
    // book.controller.js

    /** Every uploaded file is sent to the image host, and one null result makes the
        whole batch fail. */
    method UploadImages(paths: seq<string>) returns (r: Option<seq<Url>>)
      ensures r == UploadAll(svc, paths)
    {
      var urls: seq<Url> := [];
      var failed := false;
      var i := 0;
      while i < |paths|
        invariant 0 <= i <= |paths|
        invariant failed <==> exists j :: 0 <= j < i && svc.upload(paths[j]).None?
        invariant !failed ==> |urls| == i && forall j :: 0 <= j < i ==> svc.upload(paths[j]) == Some(urls[j])
      {
        var result := svc.upload(paths[i]);
        if result.None? {
          failed := true;
        } else if !failed {
          urls := urls + [result.value];
        }
        i := i + 1;
      }
      if failed {
        return None;
      }
      var all := UploadAll(svc, paths);
      assert all.value == urls by {
        assert forall j :: 0 <= j < |paths| ==> all.value[j] == urls[j];
      }
      return Some(urls);
    }

    /** `createBook` for the authenticated `caller`, with the id the database assigns. */
    method CreateBook(caller: UserRecord, b: BookInput, files: seq<string>, newId: Id)
      returns (r: Result<(Id, Book)>)
      requires Valid() && newId !in books.rows && svc.isValidId(newId)
      modifies this
      ensures Valid()
      ensures (r, Model()) == Books.CreateBook(old(Model()), svc, caller, b, files, newId)
    {
      ghost var s0 := Model();
      if !AllGiven(b) {
        return Err(400, MissingFields);
      }
      var category := ResolveCategory(categories, svc, b.category.value);
      if category.None? {
        return Err(400, CategoryDoesNotExist);
      }
      var existing := FindDuplicate(books, b.title.value, InCategory(category.value), None);
      if existing.Some? {
        return Err(400, DuplicateBook);
      }
      if |files| == 0 {
        return Err(400, NoImages);
      }
      var imageUrls := UploadImages(files);
      if imageUrls.None? {
        return Err(500, ImageUploadFailed);
      }
      var book := Book(b.title.value, b.price.value.value, b.description.value, b.stock.value.value,
                       category.value, caller.id, imageUrls.value);
      books := books.Insert(newId, book);
      CreateBookPreservesConsistent(s0, svc, caller, b, files, newId);
      return Ok((newId, book));
    }

    /** `getAllBooks` */
    method GetAllBooks() returns (r: seq<Book>)
      requires Valid()
      ensures r == Books.GetAllBooks(Model())
    {
      r := [];
      var i := 0;
      while i < |books.order|
        invariant 0 <= i <= |books.order|
        invariant |r| == i && forall j :: 0 <= j < i ==> r[j] == books.rows[books.order[j]]
      {
        r := r + [books.rows[books.order[i]]];
        i := i + 1;
      }
    }

    /** `updateBook`: the checks, then `Object.assign(book, updateData)` with the
        truthy fields only, and `book.save()`. */
    method UpdateBook(bookid: string, b: BookInput) returns (r: Result<Book>)
      requires Valid()
      modifies this
      ensures Valid()
      ensures (r, Model()) == Books.UpdateBook(old(Model()), svc, bookid, b)
    {
      ghost var s0 := Model();
      if !svc.isValidId(bookid) {
        return Err(400, InvalidBookId);
      }
      if bookid !in books.rows {
        return Err(404, BookNotFound);
      }
      var book := books.rows[bookid];
      var category: Option<Id> := None;
      if Given(b.category) {
        category := ResolveCategory(categories, svc, b.category.value);
        if category.None? {
          return Err(400, CategoryDoesNotExist);
        }
      }
      if Given(b.title) {
        var scope := if category.Some? then InCategory(category.value) else UnsubmittedScope(svc, b.category);
        var existing := FindDuplicate(books, b.title.value, scope, Some(bookid));
        if existing.Some? {
          return Err(400, DuplicateBook);
        }
      }
      book := Assign(book, b, category);
      books := books.Put(bookid, book);
      UpdateBookPreservesConsistent(s0, svc, bookid, b);
      return Ok(book);
    }

    /** `Object.assign(book, updateData)`: each truthy submitted field, and the
        resolved category, overwrites the book's own. */
    static method Assign(book: Book, b: BookInput, category: Option<Id>) returns (r: Book)
      ensures r == Merge(book, b, category)
    {
      r := book;
      if Given(b.title) { r := r.(title := b.title.value); }
      if GivenNumber(b.price) { r := r.(price := b.price.value.value); }
      if Given(b.description) { r := r.(description := b.description.value); }
      if GivenNumber(b.stock) { r := r.(stock := b.stock.value.value); }
      if category.Some? { r := r.(category := category.value); }
    }

    /** `deleteBook` */
    method DeleteBook(bookid: string) returns (r: Result<Book>)
      requires Valid()
      modifies this
      ensures Valid()
      ensures (r, Model()) == Books.DeleteBook(old(Model()), svc, bookid)
    {
      ghost var s0 := Model();
      if !svc.isValidId(bookid) {
        return Err(400, InvalidBookId);
      }
      if bookid !in books.rows {
        return Err(404, BookNotFound);
      }
      var book := books.rows[bookid];
      books := books.Remove(bookid);
      DeleteBookPreservesConsistent(s0, svc, bookid);
      return Ok(book);
    }

    // -------------------------------------------------------------------------
    // category.controller.js

    /** `createCategory` for the authenticated `caller`, with the id the database assigns. */
    method CreateCategory(caller: UserRecord, name: Option<string>, description: Option<string>, newId: Id)
      returns (r: Result<(Id, Category)>)
      requires Valid() && newId !in categories.rows && svc.isValidId(newId)
      modifies this
      ensures Valid()
      ensures (r, Model()) == Categories.CreateCategory(old(Model()), caller, name, description, newId)
    {
      ghost var s0 := Model();
      if !Given(name) || !Given(description) {
        return Err(400, MissingFields);
      }
      var existing := FindByName(categories, name.value);
      if existing.Some? {
        return Err(400, CategoryExists);
      }
      if !IsAdmin(caller) {
        return Err(403, NotAdmin);
      }
      var category := Category(name.value, description.value);
      categories := categories.Insert(newId, category);
      CreateCategoryPreservesConsistent(s0, svc, caller, name, description, newId);
      return Ok((newId, category));
    }

    /** `getAllCategories` */
    method GetAllCategories() returns (r: seq<Category>)
      requires Valid()
      ensures r == Categories.GetAllCategories(Model())
    {
      r := [];
      var i := 0;
      while i < |categories.order|
        invariant 0 <= i <= |categories.order|
        invariant |r| == i && forall j :: 0 <= j < i ==> r[j] == categories.rows[categories.order[j]]
      {
        r := r + [categories.rows[categories.order[i]]];
        i := i + 1;
      }
    }

    /** `updateCategory` */
    method UpdateCategory(caller: UserRecord, categoryid: string, name: Option<string>,
                          description: Option<string>) returns (r: Result<(Id, Category)>)
      requires Valid()
      modifies this
      ensures Valid()
      ensures (r, Model()) == Categories.UpdateCategory(old(Model()), svc, caller, categoryid, name, description)
    {
      ghost var s0 := Model();
      if !svc.isValidId(categoryid) {
        return Err(400, InvalidCategoryId);
      }
      if !Given(name) || !Given(description) {
        return Err(400, MissingFields);
      }
      if !IsAdmin(caller) {
        return Err(403, NotAdmin);
      }
      if categoryid !in categories.rows {
        return Err(400, CategoryNotUpdated);
      }
      var category := Category(name.value, description.value);
      categories := categories.Put(categoryid, category);
      UpdateCategoryPreservesConsistent(s0, svc, caller, categoryid, name, description);
      return Ok((categoryid, category));
    }

    /** `deleteCategory` */
    method DeleteCategory(caller: UserRecord, categoryid: string) returns (r: Result<(Id, Category)>)
      requires Valid()
      modifies this
      ensures Valid()
      ensures (r, Model()) == Categories.DeleteCategory(old(Model()), svc, caller, categoryid)
    {
      ghost var s0 := Model();
      if !svc.isValidId(categoryid) {
        return Err(400, InvalidCategoryId);
      }
      if !IsAdmin(caller) {
        return Err(403, NotAdmin);
      }
      if categoryid !in categories.rows {
        return Err(400, CategoryNotDeleted);
      }
      var category := categories.rows[categoryid];
      categories := categories.Remove(categoryid);
      DeleteCategoryPreservesConsistent(s0, svc, caller, categoryid);
      return Ok((categoryid, category));
    }

    // -------------------------------------------------------------------------
    // auth.middleware.js

    /** `verifyJwt` on `req`: on success the stored user is attached and `next()` is
        called; on failure neither happens. The database is only read. */
    method VerifyJwt(req: Request, now: int) returns (r: Result<UserRecord>)
      modifies req
      ensures r == Authenticate(Model(), svc, req.cookieToken, req.authorization, now)
      ensures r.Ok? ==> req.user == Some(r.value) && req.nextCalled
      ensures r.Err? ==> req.user == old(req.user) && req.nextCalled == old(req.nextCalled)
    {
      var token := SelectToken(req.cookieToken, req.authorization);
      if !Given(token) {
        return Err(401, Unauthorized);
      }
      var decoded := svc.verify(token.value, now);
      if decoded.None? || !svc.isValidId(decoded.value) {
        return Err(401, TokenRejected);
      }
      if decoded.value !in users.rows {
        return Err(401, InvalidAccessToken);
      }
      r := Ok(users.rows[decoded.value]);
      req.Admit(r);
    }
  }
}
