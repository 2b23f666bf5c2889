/** The book controller: `createBook`, `updateBook`, `deleteBook` and `getAllBooks`
    as functions from the database to a reply and the next database. */
module Books {
  import opened Http
  import opened Foreign
  import opened Tables
  import opened UserModel
  import opened Db

  /** A text field of the request body: absent, or the submitted string. */
  predicate Given(v: Option<string>) {
    v.Some? && v.value != ""
  }

  /** A numeric field of the request body: whether JavaScript reads the submitted
      value as truthy (a JSON `0` is falsy, a form string `"0"` is not), and the
      number mongoose casts it to. */
  datatype NumberInput = NumberInput(truthy: bool, value: real)

  predicate GivenNumber(v: Option<NumberInput>) {
    v.Some? && v.value.truthy
  }

  /** `{ title, price, description, stock, category } = req.body` */
  datatype BookInput = BookInput(title: Option<string>, price: Option<NumberInput>,
                                 description: Option<string>, stock: Option<NumberInput>,
                                 category: Option<string>)

  /** An id-shaped value is looked up by id (`findById`), anything else by name
      (`findOne({ name })`, the first category in collection order). */
  function ResolveCategory(categories: Table<Category>, svc: Services, c: string): (r: Option<Id>)
    ensures r.Some? ==> r.value in categories.rows
    ensures svc.isValidId(c) ==> r == (if c in categories.rows then Some(c) else None)
    ensures !svc.isValidId(c) && r.Some? ==> categories.rows[r.value].name == c
    ensures !svc.isValidId(c) && categories.Valid() ==>
      (r.None? <==> forall k :: k in categories.rows ==> categories.rows[k].name != c)
  {
    if svc.isValidId(c) then (if c in categories.rows then Some(c) else None)
    else categories.FindFirst((cat: Category) => cat.name == c)
  }

  /** The `category` clause of the duplicate-title filter. */
  datatype CategoryScope =
    | InCategory(id: Id)   // `category` holds this value
    | AnyCategory          // `category: undefined` dropped from the filter
    | NullCategory         // `category: undefined` sent as null: no stored book lacks one

  predicate InScope(scope: CategoryScope, category: Id) {
    match scope
    case InCategory(id) => category == id
    case AnyCategory => true
    case NullCategory => false
  }

  /** The filter `{ title, category }`. */
  predicate TitleMatch(b: Book, title: string, scope: CategoryScope) {
    b.title == title && InScope(scope, b.category)
  }

  /** `Book.findOne({ title, category })`, with `_id: { $ne: except }` when updating:
      the first matching book other than `except`. */
  function FindDuplicate(books: Table<Book>, title: string, scope: CategoryScope,
                         except: Option<Id>): (r: Option<Id>)
    ensures r.Some? ==> r.value in books.rows && Some(r.value) != except
                        && TitleMatch(books.rows[r.value], title, scope)
    ensures books.Valid() ==>
      (r.None? <==> forall k :: k in books.rows && Some(k) != except ==> !TitleMatch(books.rows[k], title, scope))
  {
    var pool := if except.Some? then Table(books.order, books.rows - {except.value}) else books;
    var r := pool.FindFirst((b: Book) => TitleMatch(b, title, scope));
    assert books.Valid() && r.None? ==>
      forall k :: k in books.rows && Some(k) != except ==> !TitleMatch(books.rows[k], title, scope) by {
      if books.Valid() && r.None? {
        forall k | k in books.rows && Some(k) != except
          ensures !TitleMatch(books.rows[k], title, scope)
        {
          var i :| 0 <= i < |books.order| && books.order[i] == k;
          assert pool.order[i] == k && k in pool.rows;
        }
      }
    }
    r
  }

  /** Every uploaded file sent to the image host at once: the URLs in file order,
      or `None` when an upload returns null (reading its URL then throws). */
  function UploadAll(svc: Services, paths: seq<string>): (r: Option<seq<Url>>)
    ensures r.Some? ==> |r.value| == |paths|
                        && forall i :: 0 <= i < |paths| ==> svc.upload(paths[i]) == Some(r.value[i])
    ensures r.None? <==> exists i :: 0 <= i < |paths| && svc.upload(paths[i]).None?
  {
    if paths == [] then Some([])
    else
      var rest := UploadAll(svc, paths[1..]);
      assert rest.None? ==> exists i :: 0 <= i < |paths| && svc.upload(paths[i]).None? by {
        if rest.None? {
          var j :| 0 <= j < |paths[1..]| && svc.upload(paths[1..][j]).None?;
          assert paths[j + 1] == paths[1..][j];
        }
      }
      match (svc.upload(paths[0]), rest)
      case (Some(u), Some(us)) =>
        assert forall i :: 1 <= i < |paths| ==> paths[i] == paths[1..][i - 1];
        Some([u] + us)
      case _ => None
  }

  // ---------------------------------------------------------------------------
  // createBook

  predicate AllGiven(b: BookInput) {
    Given(b.title) && GivenNumber(b.price) && Given(b.description) && GivenNumber(b.stock) && Given(b.category)
  }

  /** `createBook` for the authenticated `caller`; `newId` is the id the database assigns.
      The reply is the stored book with its id. */
  function CreateBook(s: State, svc: Services, caller: UserRecord, b: BookInput, files: seq<string>,
                      newId: Id): (r: (Result<(Id, Book)>, State))
    ensures r.1.users == s.users && r.1.categories == s.categories
    ensures r.0.Err? ==> r.1 == s
    ensures r.0.Ok? ==> r.0.value.0 == newId && r.0.value.1.owner == caller.id
                        && r.0.value.1.category in s.categories.rows && r.0.value.1.images != []
  {
    if !AllGiven(b) then (Err(400, MissingFields), s)
    else
      match ResolveCategory(s.categories, svc, b.category.value)
      case None => (Err(400, CategoryDoesNotExist), s)
      case Some(cid) =>
        if FindDuplicate(s.books, b.title.value, InCategory(cid), None).Some? then (Err(400, DuplicateBook), s)
        else if files == [] then (Err(400, NoImages), s)
        else
          match UploadAll(svc, files)
          case None => (Err(500, ImageUploadFailed), s)
          case Some(urls) =>
            var book := Book(b.title.value, b.price.value.value, b.description.value, b.stock.value.value,
                             cid, caller.id, urls);
            (Ok((newId, book)), s.(books := s.books.Insert(newId, book)))
  }

  // ---------------------------------------------------------------------------
  // updateBook

  /** The `category` clause when no truthy category was submitted: the falsy value
      itself, or `undefined` as the database reads it. */
  function UnsubmittedScope(svc: Services, category: Option<string>): (r: CategoryScope)
    ensures category.None? && !svc.undefinedMatchesAll ==> forall c :: !InScope(r, c)
    ensures category.None? && svc.undefinedMatchesAll ==> forall c :: InScope(r, c)
  {
    match category
    case Some(v) => InCategory(v)
    case None => if svc.undefinedMatchesAll then AnyCategory else NullCategory
  }

  /** `Object.assign(book, updateData)`, where `updateData` holds only the truthy
      submitted fields and the resolved category id. */
  function Merge(book: Book, b: BookInput, category: Option<Id>): (m: Book)
    ensures m.owner == book.owner && m.images == book.images
  {
    Book(if Given(b.title) then b.title.value else book.title,
         if GivenNumber(b.price) then b.price.value.value else book.price,
         if Given(b.description) then b.description.value else book.description,
         if GivenNumber(b.stock) then b.stock.value.value else book.stock,
         if category.Some? then category.value else book.category,
         book.owner,
         book.images)
  }

  /** `updateBook`: the reply is the book as saved. */
  function UpdateBook(s: State, svc: Services, bookid: string, b: BookInput): (r: (Result<Book>, State))
    ensures r.1.users == s.users && r.1.categories == s.categories
    ensures r.0.Err? ==> r.1 == s
    ensures r.1.books.rows.Keys == s.books.rows.Keys
    ensures r.0.Ok? ==> bookid in s.books.rows && r.0.value.owner == s.books.rows[bookid].owner
                        && r.0.value.images == s.books.rows[bookid].images
  {
    if !svc.isValidId(bookid) then (Err(400, InvalidBookId), s)
    else if bookid !in s.books.rows then (Err(404, BookNotFound), s)
    else
      var resolved := if Given(b.category) then ResolveCategory(s.categories, svc, b.category.value) else None;
      if Given(b.category) && resolved.None? then (Err(400, CategoryDoesNotExist), s)
      else
        var scope := if resolved.Some? then InCategory(resolved.value) else UnsubmittedScope(svc, b.category);
        if Given(b.title) && FindDuplicate(s.books, b.title.value, scope, Some(bookid)).Some? then
          (Err(400, DuplicateBook), s)
        else
          var book := Merge(s.books.rows[bookid], b, resolved);
          (Ok(book), s.(books := s.books.Put(bookid, book)))
  }

  // ---------------------------------------------------------------------------
  // deleteBook and getAllBooks

  /** `deleteBook`: the reply is the removed book. */
  function DeleteBook(s: State, svc: Services, bookid: string): (r: (Result<Book>, State))
    ensures r.1.users == s.users && r.1.categories == s.categories
    ensures r.0.Err? ==> r.1 == s
    ensures r.0.Ok? ==> r.1.books.rows.Keys == s.books.rows.Keys - {bookid}
  {
    if !svc.isValidId(bookid) then (Err(400, InvalidBookId), s)
    else if bookid !in s.books.rows then (Err(404, BookNotFound), s)
    else (Ok(s.books.rows[bookid]), s.(books := s.books.Remove(bookid)))
  }

  /** `getAllBooks`: every book in collection order; nothing is written. */
  function GetAllBooks(s: State): (r: seq<Book>)
    requires s.books.Valid()
    ensures |r| == |s.books.order|
    ensures forall i :: 0 <= i < |r| ==> s.books.order[i] in s.books.rows && r[i] == s.books.rows[s.books.order[i]]
    ensures forall k :: k in s.books.rows ==> exists i :: 0 <= i < |r| && s.books.order[i] == k && r[i] == s.books.rows[k]
  {
    s.books.All()
  }

  // ---------------------------------------------------------------------------
  // Properties

  /** No two books share both title and category. */
  ghost predicate UniqueTitles(books: map<Id, Book>) {
    forall i, j :: i in books && j in books && i != j ==>
      books[i].title != books[j].title || books[i].category != books[j].category
  }

  /** The guards of `createBook` answer in the source's order; missing fields are
      refused whatever the database holds; no error writes; and the request
      succeeds exactly when every guard passes. */
  lemma CreateBookGuards(s: State, svc: Services, caller: UserRecord, b: BookInput, files: seq<string>,
                         newId: Id)
    requires s.books.Valid()
    ensures var (r, s') := CreateBook(s, svc, caller, b, files, newId);
            var rc := if AllGiven(b) then ResolveCategory(s.categories, svc, b.category.value) else None;
            var dup := rc.Some? && exists k :: k in s.books.rows && s.books.rows[k].title == b.title.value
                                             && s.books.rows[k].category == rc.value;
      && (!AllGiven(b) ==> r == Err(400, MissingFields))
      && (AllGiven(b) && rc.None? ==> r == Err(400, CategoryDoesNotExist))
      && (dup ==> r == Err(400, DuplicateBook))
      && (rc.Some? && !dup && files == [] ==> r == Err(400, NoImages))
      && (rc.Some? && !dup && files != [] && (exists i :: 0 <= i < |files| && svc.upload(files[i]).None?)
          ==> r == Err(500, ImageUploadFailed))
      && (r.Err? ==> s' == s)
      && (r.Ok? <==> rc.Some? && !dup && files != [] && forall i :: 0 <= i < |files| ==> svc.upload(files[i]).Some?)
  {
    if AllGiven(b) {
      var rc := ResolveCategory(s.categories, svc, b.category.value);
      if rc.Some? {
        var d := FindDuplicate(s.books, b.title.value, InCategory(rc.value), None);
        assert d.Some? <==> exists k :: k in s.books.rows && s.books.rows[k].title == b.title.value
                                        && s.books.rows[k].category == rc.value by {
          if d.None? {
            assert forall k :: k in s.books.rows ==> !TitleMatch(s.books.rows[k], b.title.value, InCategory(rc.value));
          }
        }
      }
    }
  }

  /** A created book carries the submitted fields, the resolved category id, the
      caller as owner and the upload URLs in file order; it is appended to the
      books and nothing else changes. */
  lemma CreateBookSuccess(s: State, svc: Services, caller: UserRecord, b: BookInput, files: seq<string>,
                          newId: Id)
    requires CreateBook(s, svc, caller, b, files, newId).0.Ok?
    ensures var (r, s') := CreateBook(s, svc, caller, b, files, newId);
            var (id, book) := r.value;
      && id == newId
      && s'.books == s.books.Insert(newId, book) && s'.users == s.users && s'.categories == s.categories
      && AllGiven(b)
      && book.title == b.title.value && book.description == b.description.value
      && book.price == b.price.value.value && book.stock == b.stock.value.value
      && ResolveCategory(s.categories, svc, b.category.value) == Some(book.category)
      && book.category in s.categories.rows
      && book.owner == caller.id
      && |book.images| == |files| && (forall i :: 0 <= i < |files| ==> svc.upload(files[i]) == Some(book.images[i]))
  {
  }

  /** Repeating a successful `createBook` is refused as a duplicate and writes nothing. */
  lemma CreateBookTwice(s: State, svc: Services, caller: UserRecord, b: BookInput, files: seq<string>,
                        newId: Id, caller': UserRecord, files': seq<string>, newId': Id)
    requires s.books.Valid() && newId !in s.books.rows
    requires CreateBook(s, svc, caller, b, files, newId).0.Ok?
    ensures var s' := CreateBook(s, svc, caller, b, files, newId).1;
            CreateBook(s', svc, caller', b, files', newId') == (Err(400, DuplicateBook), s')
  {
    CreateBookSuccess(s, svc, caller, b, files, newId);
    var s' := CreateBook(s, svc, caller, b, files, newId).1;
    var book := s'.books.rows[newId];
    assert s'.categories == s.categories;
    assert FindDuplicate(s'.books, b.title.value, InCategory(book.category), None).Some? by {
      assert s'.books.Valid();
      assert TitleMatch(s'.books.rows[newId], b.title.value, InCategory(book.category));
    }
  }

  lemma CreateBookPreservesConsistent(s: State, svc: Services, caller: UserRecord, b: BookInput,
                                      files: seq<string>, newId: Id)
    requires Consistent(s, svc) && newId !in s.books.rows && svc.isValidId(newId)
    ensures Consistent(CreateBook(s, svc, caller, b, files, newId).1, svc)
  {
    if CreateBook(s, svc, caller, b, files, newId).0.Ok? {
      CreateBookSuccess(s, svc, caller, b, files, newId);
    }
  }

  /** `createBook` never makes two books with one title in one category. */
  lemma CreateBookKeepsTitlesUnique(s: State, svc: Services, caller: UserRecord, b: BookInput,
                                    files: seq<string>, newId: Id)
    requires s.books.Valid() && UniqueTitles(s.books.rows) && newId !in s.books.rows
    ensures UniqueTitles(CreateBook(s, svc, caller, b, files, newId).1.books.rows)
  {
    if CreateBook(s, svc, caller, b, files, newId).0.Ok? {
      CreateBookGuards(s, svc, caller, b, files, newId);
      CreateBookSuccess(s, svc, caller, b, files, newId);
    }
  }

  /** The guards of `updateBook` in order: a malformed id (400), an unknown book
      (404), a submitted category that resolves to nothing (400), and, only when a
      title is submitted, another book with that title in the checked scope (400).
      No error writes. */
  lemma UpdateBookGuards(s: State, svc: Services, bookid: string, b: BookInput)
    requires s.books.Valid()
    ensures var (r, s') := UpdateBook(s, svc, bookid, b);
      && (!svc.isValidId(bookid) ==> r == Err(400, InvalidBookId))
      && (svc.isValidId(bookid) && bookid !in s.books.rows ==> r == Err(404, BookNotFound))
      && ((svc.isValidId(bookid) && bookid in s.books.rows && Given(b.category)
           && ResolveCategory(s.categories, svc, b.category.value).None?) ==> r == Err(400, CategoryDoesNotExist))
      && (r == Err(400, DuplicateBook) ==> Given(b.title))
      && ((svc.isValidId(bookid) && bookid in s.books.rows && Given(b.title) && Given(b.category)
           && ResolveCategory(s.categories, svc, b.category.value).Some?
           && (exists k :: k in s.books.rows && k != bookid && s.books.rows[k].title == b.title.value
                 && s.books.rows[k].category == ResolveCategory(s.categories, svc, b.category.value).value))
          ==> r == Err(400, DuplicateBook))
      && (r.Ok? <==>
            && svc.isValidId(bookid) && bookid in s.books.rows
            && (Given(b.category) ==> ResolveCategory(s.categories, svc, b.category.value).Some?)
            && (Given(b.title) ==>
                  var scope := if Given(b.category)
                               then InCategory(ResolveCategory(s.categories, svc, b.category.value).value)
                               else UnsubmittedScope(svc, b.category);
                  FindDuplicate(s.books, b.title.value, scope, Some(bookid)).None?))
      && (r.Err? ==> s' == s)
  {
    if svc.isValidId(bookid) && bookid in s.books.rows && Given(b.title) && Given(b.category) {
      var rc := ResolveCategory(s.categories, svc, b.category.value);
      if rc.Some? {
        var d := FindDuplicate(s.books, b.title.value, InCategory(rc.value), Some(bookid));
        if d.None? {
          assert forall k :: k in s.books.rows && k != bookid ==>
            !TitleMatch(s.books.rows[k], b.title.value, InCategory(rc.value));
        }
      }
    }
  }

  /** A successful update rewrites only the book it names, with the submitted
      truthy fields and the resolved category; owner and images are kept, and so
      is every field left out of the request. */
  lemma UpdateBookSuccess(s: State, svc: Services, bookid: string, b: BookInput)
    requires UpdateBook(s, svc, bookid, b).0.Ok?
    ensures var (r, s') := UpdateBook(s, svc, bookid, b);
            var prev := s.books.rows[bookid];
            var book := r.value;
      && bookid in s.books.rows
      && s'.books == s.books.Put(bookid, book) && s'.users == s.users && s'.categories == s.categories
      && book.owner == prev.owner && book.images == prev.images
      && book.title == (if Given(b.title) then b.title.value else prev.title)
      && book.price == (if GivenNumber(b.price) then b.price.value.value else prev.price)
      && book.description == (if Given(b.description) then b.description.value else prev.description)
      && book.stock == (if GivenNumber(b.stock) then b.stock.value.value else prev.stock)
      && (Given(b.category) ==> ResolveCategory(s.categories, svc, b.category.value) == Some(book.category))
      && (!Given(b.category) ==> book.category == prev.category)
  {
  }

  /** Applying the same update twice is the same as applying it once. */
  lemma MergeIdempotent(book: Book, b: BookInput, category: Option<Id>)
    ensures Merge(Merge(book, b, category), b, category) == Merge(book, b, category)
  {
  }

  /** An update carrying no truthy field changes nothing. */
  lemma MergeEmpty(book: Book, b: BookInput)
    requires !Given(b.title) && !GivenNumber(b.price) && !Given(b.description) && !GivenNumber(b.stock)
    ensures Merge(book, b, None) == book
  {
  }

  lemma UpdateBookPreservesConsistent(s: State, svc: Services, bookid: string, b: BookInput)
    requires Consistent(s, svc)
    ensures Consistent(UpdateBook(s, svc, bookid, b).1, svc)
  {
    if UpdateBook(s, svc, bookid, b).0.Ok? {
      UpdateBookSuccess(s, svc, bookid, b);
    }
  }

  /** Rewriting one book keeps titles unique when no other book has its new title
      and category. */
  lemma PutKeepsTitlesUnique(rows: map<Id, Book>, id: Id, book: Book)
    requires UniqueTitles(rows)
    requires forall k :: k in rows && k != id ==> rows[k].title != book.title || rows[k].category != book.category
    ensures UniqueTitles(rows[id := book])
  {
    var rows' := rows[id := book];
    forall i, j | i in rows' && j in rows' && i != j
      ensures rows'[i].title != rows'[j].title || rows'[i].category != rows'[j].category
    {
      if i != id && j != id {
        assert rows'[i] == rows[i] && rows'[j] == rows[j];
      }
    }
  }

  /** Titles stay unique within a category when the update names both a title and
      a category (or names a title, sends no category at all, and the database drops
      the absent category from the filter), or names neither. */
  lemma UpdateBookKeepsTitlesUnique(s: State, svc: Services, bookid: string, b: BookInput)
    requires s.books.Valid() && UniqueTitles(s.books.rows)
    requires (Given(b.title) && (Given(b.category) || (b.category.None? && svc.undefinedMatchesAll)))
             || (!Given(b.title) && !Given(b.category))
    ensures UniqueTitles(UpdateBook(s, svc, bookid, b).1.books.rows)
  {
    var (r, s') := UpdateBook(s, svc, bookid, b);
    if r.Ok? {
      UpdateBookSuccess(s, svc, bookid, b);
      var book := r.value;
      assert forall k :: k in s.books.rows && k != bookid ==>
        s.books.rows[k].title != book.title || s.books.rows[k].category != book.category by {
        if Given(b.title) {
          var resolved := if Given(b.category) then ResolveCategory(s.categories, svc, b.category.value) else None;
          var scope := if resolved.Some? then InCategory(resolved.value) else UnsubmittedScope(svc, b.category);
          assert FindDuplicate(s.books, b.title.value, scope, Some(bookid)).None?;
          assert InScope(scope, book.category);
        } else {
          var prev := s.books.rows[bookid];
          assert book.title == prev.title && book.category == prev.category;
        }
      }
      PutKeepsTitlesUnique(s.books.rows, bookid, book);
    }
  }

  /** Moving a book into another category without submitting a title skips the
      duplicate check, so two books of one title can end up in one category. */
  lemma CategoryOnlyUpdateCanDuplicate()
    ensures var svc := Services((p: string) => p, (p: string, h: string) => p == h, (c: Claims) => None,
                                (t: Token, n: int) => None, (x: string) => true, (p: string) => None,
                                (a: string, t: string) => true, false);
            var s := State(Table([], map[]),
                           Table(["b1", "b2"], map["b1" := Book("X", 1.0, "d", 1.0, "c1", "o", []),
                                                   "b2" := Book("X", 1.0, "d", 1.0, "c2", "o", [])]),
                           Table(["c1", "c2"], map["c1" := Category("A", "d"), "c2" := Category("B", "d")]));
            var (r, s') := UpdateBook(s, svc, "b2", BookInput(None, None, None, None, Some("c1")));
      && UniqueTitles(s.books.rows) && r.Ok? && !UniqueTitles(s'.books.rows)
  {
    var svc := Services((p: string) => p, (p: string, h: string) => p == h, (c: Claims) => None,
                        (t: Token, n: int) => None, (x: string) => true, (p: string) => None,
                        (a: string, t: string) => true, false);
    var s := State(Table([], map[]),
                   Table(["b1", "b2"], map["b1" := Book("X", 1.0, "d", 1.0, "c1", "o", []),
                                           "b2" := Book("X", 1.0, "d", 1.0, "c2", "o", [])]),
                   Table(["c1", "c2"], map["c1" := Category("A", "d"), "c2" := Category("B", "d")]));
    var s' := UpdateBook(s, svc, "b2", BookInput(None, None, None, None, Some("c1"))).1;
    assert s'.books.rows["b1"].category == s'.books.rows["b2"].category == "c1";
  }

  /** Renaming a book without submitting a category, where the database reads the
      absent category as null, checks no stored book at all (every book has a
      category), so a book can take the title of another in its own category. */
  lemma TitleOnlyUpdateCanDuplicate()
    ensures var svc := Services((p: string) => p, (p: string, h: string) => p == h, (c: Claims) => None,
                                (t: Token, n: int) => None, (x: string) => true, (p: string) => None,
                                (a: string, t: string) => true, false);
            var s := State(Table([], map[]),
                           Table(["b1", "b2"], map["b1" := Book("X", 1.0, "d", 1.0, "c1", "o", []),
                                                   "b2" := Book("Y", 1.0, "d", 1.0, "c1", "o", [])]),
                           Table(["c1"], map["c1" := Category("A", "d")]));
            var (r, s') := UpdateBook(s, svc, "b2", BookInput(Some("X"), None, None, None, None));
      && UniqueTitles(s.books.rows) && r.Ok? && !UniqueTitles(s'.books.rows)
  {
    var svc := Services((p: string) => p, (p: string, h: string) => p == h, (c: Claims) => None,
                        (t: Token, n: int) => None, (x: string) => true, (p: string) => None,
                        (a: string, t: string) => true, false);
    var s := State(Table([], map[]),
                   Table(["b1", "b2"], map["b1" := Book("X", 1.0, "d", 1.0, "c1", "o", []),
                                           "b2" := Book("Y", 1.0, "d", 1.0, "c1", "o", [])]),
                   Table(["c1"], map["c1" := Category("A", "d")]));
    assert FindDuplicate(s.books, "X", NullCategory, Some("b2")).None?;
    var s' := UpdateBook(s, svc, "b2", BookInput(Some("X"), None, None, None, None)).1;
    assert s'.books.rows["b1"].title == s'.books.rows["b2"].title == "X";
  }

  /** `deleteBook`: a malformed id answers 400 and an unknown one 404, writing
      nothing; otherwise exactly that book is removed and returned. */
  lemma DeleteBookOutcome(s: State, svc: Services, bookid: string)
    ensures var (r, s') := DeleteBook(s, svc, bookid);
      && (!svc.isValidId(bookid) ==> r == Err(400, InvalidBookId))
      && (svc.isValidId(bookid) && bookid !in s.books.rows ==> r == Err(404, BookNotFound))
      && (r.Err? ==> s' == s)
      && (r.Ok? <==> svc.isValidId(bookid) && bookid in s.books.rows)
      && (r.Ok? ==>
            && r.value == s.books.rows[bookid]
            && s'.books.rows.Keys == s.books.rows.Keys - {bookid}
            && (forall k :: k in s'.books.rows ==> s'.books.rows[k] == s.books.rows[k])
            && s'.users == s.users && s'.categories == s.categories)
  {
  }

  /** A second delete of the same id finds nothing. */
  lemma DeleteBookTwice(s: State, svc: Services, bookid: string)
    requires DeleteBook(s, svc, bookid).0.Ok?
    ensures var s' := DeleteBook(s, svc, bookid).1;
            DeleteBook(s', svc, bookid) == (Err(404, BookNotFound), s')
  {
    DeleteBookOutcome(s, svc, bookid);
  }

  lemma DeleteBookPreservesConsistent(s: State, svc: Services, bookid: string)
    requires Consistent(s, svc)
    ensures Consistent(DeleteBook(s, svc, bookid).1, svc)
    ensures UniqueTitles(s.books.rows) ==> UniqueTitles(DeleteBook(s, svc, bookid).1.books.rows)
  {
    if DeleteBook(s, svc, bookid).0.Ok? {
      s.books.RemoveKeepsValid(bookid);
    }
  }
}
