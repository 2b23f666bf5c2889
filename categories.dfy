/** The category controller: `createCategory`, `getAllCategories`, `updateCategory`
    and `deleteCategory`, each with its inline admin check. The category schema
    file is not part of this model, so names are compared exactly as submitted. */
module Categories {
  import opened Http
  import opened Foreign
  import opened Tables
  import opened UserModel
  import opened Db
  import opened Books

  /** The inline role check: the caller's role is named "admin". */
  predicate IsAdmin(caller: UserRecord) {
    RoleName(caller.role) == "admin"
  }

  lemma IsAdminIff(caller: UserRecord)
    ensures IsAdmin(caller) <==> caller.role == Admin
  {
    RoleNameRoundTrip(caller.role);
  }

  /** The first category with the given name. */
  function FindByName(categories: Table<Category>, name: string): (r: Option<Id>)
    ensures r.Some? ==> r.value in categories.rows && categories.rows[r.value].name == name
    ensures categories.Valid() ==>
      (r.None? <==> forall k :: k in categories.rows ==> categories.rows[k].name != name)
  {
    categories.FindFirst((c: Category) => c.name == name)
  }

  /** `createCategory`: missing fields (400), an existing name (400, checked before
      the role), a caller who is not an admin (403); then the category is stored
      under the id the database assigns, and returned. */
  function CreateCategory(s: State, caller: UserRecord, name: Option<string>, description: Option<string>,
                          newId: Id): (r: (Result<(Id, Category)>, State))
    ensures r.1.users == s.users && r.1.books == s.books
    ensures r.0.Err? ==> r.1 == s
    ensures r.0.Ok? ==> IsAdmin(caller) && r.0.value.0 == newId
  {
    if !Given(name) || !Given(description) then (Err(400, MissingFields), s)
    else if FindByName(s.categories, name.value).Some? then (Err(400, CategoryExists), s)
    else if !IsAdmin(caller) then (Err(403, NotAdmin), s)
    else
      var c := Category(name.value, description.value);
      (Ok((newId, c)), s.(categories := s.categories.Insert(newId, c)))
  }

  /** `getAllCategories`: every category in collection order; nothing is written. */
  function GetAllCategories(s: State): (r: seq<Category>)
    requires s.categories.Valid()
    ensures |r| == |s.categories.order|
    ensures forall i :: 0 <= i < |r| ==>
      s.categories.order[i] in s.categories.rows && r[i] == s.categories.rows[s.categories.order[i]]
  {
    s.categories.All()
  }

  /** `updateCategory`: a malformed id (400), missing fields (400), a caller who is
      not an admin (403), an unknown id (400); then name and description are both
      replaced. No check is made that the new name is free. */
  function UpdateCategory(s: State, svc: Services, caller: UserRecord, categoryid: string,
                          name: Option<string>, description: Option<string>): (r: (Result<(Id, Category)>, State))
    ensures r.1.users == s.users && r.1.books == s.books
    ensures r.0.Err? ==> r.1 == s
    ensures r.0.Ok? ==> IsAdmin(caller) && r.1.categories.rows.Keys == s.categories.rows.Keys
  {
    if !svc.isValidId(categoryid) then (Err(400, InvalidCategoryId), s)
    else if !Given(name) || !Given(description) then (Err(400, MissingFields), s)
    else if !IsAdmin(caller) then (Err(403, NotAdmin), s)
    else if categoryid !in s.categories.rows then (Err(400, CategoryNotUpdated), s)
    else
      var c := Category(name.value, description.value);
      (Ok((categoryid, c)), s.(categories := s.categories.Put(categoryid, c)))
  }

  /** `deleteCategory`: a malformed id (400), a caller who is not an admin (403), an
      unknown id (400); then the category is removed and returned. Books are not
      touched, even those that name it. */
  function DeleteCategory(s: State, svc: Services, caller: UserRecord, categoryid: string)
    : (r: (Result<(Id, Category)>, State))
    ensures r.1.users == s.users && r.1.books == s.books
    ensures r.0.Err? ==> r.1 == s
    ensures r.0.Ok? ==> IsAdmin(caller) && r.1.categories.rows.Keys == s.categories.rows.Keys - {categoryid}
  {
    if !svc.isValidId(categoryid) then (Err(400, InvalidCategoryId), s)
    else if !IsAdmin(caller) then (Err(403, NotAdmin), s)
    else if categoryid !in s.categories.rows then (Err(400, CategoryNotDeleted), s)
    else
      (Ok((categoryid, s.categories.rows[categoryid])), s.(categories := s.categories.Remove(categoryid)))
  }

  // ---------------------------------------------------------------------------
  // Properties

  /** The guards of `createCategory` in order, including that a taken name is
      reported to any caller, admin or not; no error writes, and the request
      succeeds exactly when all pass, storing one new category. */
  lemma CreateCategoryOutcome(s: State, caller: UserRecord, name: Option<string>, description: Option<string>,
                              newId: Id)
    requires s.categories.Valid()
    ensures var (r, s') := CreateCategory(s, caller, name, description, newId);
      && (!Given(name) || !Given(description) ==> r == Err(400, MissingFields))
      && (Given(name) && Given(description)
          && (exists k :: k in s.categories.rows && s.categories.rows[k].name == name.value)
          ==> r == Err(400, CategoryExists))
      && ((Given(name) && Given(description) && caller.role != Admin
           && forall k :: k in s.categories.rows ==> s.categories.rows[k].name != name.value)
          ==> r == Err(403, NotAdmin))
      && (r == Err(403, NotAdmin) ==> caller.role != Admin)
      && (r.Err? ==> s' == s)
      && (r.Ok? <==> Given(name) && Given(description) && caller.role == Admin
                     && forall k :: k in s.categories.rows ==> s.categories.rows[k].name != name.value)
      && (r.Ok? ==> r.value == (newId, Category(name.value, description.value))
                    && s'.categories == s.categories.Insert(newId, r.value.1)
                    && s'.users == s.users && s'.books == s.books)
  {
    IsAdminIff(caller);
  }

  /** The guards of `updateCategory` in order; no error writes; a success replaces
      exactly that category's name and description and nothing else. */
  lemma UpdateCategoryOutcome(s: State, svc: Services, caller: UserRecord, categoryid: string,
                              name: Option<string>, description: Option<string>)
    ensures var (r, s') := UpdateCategory(s, svc, caller, categoryid, name, description);
      && (!svc.isValidId(categoryid) ==> r == Err(400, InvalidCategoryId))
      && (svc.isValidId(categoryid) && (!Given(name) || !Given(description)) ==> r == Err(400, MissingFields))
      && (svc.isValidId(categoryid) && Given(name) && Given(description) && caller.role != Admin
          ==> r == Err(403, NotAdmin))
      && ((svc.isValidId(categoryid) && Given(name) && Given(description) && caller.role == Admin
           && categoryid !in s.categories.rows) ==> r == Err(400, CategoryNotUpdated))
      && (r.Err? ==> s' == s)
      && (r.Ok? <==> svc.isValidId(categoryid) && Given(name) && Given(description) && caller.role == Admin
                     && categoryid in s.categories.rows)
      && (r.Ok? ==> s'.categories.rows == s.categories.rows[categoryid := Category(name.value, description.value)]
                    && s'.categories.order == s.categories.order
                    && s'.users == s.users && s'.books == s.books)
  {
    IsAdminIff(caller);
  }

  /** Renaming needs no free name: an admin may give a category the name another
      one already has. */
  lemma UpdateCategoryAllowsTakenName(s: State, svc: Services, caller: UserRecord, categoryid: string,
                                      other: Id, description: string)
    requires svc.isValidId(categoryid) && categoryid in s.categories.rows && caller.role == Admin
    requires other in s.categories.rows && other != categoryid && s.categories.rows[other].name != ""
    requires description != ""
    ensures var name := s.categories.rows[other].name;
            var (r, s') := UpdateCategory(s, svc, caller, categoryid, Some(name), Some(description));
      && r.Ok? && s'.categories.rows[categoryid].name == s'.categories.rows[other].name
  {
    IsAdminIff(caller);
  }

  /** The guards of `deleteCategory` in order; no error writes; a success removes
      exactly that category and returns it, and leaves every book as it was. */
  lemma DeleteCategoryOutcome(s: State, svc: Services, caller: UserRecord, categoryid: string)
    ensures var (r, s') := DeleteCategory(s, svc, caller, categoryid);
      && (!svc.isValidId(categoryid) ==> r == Err(400, InvalidCategoryId))
      && (svc.isValidId(categoryid) && caller.role != Admin ==> r == Err(403, NotAdmin))
      && ((svc.isValidId(categoryid) && caller.role == Admin && categoryid !in s.categories.rows)
          ==> r == Err(400, CategoryNotDeleted))
      && (r.Err? ==> s' == s)
      && (r.Ok? <==> svc.isValidId(categoryid) && caller.role == Admin && categoryid in s.categories.rows)
      && (r.Ok? ==> r.value == (categoryid, s.categories.rows[categoryid])
                    && s'.categories.rows.Keys == s.categories.rows.Keys - {categoryid}
                    && (forall k :: k in s'.categories.rows ==> s'.categories.rows[k] == s.categories.rows[k])
                    && s'.books == s.books && s'.users == s.users)
  {
    IsAdminIff(caller);
  }

  /** Nothing cascades: after a category is deleted, the books that named it still
      name it, and no category resolves that id any more. */
  lemma DeleteCategoryLeavesBooks(s: State, svc: Services, caller: UserRecord, categoryid: string, k: Id)
    requires DeleteCategory(s, svc, caller, categoryid).0.Ok?
    requires k in s.books.rows && s.books.rows[k].category == categoryid
    ensures var s' := DeleteCategory(s, svc, caller, categoryid).1;
      && k in s'.books.rows && s'.books.rows[k].category == categoryid
      && ResolveCategory(s'.categories, svc, categoryid).None?
  {
  }

  lemma CreateCategoryPreservesConsistent(s: State, svc: Services, caller: UserRecord, name: Option<string>,
                                          description: Option<string>, newId: Id)
    requires Consistent(s, svc) && newId !in s.categories.rows && svc.isValidId(newId)
    ensures Consistent(CreateCategory(s, caller, name, description, newId).1, svc)
  {
  }

  lemma UpdateCategoryPreservesConsistent(s: State, svc: Services, caller: UserRecord, categoryid: string,
                                          name: Option<string>, description: Option<string>)
    requires Consistent(s, svc)
    ensures Consistent(UpdateCategory(s, svc, caller, categoryid, name, description).1, svc)
  {
  }

  lemma DeleteCategoryPreservesConsistent(s: State, svc: Services, caller: UserRecord, categoryid: string)
    requires Consistent(s, svc)
    ensures Consistent(DeleteCategory(s, svc, caller, categoryid).1, svc)
  {
    if DeleteCategory(s, svc, caller, categoryid).0.Ok? {
      s.categories.RemoveKeepsValid(categoryid);
    }
  }
}
