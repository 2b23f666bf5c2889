/** The three collections the core works on and the invariant every handler keeps. */
module Db {
  import opened Http
  import opened Foreign
  import opened Tables
  import opened UserModel

  /** A book document. `category` holds the resolved category id; `owner` the creator's id. */
  datatype Book = Book(title: string, price: real, description: string, stock: real,
                       category: Id, owner: Id, images: seq<Url>)

  datatype Category = Category(name: string, description: string)

  datatype State = State(users: Table<UserRecord>, books: Table<Book>, categories: Table<Category>)

  ghost predicate WellFormed(s: State) {
    s.users.Valid() && s.books.Valid() && s.categories.Valid()
  }

  /** No two users share an email, and no two share a phone number. */
  ghost predicate UniqueContacts(users: map<Id, UserRecord>) {
    forall i, j :: i in users && j in users && i != j ==>
      users[i].email != users[j].email && users[i].phone != users[j].phone
  }

  /** What holds of the database between requests: each user document carries its
      own key, its OTP fields are set or cleared together, contacts are unique,
      and every stored id is a well-formed ObjectId. Books may name categories
      that no longer exist (nothing cascades). */
  ghost predicate Consistent(s: State, svc: Services) {
    && WellFormed(s)
    && (forall k :: k in s.users.rows ==> s.users.rows[k].id == k && OtpPaired(s.users.rows[k]))
    && UniqueContacts(s.users.rows)
    && (forall k :: k in s.users.rows ==> svc.isValidId(k))
    && (forall k :: k in s.books.rows ==> svc.isValidId(k))
    && (forall k :: k in s.categories.rows ==> svc.isValidId(k))
  }
}
