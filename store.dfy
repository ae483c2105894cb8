/** The three MongoDB collections, as maps from document id to record, and the
    consistency the handlers maintain between them. */
module Store {
  import opened Models

  class Database {
    var books: map<BookId, Book>
    var issues: map<IssueId, Issue>
    var users: map<UserId, User>
    /** Ids not yet handed out; stands in for ObjectId generation. */
    var nextBookId: BookId
    var nextIssueId: IssueId

    /** The invariant every handler preserves. */
    ghost predicate Valid()
      reads this
    {
      && (forall k :: k in books ==> k < nextBookId)
      && (forall k :: k in issues ==> k < nextIssueId)
      && BooksValid(books)
      && (forall k :: k in issues ==> IssueConsistent(issues[k]))
      && EmailsUnique(users)
    }

    constructor (accounts: map<UserId, User>)
      requires EmailsUnique(accounts)
      ensures Valid()
      ensures books == map[] && issues == map[] && users == accounts
    {
      books, issues, users := map[], map[], accounts;
      nextBookId, nextIssueId := 0, 0;
    }
  }

  /** Every book satisfies its schema and `0 <= availableCopies <= totalCopies`,
      and no two books share an ISBN. */
  ghost predicate BooksValid(books: map<BookId, Book>) {
    && (forall k :: k in books ==> SchemaValid(books[k]) && CopiesConsistent(books[k]))
    && IsbnUnique(books)
  }

  /** Replacing one book by a valid record whose ISBN is its old one or
      held by no book keeps the catalogue valid. */
  lemma ReplaceBookKeepsValid(books: map<BookId, Book>, id: BookId, nb: Book)
    requires BooksValid(books) && id in books
    requires SchemaValid(nb) && CopiesConsistent(nb)
    requires nb.isbn == books[id].isbn || !IsbnTaken(books, nb.isbn)
    ensures BooksValid(books[id := nb])
  {
  }

  /** Replacing one account by a record whose email is its old one or used
      by no account keeps the emails unique. */
  lemma ReplaceUserKeepsUnique(users: map<UserId, User>, id: UserId, nu: User)
    requires EmailsUnique(users) && id in users
    requires nu.email == users[id].email || !EmailTaken(users, nu.email)
    ensures EmailsUnique(users[id := nu])
  {
  }

  ghost predicate IsbnUnique(books: map<BookId, Book>) {
    forall k, k' :: k in books && k' in books && k != k' ==> books[k].isbn != books[k'].isbn
  }

  ghost predicate EmailsUnique(users: map<UserId, User>) {
    forall k, k' :: k in users && k' in users && k != k' ==> users[k].email != users[k'].email
  }

  /** Some book already carries `isbn`. */
  predicate IsbnTaken(books: map<BookId, Book>, isbn: string) {
    exists k :: k in books && books[k].isbn == isbn
  }

  /** Some account already uses `email`. */
  predicate EmailTaken(users: map<UserId, User>, email: string) {
    exists k :: k in users && users[k].email == email
  }
}
