/** The stored records: Book (server/models/Book.js), Issue
    (server/models/Issue.js) and User (whose schema file is not part of this
    model; its fields are those the controllers read and write). */
module Models {
  import opened Outcomes

  /** Instants, in milliseconds since the epoch. */
  type Time = int

  /** One calendar day, taken as exactly 24 hours. */
  const Day: int := 86_400_000

  type BookId = nat
  type IssueId = nat
  type UserId = nat

  datatype Role = Student | Faculty | Librarian | Admin

  /** The name a role is stored and compared under. */
  function RoleName(r: Role): string {
    match r
    case Student => "student"
    case Faculty => "faculty"
    case Librarian => "librarian"
    case Admin => "admin"
  }

  /** The role a string names, if it is one of the four allowed values. */
  function ParseRole(s: string): (r: Option<Role>)
    ensures r.Some? ==> RoleName(r.value) == s
    ensures r.None? ==> forall role: Role :: RoleName(role) != s
  {
    if s == "student" then Some(Student)
    else if s == "faculty" then Some(Faculty)
    else if s == "librarian" then Some(Librarian)
    else if s == "admin" then Some(Admin)
    else None
  }

  // ---------------------------------------------------------------- Book

  datatype Book = Book(
    title: string,
    author: string,
    isbn: string,
    category: string,
    publisher: string,
    totalCopies: int,
    availableCopies: int,
    shelfLocation: string,
    createdAt: Time)

  /** What the schema itself enforces when a book is saved: the required
      strings are present and both copy counts are at least 0. */
  predicate SchemaValid(b: Book) {
    && b.title != "" && b.author != "" && b.isbn != "" && b.category != ""
    && b.publisher != "" && b.shelfLocation != ""
    && b.totalCopies >= 0 && b.availableCopies >= 0
  }

  /** The bound the controllers maintain on top of the schema. */
  predicate CopiesConsistent(b: Book) {
    0 <= b.availableCopies <= b.totalCopies
  }

  /** The schema alone admits more available than total copies: the upper
      bound is kept only by the controllers. */
  lemma SchemaAllowsExcessCopies()
    ensures exists b :: SchemaValid(b) && !CopiesConsistent(b)
  {
    var b := Book("t", "a", "i", "c", "p", 1, 2, "s", 0);
    assert SchemaValid(b) && !CopiesConsistent(b);
  }

  // ---------------------------------------------------------------- Issue

  datatype Status = Pending | Issued | Returned | Overdue

  datatype Issue = Issue(
    userId: UserId,
    bookId: BookId,
    issueDate: Time,
    dueDate: Time,
    returnDate: Option<Time>,
    status: Status,
    createdAt: Time)

  /** A freshly created issue, with the schema's defaults: status Pending,
      no return date, issued and created at `now`. */
  function NewIssue(userId: UserId, bookId: BookId, dueDate: Time, now: Time): (i: Issue)
    ensures i.status == Pending && i.returnDate == None
    ensures i.issueDate == now && i.createdAt == now
    ensures i.userId == userId && i.bookId == bookId && i.dueDate == dueDate
    ensures IssueConsistent(i)
  {
    Issue(userId, bookId, now, dueDate, None, Pending, now)
  }

  /** The return date is set exactly when the book has been returned. */
  predicate IssueConsistent(i: Issue) {
    i.returnDate.Some? <==> i.status == Returned
  }

  // ---------------------------------------------------------------- User

  datatype User = User(
    name: string,
    email: string,
    role: Role,
    passwordHash: string,
    createdAt: Time)

  /** A user as the account handlers show it: every field but the password. */
  datatype PublicUser = PublicUser(
    name: string,
    email: string,
    role: Role,
    createdAt: Time)

  /** The `select('-password')` projection. */
  function Public(u: User): (p: PublicUser)
    ensures p.name == u.name && p.email == u.email && p.role == u.role
    ensures p.createdAt == u.createdAt
  {
    PublicUser(u.name, u.email, u.role, u.createdAt)
  }

  /** Loan period granted at request time: 30 days for faculty, 14 otherwise. */
  function LoanDays(r: Role): int {
    if r == Faculty then 30 else 14
  }
}
