/** The loan lifecycle across several handlers: what a sequence of requests
    against the same database leads to. */
module Lifecycle {
  import opened Outcomes
  import opened Models
  import opened Store
  import opened IssueController

  /** Approving a Pending request and then returning the loan leaves every
      book as it was, and the issue Returned with both dates set. */
  method LoanRoundTrip(db: Database, id: IssueId, approvedAt: Time, returnedAt: Time)
    returns (approved: Result<Issue>, returned: Result<Issue>)
    requires db.Valid()
    requires id in db.issues && db.issues[id].status == Pending
    requires db.issues[id].bookId in db.books && db.books[db.issues[id].bookId].availableCopies != 0
    modifies db
    ensures db.Valid()
    ensures approved.Ok? && returned.Ok?
    ensures db.books == old(db.books) && db.users == old(db.users)
    ensures db.issues == old(db.issues)[id := old(db.issues)[id].(
              status := Returned, issueDate := approvedAt, returnDate := Some(returnedAt))]
  {
    var book := db.issues[id].bookId;
    PutBackUndoesTake(db.books[book]);
    approved := ApproveIssue(db, id, approvedAt);
    returned := ReturnBook(db, id, returnedAt);
  }

  /** A request can be approved once: the second approval is refused and
      takes no second copy. */
  method ApproveTwice(db: Database, id: IssueId, now: Time) returns (first: Result<Issue>, second: Result<Issue>)
    requires db.Valid()
    modifies db
    ensures db.Valid()
    ensures second.Err?
    ensures first.Ok? ==> second == Err(Invalid)
    ensures first.Ok? ==> id in db.issues && db.issues[id].status == Issued
  {
    first := ApproveIssue(db, id, now);
    second := ApproveIssue(db, id, now);
  }

  /** Approving the last available copy makes every further request for
      that book fail, until a copy comes back. */
  method LastCopy(db: Database, id: IssueId, other: UserId, now: Time)
    returns (approved: Result<Issue>, request: Result<IssueId>)
    requires db.Valid()
    requires id in db.issues && db.issues[id].status == Pending
    requires db.issues[id].bookId in db.books && db.books[db.issues[id].bookId].availableCopies == 1
    modifies db
    ensures db.Valid()
    ensures approved.Ok? && request == Err(Invalid)
  {
    var book := db.issues[id].bookId;
    approved := ApproveIssue(db, id, now);
    request := RequestIssue(db, other, Some(book), now);
  }

  /** Returning a loan whose book already has all its copies on the shelf
      leaves the copy count at the total. */
  method ReturnAtFullShelf(db: Database, id: IssueId, now: Time) returns (r: Result<Issue>)
    requires db.Valid()
    requires id in db.issues && (db.issues[id].status == Issued || db.issues[id].status == Overdue)
    requires db.issues[id].bookId in db.books
    requires db.books[db.issues[id].bookId].availableCopies == db.books[db.issues[id].bookId].totalCopies
    modifies db
    ensures db.Valid()
    ensures r.Ok? && db.books == old(db.books)
  {
    PutBackSaturates(db.books[db.issues[id].bookId]);
    r := ReturnBook(db, id, now);
  }

  /** A renewal extends the due date by 30 days each time it is granted. */
  method RenewTwice(db: Database, id: IssueId) returns (first: Result<Issue>, second: Result<Issue>)
    requires db.Valid()
    requires id in db.issues
    modifies db
    ensures db.Valid()
    ensures first.Ok? ==> second.Ok? && second.value.dueDate == old(db.issues)[id].dueDate + 60 * Day
    ensures first.Err? ==> second == first
  {
    first := RenewBook(db, id);
    second := RenewBook(db, id);
  }

  /** An Overdue loan does not block a new request for the same book by the
      same user: the request is created, and the pair then has two issues
      that are neither Returned nor deleted. */
  method RequestBesideOverdue(db: Database, loan: IssueId, now: Time) returns (r: Result<IssueId>)
    requires db.Valid()
    requires loan in db.issues && db.issues[loan].status == Overdue
    requires db.issues[loan].bookId in db.books && db.books[db.issues[loan].bookId].availableCopies != 0
    requires db.issues[loan].userId in db.users
    requires !HasOpenRequest(db.issues, db.issues[loan].userId, db.issues[loan].bookId)
    modifies db
    ensures db.Valid()
    ensures r.Ok? && r.value != loan && r.value in db.issues && loan in db.issues
    ensures db.issues[loan].status == Overdue && db.issues[r.value].status == Pending
    ensures db.issues[r.value].userId == db.issues[loan].userId
    ensures db.issues[r.value].bookId == db.issues[loan].bookId
  {
    var i := db.issues[loan];
    r := RequestIssue(db, i.userId, Some(i.bookId), now);
  }
}
