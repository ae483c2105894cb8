/** The loan lifecycle (server/controllers/issueController.js):
    Pending -> Issued -> Overdue / Returned, Pending -> deleted on rejection,
    with the copy counts of the book adjusted on approval and return. Each
    handler is one atomic step over the database. */
module IssueController {
  import opened Outcomes
  import opened Models
  import opened Store
  import opened Sequences

  // ------------------------------------------------------- overdue promotion

  /** An issue that a read should mark Overdue at time `now`. */
  predicate DueForPromotion(i: Issue, now: Time) {
    i.status == Issued && i.dueDate < now
  }

  /** The issue as a read at time `now` leaves it. */
  function Promoted(i: Issue, now: Time): Issue {
    if DueForPromotion(i, now) then i.(status := Overdue) else i
  }

  /** Promotion touches nothing but the status, turns exactly the issues that
      are due into Overdue ones, and leaves nothing due behind. */
  lemma PromotedChangesOnlyDue(i: Issue, now: Time)
    ensures Promoted(i, now) == i.(status := Promoted(i, now).status)
    ensures Promoted(i, now) != i <==> DueForPromotion(i, now)
    ensures DueForPromotion(i, now) ==> Promoted(i, now).status == Overdue
    ensures !DueForPromotion(Promoted(i, now), now)
    ensures IssueConsistent(i) ==> IssueConsistent(Promoted(i, now))
  {
  }

  /** The issues of `owner` promoted at `now`; every other issue as it was. */
  function PromoteOwned(issues: map<IssueId, Issue>, owner: UserId, now: Time): (m: map<IssueId, Issue>)
    ensures m.Keys == issues.Keys
  {
    map k | k in issues :: if issues[k].userId == owner then Promoted(issues[k], now) else issues[k]
  }

  /** Every issue promoted at `now`. */
  function PromoteAll(issues: map<IssueId, Issue>, now: Time): (m: map<IssueId, Issue>)
    ensures m.Keys == issues.Keys
  {
    map k | k in issues :: Promoted(issues[k], now)
  }

  /** A second read at the same instant changes nothing more. */
  lemma PromoteOwnedIdempotent(issues: map<IssueId, Issue>, owner: UserId, now: Time)
    ensures PromoteOwned(PromoteOwned(issues, owner, now), owner, now) == PromoteOwned(issues, owner, now)
  {
    var once := PromoteOwned(issues, owner, now);
    forall k | k in once
      ensures PromoteOwned(once, owner, now)[k] == once[k]
    {
      PromotedChangesOnlyDue(issues[k], now);
    }
  }

  lemma PromoteAllIdempotent(issues: map<IssueId, Issue>, now: Time)
    ensures PromoteAll(PromoteAll(issues, now), now) == PromoteAll(issues, now)
  {
    var once := PromoteAll(issues, now);
    forall k | k in once
      ensures PromoteAll(once, now)[k] == once[k]
    {
      PromotedChangesOnlyDue(issues[k], now);
    }
  }

  // ------------------------------------------------------------- requesting

  /** The issues that make a new request by `user` for `book` a duplicate:
      Pending or Issued ones. An Overdue issue does not count. */
  predicate HasOpenRequest(issues: map<IssueId, Issue>, user: UserId, book: BookId) {
    exists k :: k in issues && issues[k].userId == user && issues[k].bookId == book
                && (issues[k].status == Pending || issues[k].status == Issued)
  }

  /** The due date a request made at `now` by a user with role `role` gets. */
  function DueDate(role: Role, now: Time): (d: Time)
    ensures role == Faculty ==> d == now + 30 * Day
    ensures role != Faculty ==> d == now + 14 * Day
  {
    now + LoanDays(role) * Day
  }

  /** requestIssue: `user` asks to borrow `book` at time `now`. */
  method RequestIssue(db: Database, user: UserId, book: Option<BookId>, now: Time) returns (r: Result<IssueId>)
    requires db.Valid()
    modifies db
    ensures db.Valid()
    ensures db.books == old(db.books) && db.users == old(db.users)
    ensures r.Err? ==> unchanged(db)
    ensures book.None? ==> r == Err(Invalid)
    ensures book.Some? ==>
      var b := book.value;
      if b !in old(db.books) then r == Err(NotFound)
      else if old(db.books)[b].availableCopies == 0 then r == Err(Invalid)
      else if HasOpenRequest(old(db.issues), user, b) then r == Err(Duplicate)
      else if user !in old(db.users) then r == Err(ServerError)
      else
        && r.Ok?
        && r.value !in old(db.issues)
        && db.issues == old(db.issues)[r.value := NewIssue(user, b, DueDate(old(db.users)[user].role, now), now)]
  {
    if book.None? {
      return Err(Invalid);
    }
    var b := book.value;
    if b !in db.books {
      return Err(NotFound);
    }
    if db.books[b].availableCopies == 0 {
      return Err(Invalid);
    }
    if HasOpenRequest(db.issues, user, b) {
      return Err(Duplicate);
    }
    if user !in db.users {
      // `user.role` on a missing user throws.
      return Err(ServerError);
    }
    var due := DueDate(db.users[user].role, now);
    var id := db.nextIssueId;
    db.issues := db.issues[id := NewIssue(user, b, due, now)];
    db.nextIssueId := db.nextIssueId + 1;
    r := Ok(id);
  }

  /** getMyIssues: the caller's issues, newest first, after promoting those
      that are overdue at `now`. */
  method GetMyIssues(db: Database, user: UserId, now: Time) returns (r: seq<IssueId>)
    requires db.Valid()
    modifies db
    ensures db.Valid()
    ensures db.books == old(db.books) && db.users == old(db.users)
    ensures db.nextBookId == old(db.nextBookId) && db.nextIssueId == old(db.nextIssueId)
    ensures db.issues == PromoteOwned(old(db.issues), user, now)
    ensures Distinct(r)
    ensures forall k :: k in r <==> k in db.issues && db.issues[k].userId == user
    ensures forall i, j :: 0 <= i < j < |r| ==> db.issues[r[i]].createdAt >= db.issues[r[j]].createdAt
  {
    var before := db.issues;
    r := SortedKeys(before, (i: Issue) => i.userId == user, (i: Issue) => -i.createdAt);
    var issues := PromoteListed(before, r, now);
    forall k | k in before
      ensures issues[k] == PromoteOwned(before, user, now)[k]
      ensures IssueConsistent(issues[k])
    {
      PromotedChangesOnlyDue(before[k], now);
    }
    assert issues == PromoteOwned(before, user, now);
    db.issues := issues;
  }

  /** The loop of getMyIssues over the listed issues: each Issued one past
      its due date becomes Overdue and is saved; the others are untouched. */
  method PromoteListed(before: map<IssueId, Issue>, ids: seq<IssueId>, now: Time) returns (after: map<IssueId, Issue>)
    requires forall k :: k in ids ==> k in before
    ensures after.Keys == before.Keys
    ensures forall k :: k in before ==> after[k] == if k in ids then Promoted(before[k], now) else before[k]
  {
    after := before;
    var n := 0;
    while n < |ids|
      invariant 0 <= n <= |ids|
      invariant after.Keys == before.Keys
      invariant forall k :: k in before ==>
        after[k] == if k in ids[..n] then Promoted(before[k], now) else before[k]
    {
      var k := ids[n];
      var issue := after[k];
      if issue.status == Issued && issue.dueDate < now {
        after := after[k := issue.(status := Overdue)];
      }
      assert ids[..n + 1] == ids[..n] + [k];
      n := n + 1;
    }
    assert ids[..n] == ids;
  }

  // ----------------------------------------------------------- copy counts

  /** The book after approval takes one copy. On a consistent book with a
      copy available, the bounds are kept. */
  function TakeCopy(b: Book): (nb: Book)
    ensures nb == b.(availableCopies := nb.availableCopies)
    ensures CopiesConsistent(b) && b.availableCopies != 0 ==> CopiesConsistent(nb)
    ensures nb.availableCopies < b.availableCopies
  {
    b.(availableCopies := b.availableCopies - 1)
  }

  /** The book after a return puts one copy back, never above the total. */
  function PutBackCopy(b: Book): (nb: Book)
    ensures nb == b.(availableCopies := nb.availableCopies)
    ensures CopiesConsistent(b) ==> CopiesConsistent(nb)
    ensures nb.availableCopies <= b.totalCopies
    ensures b.availableCopies < b.totalCopies ==> nb.availableCopies == b.availableCopies + 1
    ensures b.availableCopies >= b.totalCopies ==> nb.availableCopies == b.totalCopies
  {
    var back := b.availableCopies + 1;
    b.(availableCopies := if back > b.totalCopies then b.totalCopies else back)
  }

  /** Returning a loan undoes its approval: the book's counts are back to
      what they were. */
  lemma PutBackUndoesTake(b: Book)
    requires CopiesConsistent(b) && b.availableCopies != 0
    ensures PutBackCopy(TakeCopy(b)) == b
  {
  }

  /** Once every copy is back, further returns change nothing. */
  lemma PutBackSaturates(b: Book)
    requires b.availableCopies == b.totalCopies
    ensures PutBackCopy(b) == b
  {
  }

  // ------------------------------------------------------------ librarian

  /** getPendingIssues: every Pending request, each once, newest first. */
  method GetPendingIssues(db: Database) returns (r: seq<IssueId>)
    ensures Distinct(r)
    ensures forall k :: k in r <==> k in db.issues && db.issues[k].status == Pending
    ensures forall i, j :: 0 <= i < j < |r| ==> db.issues[r[i]].createdAt >= db.issues[r[j]].createdAt
  {
    r := SortedKeys(db.issues, (i: Issue) => i.status == Pending, (i: Issue) => -i.createdAt);
  }

  /** approveIssue: a Pending request becomes a loan and takes one copy. */
  method ApproveIssue(db: Database, id: IssueId, now: Time) returns (r: Result<Issue>)
    requires db.Valid()
    modifies db
    ensures db.Valid()
    ensures db.users == old(db.users)
    ensures r.Err? ==> unchanged(db)
    ensures id !in old(db.issues) ==> r == Err(NotFound)
    ensures id in old(db.issues) ==>
      var i := old(db.issues)[id];
      if i.status != Pending then r == Err(Invalid)
      else if i.bookId !in old(db.books) then r == Err(ServerError)
      else if old(db.books)[i.bookId].availableCopies == 0 then r == Err(Invalid)
      else
        var b := old(db.books)[i.bookId];
        && r == Ok(i.(status := Issued, issueDate := now))
        && r.value.dueDate == i.dueDate
        && db.issues == old(db.issues)[id := r.value]
        && db.books == old(db.books)[i.bookId := TakeCopy(b)]
        && db.books[i.bookId].availableCopies >= 0
  {
    if id !in db.issues {
      return Err(NotFound);
    }
    var issue := db.issues[id];
    if issue.status != Pending {
      return Err(Invalid);
    }
    if issue.bookId !in db.books {
      // The populated book is null and `book.availableCopies` throws.
      return Err(ServerError);
    }
    var book := db.books[issue.bookId];
    if book.availableCopies == 0 {
      return Err(Invalid);
    }
    issue := issue.(status := Issued, issueDate := now);
    db.issues := db.issues[id := issue];
    book := book.(availableCopies := book.availableCopies - 1);
    db.books := db.books[issue.bookId := book];
    r := Ok(issue);
  }

  /** rejectIssue: a Pending request is deleted; no book changes. */
  method RejectIssue(db: Database, id: IssueId) returns (r: Outcome)
    requires db.Valid()
    modifies db
    ensures db.Valid()
    ensures db.books == old(db.books) && db.users == old(db.users)
    ensures r.Fail? ==> unchanged(db)
    ensures id !in old(db.issues) ==> r == Fail(NotFound)
    ensures id in old(db.issues) && old(db.issues)[id].status != Pending ==> r == Fail(Invalid)
    ensures id in old(db.issues) && old(db.issues)[id].status == Pending ==>
      r == Done && db.issues == old(db.issues) - {id}
  {
    if id !in db.issues {
      return Fail(NotFound);
    }
    if db.issues[id].status != Pending {
      return Fail(Invalid);
    }
    db.issues := db.issues - {id};
    r := Done;
  }

  // ------------------------------------------------------------- borrower

  /** returnBook: an Issued or Overdue loan is closed and its copy put back,
      never above the book's total. Nobody's ownership is checked. */
  method ReturnBook(db: Database, id: IssueId, now: Time) returns (r: Result<Issue>)
    requires db.Valid()
    modifies db
    ensures db.Valid()
    ensures db.users == old(db.users)
    ensures id !in old(db.issues) ==> r == Err(NotFound) && unchanged(db)
    ensures id in old(db.issues) ==>
      var i := old(db.issues)[id];
      var closed := i.(status := Returned, returnDate := Some(now));
      if i.status != Issued && i.status != Overdue then
        r == Err(Invalid) && unchanged(db)
      else if i.bookId !in old(db.books) then
        // the issue is saved before the missing book is dereferenced
        r == Err(ServerError) && db.issues == old(db.issues)[id := closed]
        && db.books == old(db.books)
      else
        && r == Ok(closed)
        && db.issues == old(db.issues)[id := closed]
        && db.books == old(db.books)[i.bookId := PutBackCopy(old(db.books)[i.bookId])]
        && db.books[i.bookId].availableCopies <= db.books[i.bookId].totalCopies
  {
    if id !in db.issues {
      return Err(NotFound);
    }
    var issue := db.issues[id];
    if issue.status != Issued && issue.status != Overdue {
      return Err(Invalid);
    }
    issue := issue.(status := Returned, returnDate := Some(now));
    db.issues := db.issues[id := issue];
    if issue.bookId !in db.books {
      return Err(ServerError);
    }
    var book := db.books[issue.bookId];
    book := book.(availableCopies := book.availableCopies + 1);
    if book.availableCopies > book.totalCopies {
      book := book.(availableCopies := book.totalCopies);
    }
    db.books := db.books[issue.bookId := book];
    r := Ok(issue);
  }

  /** renewBook: a loan of a faculty member runs 30 more days from its
      current due date, and an Overdue loan becomes Issued again. The role
      checked is the issue owner's, and it is checked before the status. */
  method RenewBook(db: Database, id: IssueId) returns (r: Result<Issue>)
    requires db.Valid()
    modifies db
    ensures db.Valid()
    ensures db.books == old(db.books) && db.users == old(db.users)
    ensures r.Err? ==> unchanged(db)
    ensures id !in old(db.issues) ==> r == Err(NotFound)
    ensures id in old(db.issues) ==>
      var i := old(db.issues)[id];
      if i.userId !in old(db.users) then r == Err(ServerError)
      else if old(db.users)[i.userId].role != Faculty then r == Err(Forbidden)
      else if i.status != Issued && i.status != Overdue then r == Err(Invalid)
      else
        && r == Ok(i.(dueDate := i.dueDate + 30 * Day, status := Issued))
        && db.issues == old(db.issues)[id := r.value]
  {
    if id !in db.issues {
      return Err(NotFound);
    }
    var issue := db.issues[id];
    if issue.userId !in db.users {
      // The populated owner is null and `issue.userId.role` throws.
      return Err(ServerError);
    }
    if db.users[issue.userId].role != Faculty {
      return Err(Forbidden);
    }
    if issue.status != Issued && issue.status != Overdue {
      return Err(Invalid);
    }
    issue := issue.(dueDate := issue.dueDate + 30 * Day, status := Issued);
    db.issues := db.issues[id := issue];
    r := Ok(issue);
  }
}
