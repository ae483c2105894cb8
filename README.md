# Library management: a Dafny model of the server controllers

The model covers the server side of a library management application:
- the book catalogue;
- the loan ("issue") lifecycle;
- the user administration;
- the reports.

The three MongoDB collections (books, issues, users) are maps from document
id to record, held by one `Store.Database` object. Each Express handler is a
method that changes that object in one atomic step. Each handler returns the
handler's outcome as a `Result` or an `Outcome`:

| error | HTTP status |
|---|---|
| `NotFound` | 404 |
| `Invalid` | 400 |
| `Duplicate` | the 400 for a taken ISBN or email, and for a request while one is open |
| `Forbidden` | 403 |
| `ServerError` | the 500 of the `catch` block |

Every handler preserves `Database.Valid()`. In particular, every book keeps
`0 <= availableCopies <= totalCopies`, no two books share an ISBN, and no two
accounts share an email.

Files:

- `models.dfy`: the Book, Issue and User records, the schema's constraints,
  and the role names.
- `store.dfy`: the database and its invariant.
- `issue_controller.dfy`:
  - request, list-own, pending list, approve, reject, return and renew;
  - the copy-count steps;
  - the lazy promotion of overdue loans.
- `book_controller.dfy`: search, get, create, update (with its clamp) and
  delete.
- `user_controller.dfy`: list, get, update and delete of accounts.
- `report_controller.dfy`: the overdue report and the analytics snapshot.
  The analytics are a pure aggregation, related by lemmas to counts over the
  collections.
- `lifecycle.dfy`: what sequences of handlers lead to, such as a loan round
  trip, a double approval, the last copy, and a double renewal.
- `sequences.dfy` and `text.dfy`: the list and string helpers that model
  `find().sort()` queries and case-insensitive `$regex` matching.

Where the code is looser than one might expect, the model follows the
code:

- **Duplicate requests.** A request is refused as a duplicate only when a
  Pending or Issued issue of the same user and book exists. An Overdue loan
  does not block a new request, so a user and book pair can have more than
  one unreturned issue. `Lifecycle.RequestBesideOverdue` shows this.
- **The overdue report.** It lists only the Overdue issues, after promotion.
  Issued loans that are not yet due are not listed.
- **Copies after an update.** When `updateBook` changes `totalCopies` without
  `availableCopies`, it computes the difference after the total has already
  been overwritten. The difference is therefore always 0, so the available
  copies do not follow the new total. Only the final clamp to the total
  remains (`BookController.DeltaIsNoOp`).
- **Ownership on return.** `returnBook` does not check who owns the issue.
- **Renewal.** `renewBook` checks the owner's role before the issue's status.
- **Negative totals on create.** `createBook` accepts a negative
  `totalCopies` in its own checks. The schema's `min: 0` then makes the save
  fail, which is a server error rather than a validation error.

## Model

| member | source | states |
|---|---|---|
| Models.ParseRole | server/controllers/userController.js:65 | a role string is accepted exactly when it names one of the four roles, and then that role's name is the string |
| Models.NewIssue | server/models/Issue.js:15-31 | a created issue is Pending, has no return date, is issued and created at the request time, and carries its user, book and due date |
| Models.Public | server/controllers/userController.js:7 | the password-less projection keeps name, email, role and creation time |
| Models.SchemaAllowsExcessCopies | server/models/Book.js:31-40 | the schema's minimums alone admit a book with more available than total copies, so the upper bound rests on the controllers |
| Store.ReplaceBookKeepsValid | server/models/Book.js:15-40 | replacing a book by a schema-valid, consistent record whose ISBN is its own or unused keeps every book valid and the ISBNs unique |
| Store.ReplaceUserKeepsUnique | server/controllers/userController.js:57-64 | replacing an account by one whose email is its own or unused keeps the emails unique |
| Text.ContainsIgnoringCase | server/controllers/bookController.js:13-20 | a case-insensitive `$regex` match holds exactly when the lower-cased pattern occurs at some position of the lower-cased text |
| Text.VerbatimMatches | server/controllers/bookController.js:13-15 | a pattern that occurs verbatim is matched |
| Text.CaseOfTextIgnored | server/controllers/bookController.js:13-15 | the case of the text does not change whether it matches |
| Sequences.SortedKeys | server/controllers/bookController.js:23 | a `find(filter).sort(key)` lists each document that passes the filter exactly once, nothing else, in ascending order of the key |
| Sequences.SortBy | server/controllers/reportController.js:76 | sorting gives an ordered permutation of its input |
| IssueController.DueDate | server/controllers/issueController.js:45-50 | a faculty member's loan is due 30 days after the request, anyone else's 14 days |
| IssueController.RequestIssue | server/controllers/issueController.js:6-74 | a missing book id is Invalid, an unknown book NotFound, no available copy Invalid, a Pending or Issued issue of the same user and book Duplicate, a missing requester a server error; otherwise a fresh Pending issue with the role's due date is added, and no book changes |
| IssueController.PromotedChangesOnlyDue | server/controllers/issueController.js:88-93 | promotion changes only the status, changes an issue exactly when it is Issued and past due, makes it Overdue, leaves nothing due, and keeps the return-date consistency |
| IssueController.PromoteOwnedIdempotent | server/controllers/issueController.js:88-93 | a second listing at the same instant changes nothing more |
| IssueController.PromoteAllIdempotent | server/controllers/reportController.js:20-24 | a second overdue report at the same instant changes nothing more |
| IssueController.PromoteListed | server/controllers/issueController.js:88-93 | the loop promotes exactly the listed issues and leaves every other one as it was |
| IssueController.GetMyIssues | server/controllers/issueController.js:77-104 | the caller's issues are all promoted and every other issue is untouched; the caller's issues are listed once each, newest first |
| IssueController.GetPendingIssues | server/controllers/issueController.js:107-123 | every Pending issue is listed once, nothing else, newest first |
| IssueController.TakeCopy | server/controllers/issueController.js:152-154 | approval lowers only the available copies, and on a consistent book with a copy left it stays within bounds |
| IssueController.PutBackCopy | server/controllers/issueController.js:216-222 | a return raises only the available copies, by one below the total and to the total otherwise, never above it |
| IssueController.PutBackUndoesTake | server/controllers/issueController.js:152-222 | returning a copy undoes taking it from a consistent book |
| IssueController.PutBackSaturates | server/controllers/issueController.js:218-222 | a return to a full shelf leaves the book unchanged |
| IssueController.ApproveIssue | server/controllers/issueController.js:126-168 | an unknown issue is NotFound, a non-Pending one Invalid, a deleted book a server error, no copy left Invalid; otherwise the issue becomes Issued at the approval time with its due date kept, and its book loses exactly one copy |
| IssueController.RejectIssue | server/controllers/issueController.js:171-194 | only a Pending issue is deleted; otherwise NotFound or Invalid, with nothing changed |
| IssueController.ReturnBook | server/controllers/issueController.js:197-237 | an unknown issue is NotFound, one neither Issued nor Overdue Invalid; otherwise the issue becomes Returned with its return date, and its book gets a copy back clamped to the total; with the book deleted, the issue is still saved and the result is a server error |
| IssueController.RenewBook | server/controllers/issueController.js:240-279 | a loan whose owner is not faculty is Forbidden before its status is checked; an Issued or Overdue loan of faculty becomes Issued with its due date 30 days later |
| BookController.MatchesQueryProperties | server/controllers/bookController.js:9-21 | without filters every book matches, and a book matches a search for its own title, author or ISBN |
| BookController.GetBooks | server/controllers/bookController.js:4-34 | exactly the matching books are listed, once each, newest first |
| BookController.GetBook | server/controllers/bookController.js:37-53 | succeeds exactly when the id is stored, with the stored book; NotFound exactly when the id is unknown |
| BookController.CreateBook | server/controllers/bookController.js:56-94 | a missing or falsy field is Invalid, a taken ISBN Duplicate, a negative total a server error at save; otherwise a new book with all copies available is added |
| BookController.PatchDescription | server/controllers/bookController.js:116-130 | each supplied descriptive field is overwritten and nothing else changes |
| BookController.ApplyPatch | server/controllers/bookController.js:115-135 | every supplied field is taken, every other kept, and the available copies end clamped to the total |
| BookController.DeltaIsNoOp | server/controllers/bookController.js:121-128 | on a consistent book, changing the total without the available copies leaves the available copies as they were before the clamp |
| BookController.PatchOutcome | server/controllers/bookController.js:121-137 | the patched record has the new total and the clamped available copies, the schema accepts it exactly when neither is negative, and an accepted record is consistent |
| BookController.UpdateBook | server/controllers/bookController.js:97-148 | an unknown book is NotFound, an ISBN held by another book Duplicate, a negative count a server error at save; otherwise the patched, clamped and consistent book replaces the old one |
| BookController.DeleteBook | server/controllers/bookController.js:151-169 | an existing book is removed whatever issues refer to it; otherwise NotFound |
| UserController.GetUsers | server/controllers/userController.js:5-18 | every account is listed once, without its password, newest first |
| UserController.GetUser | server/controllers/userController.js:21-37 | succeeds exactly when the id is stored, with the account's name, email, role and creation time and no password; NotFound exactly when the id is unknown |
| UserController.UpdateUser | server/controllers/userController.js:40-88 | an unknown account is NotFound, a change of one's own role Invalid, an email of another account Duplicate with nothing saved; otherwise the supplied fields, and only a valid role, replace the old ones |
| UserController.DeleteUser | server/controllers/userController.js:91-114 | deleting oneself is Invalid before the lookup, an unknown account NotFound; otherwise the account is removed |
| ReportController.GetOverdueBooks | server/controllers/reportController.js:6-39 | every issue is promoted, and exactly the Overdue issues are listed, once each, earliest due date first |
| ReportController.MarkOverdue | server/controllers/reportController.js:11-28 | the loop over the Issued and Overdue issues in due-date order yields every issue promoted, and lists exactly the Overdue ones in due-date order |
| ReportController.SumAvailableBounded | server/controllers/reportController.js:50-53 | over consistent books the summed available copies lie between 0 and the summed totals |
| ReportController.SumOverRemove | server/controllers/reportController.js:50-53 | the sum over the whole catalogue is any one book's value plus the sum over the others |
| ReportController.SumOverDocs | server/controllers/reportController.js:50-53 | summing over the books listed once each, in any order, gives the sum over the whole catalogue |
| ReportController.RolesPartitionUsers | server/controllers/reportController.js:56-58 | the per-role counts add up to the number of users |
| ReportController.StatusesPartitionIssues | server/controllers/reportController.js:61-63 | the per-status counts add up to the number of issues |
| ReportController.UsersByRole | server/controllers/reportController.js:56-58 | the role grouping has no entry with a zero count |
| ReportController.IssuesByStatus | server/controllers/reportController.js:61-63 | the status grouping has no entry with a zero count |
| ReportController.UsersByRoleEntry | server/controllers/reportController.js:56-58 | each role's entry, absent meaning 0, is the number of users with that role |
| ReportController.IssuesByStatusEntry | server/controllers/reportController.js:61-63 | each status's entry, absent meaning 0, is the number of issues with that status |
| ReportController.UsersByRoleAddsUp | server/controllers/reportController.js:56-58 | the entries of the role grouping add up to the number of users |
| ReportController.IssuesByStatusAddsUp | server/controllers/reportController.js:61-63 | the entries of the status grouping add up to the number of issues |
| ReportController.LoanedBooks | server/controllers/reportController.js:74-75 | the grouping keys are the books of Issued or Returned issues, each once |
| ReportController.LoanCountPositive | server/controllers/reportController.js:74-75 | a book's loan count is positive exactly when some Issued or Returned issue is of it |
| ReportController.LoanGroups | server/controllers/reportController.js:74-75 | one group per book, each carrying its book's loan count, which is positive, and every loaned book has its group |
| ReportController.TopFive | server/controllers/reportController.js:76-77 | the ranking keeps five of the groups, or all of them when there are fewer, and still one per book |
| ReportController.TopFiveDescending | server/controllers/reportController.js:76 | the ranking is in descending order of count |
| ReportController.TopFiveKeepsMost | server/controllers/reportController.js:76-77 | a group left out of the ranking has no more loans than any group kept |
| ReportController.Resolve | server/controllers/reportController.js:78-93 | the lookup yields no more entries than ranked groups |
| ReportController.ResolveSound | server/controllers/reportController.js:78-93 | each entry comes from a ranked group whose book exists, with that book's title and author |
| ReportController.ResolveComplete | server/controllers/reportController.js:78-93 | each ranked group whose book exists yields its entry |
| ReportController.ResolveOrdered | server/controllers/reportController.js:78-93 | the lookup keeps the descending order |
| ReportController.ResolveDistinct | server/controllers/reportController.js:78-93 | the lookup lists each book at most once when the ranking does |
| ReportController.PopularBooksSound | server/controllers/reportController.js:73-94 | the ranking is descending, lists each book once, and each entry is an existing book with its title, author and positive loan count |
| ReportController.PopularBooksComplete | server/controllers/reportController.js:73-94 | an existing book with a loan is ranked, unless five groups are ranked, each with at least as many loans |
| ReportController.PopularBooksTop | server/controllers/reportController.js:73-94 | an existing book loaned more often than a ranked one is ranked itself |
| ReportController.KeysWhere | server/controllers/reportController.js:68-70 | the matching keys are exactly the listed keys whose documents satisfy the filter |
| ReportController.CountDocsOfKeys | server/controllers/reportController.js:68-70 | counting over listed documents counts each matching key once |
| ReportController.CountDocs | server/controllers/reportController.js:68-70 | counting over every document of a collection is its `countDocuments` with that filter |
| ReportController.AllKeys | server/controllers/reportController.js:45-47 | every document id is listed once, so the list is as long as the collection |
| ReportController.GroupsOverStore | server/controllers/reportController.js:56-63 | over a whole collection each role's and each status's entry is the number of matching documents |
| ReportController.PopularOverStore | server/controllers/reportController.js:73-94 | over the whole issue collection the ranking is descending, at most five long and one entry per book, lists existing books with their loan counts, and misses no book loaned more often than a ranked one |
| ReportController.PopularCompleteOverStore | server/controllers/reportController.js:73-94 | over the whole issue collection, an existing book with a loan is left out only when five groups are ranked, each with at least as many loans in the collection |
| ReportController.CountsOverStore | server/controllers/reportController.js:56-70 | the recent count and the groupings are counts of matching documents, and the groupings add up to the totals |
| ReportController.GetAnalytics | server/controllers/reportController.js:42-121 | the totals are the collection sizes; the available copies are the sum over every book, 0 with no books, between 0 and the summed totals; the recent count and the groupings count matching documents, have no zero entry and add up; the ranking is the popular-books ranking of the issue collection read in some order, one entry per book |
| Lifecycle.LoanRoundTrip | server/controllers/issueController.js:126-237 | approving a Pending request and returning the loan leaves every book as it was |
| Lifecycle.ApproveTwice | server/controllers/issueController.js:136-138 | a second approval of the same request is refused |
| Lifecycle.LastCopy | server/controllers/issueController.js:23-154 | once the last copy is approved, a further request for that book is refused |
| Lifecycle.ReturnAtFullShelf | server/controllers/issueController.js:218-222 | returning to a full shelf succeeds and changes no book |
| Lifecycle.RenewTwice | server/controllers/issueController.js:259-264 | two granted renewals move the due date 60 days from where it was |
| Lifecycle.RequestBesideOverdue | server/controllers/issueController.js:27-38 | an Overdue loan does not block a new request by its owner for the same book, which then has two unreturned issues |

## Left out

- HTTP, Express routing and the JSON responses are not modelled. A handler's
  response is its result value.
- Role gates and authentication are not modelled. The route middleware is not
  part of the controllers. Besides, `server/server.js` mounts only the auth,
  book and issue routers, so the report and user handlers are not reachable
  as written.
- `populate` is not modelled. A referenced book or user that was deleted is
  the null that the code dereferences, giving the server error the `catch`
  returns.
- Mongoose validation on save is modelled only as the schema's required
  strings and minimum of 0. `trim`, Mongoose casting and the `timestamps`
  `updatedAt` field are left out.
- server/models/User.js is not part of this model. The user record holds the
  fields the controllers read and write.
- Password hashing with bcrypt is left out. The hash arrives as a parameter.
- Clocks are a parameter `now`. Time is in milliseconds, and a day is
  86 400 000 ms, so `setDate` across a daylight-saving change is not
  modelled.
- Id generation (ObjectId) is modelled as counters.
- Search strings are treated as literal text, not as regular expressions,
  so metacharacters are not interpreted. Case folding covers ASCII only.
- BookController.CreateBook: `totalCopies` arrives as a number, so 0 is
  refused as missing. The application's own book form posts it as text, and
  the text `"0"` is truthy, so such a request saves a book with no copies.
  Text bodies and `parseInt` are not modelled.
- Request bodies arrive typed: strings (empty when absent) and optional
  integers. JavaScript truthiness is modelled as empty string, absent, or 0.
  `parseInt` of a non-number is not modelled.
- The loops of `getMyIssues` and `getOverdueBooks` each save one issue at a
  time. The model applies them to a local copy of the collection and stores
  it at the end. The final state is the same, but intermediate states and
  partial failure are not modelled.
- Concurrency is not modelled. Two requests interleaving (for example two
  approvals of the last copy) cannot happen in the model, because each
  handler is one atomic step.
- Sequences.SortedKeys: ties in the sort key come out in an unspecified
  order, as with MongoDB's sort.
