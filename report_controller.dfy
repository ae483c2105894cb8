/** Reports (server/controllers/reportController.js): the overdue listing,
    which promotes overdue loans as it reads them, and the analytics
    snapshot, a pure aggregation over the three collections. */
module ReportController {
  import opened Outcomes
  import opened Models
  import opened Store
  import opened Sequences
  import IssueController

  // ------------------------------------------------------ overdue listing

  /** getOverdueBooks: promotes every Issued loan whose due date has passed,
      then lists exactly the Overdue issues, earliest due date first. An
      Issued loan that is not yet due is not listed. */
  method GetOverdueBooks(db: Database, now: Time) returns (r: seq<IssueId>)
    requires db.Valid()
    modifies db
    ensures db.Valid()
    ensures db.books == old(db.books) && db.users == old(db.users)
    ensures db.nextBookId == old(db.nextBookId) && db.nextIssueId == old(db.nextIssueId)
    ensures db.issues == IssueController.PromoteAll(old(db.issues), now)
    ensures Distinct(r)
    ensures forall k :: k in r <==> k in db.issues && db.issues[k].status == Overdue
    ensures forall i, j :: 0 <= i < j < |r| ==> db.issues[r[i]].dueDate <= db.issues[r[j]].dueDate
  {
    var issues;
    issues, r := MarkOverdue(db.issues, now);
    forall k | k in db.issues ensures IssueConsistent(issues[k]) {
      IssueController.PromotedChangesOnlyDue(db.issues[k], now);
    }
    db.issues := issues;
  }

  /** The loop of getOverdueBooks over the Issued and Overdue issues in
      due-date order: each one past its due date becomes Overdue and is
      saved, and each Overdue one is listed. The result is every issue
      promoted at `now`, and the listing holds exactly the Overdue issues. */
  method MarkOverdue(before: map<IssueId, Issue>, now: Time) returns (after: map<IssueId, Issue>, r: seq<IssueId>)
    ensures after == IssueController.PromoteAll(before, now)
    ensures Distinct(r)
    ensures forall k :: k in r <==> k in after && after[k].status == Overdue
    ensures forall i, j :: 0 <= i < j < |r| ==> after[r[i]].dueDate <= after[r[j]].dueDate
  {
    var fetched := SortedKeys(before, (i: Issue) => i.status == Issued || i.status == Overdue,
                              (i: Issue) => i.dueDate);
    forall i, j | 0 <= i < j < |fetched| ensures DueIn(before, fetched[i]) <= DueIn(before, fetched[j]) {
    }
    after := before;
    ghost var seen: set<IssueId> := {};
    r := [];
    var n := 0;
    while n < |fetched|
      invariant n <= |fetched|
      invariant Promotions(before, fetched, now, n, seen, after)
      invariant ListedOverdue(seen, after, r)
      invariant ListedInOrder(before, fetched, n, r)
    {
      var k := fetched[n];
      ghost var (after0, r0) := (after, r);
      var issue := after[k];
      if issue.dueDate < now && issue.status != Overdue {
        issue := issue.(status := Overdue);
        after := after[k := issue];
      }
      PromoteStep(before, fetched, now, n, seen, after0, after);
      if issue.status == Overdue {
        r := r + [k];
      }
      ListMembersStep(before, fetched, now, n, seen, after0, r0, after, r);
      ListOrderStep(before, fetched, n, r0, r);
      seen := seen + {k};
      n := n + 1;
    }
    ObservedIsPromoted(before, after, seen, fetched, now);
    forall i, j | 0 <= i < j < |r| ensures after[r[i]].dueDate <= after[r[j]].dueDate {
      assert DueIn(before, r[i]) <= DueIn(before, r[j]);
    }
  }

  /** The due date of issue `k`, 0 for an unknown id. */
  function DueIn(m: map<IssueId, Issue>, k: IssueId): int {
    if k in m then m[k].dueDate else 0
  }

  /** The loop of getOverdueBooks after looking at the first `n` fetched
      issues: exactly those (`seen`) have been promoted. */
  ghost predicate Promotions(before: map<IssueId, Issue>, fetched: seq<IssueId>, now: Time, n: nat,
                             seen: set<IssueId>, after: map<IssueId, Issue>)
  {
    && n <= |fetched|
    && after.Keys == before.Keys
    && (forall j :: 0 <= j < n ==> fetched[j] in seen)
    && (forall j :: n <= j < |fetched| ==> fetched[j] !in seen)
    && (forall k :: k in seen ==> k in fetched)
    && (forall k :: k in before ==>
         after[k] == if k in seen then IssueController.Promoted(before[k], now) else before[k])
  }

  /** The listing holds, each once, the Overdue issues among those seen. */
  ghost predicate ListedOverdue(seen: set<IssueId>, after: map<IssueId, Issue>, r: seq<IssueId>) {
    && Distinct(r)
    && (forall k :: k in r <==> k in seen && k in after && after[k].status == Overdue)
  }

  /** The listing is in due-date order, and no issue in it is due after an
      issue still to come. */
  ghost predicate ListedInOrder(before: map<IssueId, Issue>, fetched: seq<IssueId>, n: nat, r: seq<IssueId>) {
    && (forall a, b :: 0 <= a < b < |r| ==> DueIn(before, r[a]) <= DueIn(before, r[b]))
    && (r != [] ==> forall j :: n <= j < |fetched| ==> DueIn(before, r[|r| - 1]) <= DueIn(before, fetched[j]))
  }

  /** One turn of the loop of getOverdueBooks keeps `Promotions`: the
      handler's test `dueDate < now && status != Overdue` on an Issued or
      Overdue issue is exactly `DueForPromotion`. */
  lemma PromoteStep(before: map<IssueId, Issue>, fetched: seq<IssueId>, now: Time, n: nat, seen: set<IssueId>,
                    after0: map<IssueId, Issue>, after: map<IssueId, Issue>)
    requires n < |fetched| && Distinct(fetched) && Promotions(before, fetched, now, n, seen, after0)
    requires forall k :: k in fetched ==> k in before && (before[k].status == Issued || before[k].status == Overdue)
    requires var k := fetched[n]; var i := after0[k];
      after == if i.dueDate < now && i.status != Overdue then after0[k := i.(status := Overdue)] else after0
    ensures Promotions(before, fetched, now, n + 1, seen + {fetched[n]}, after)
  {
    var k := fetched[n];
    assert after0[k] == before[k];
    forall j | n + 1 <= j < |fetched| ensures fetched[j] !in seen + {k} {
      assert fetched[j] != fetched[n];
    }
  }

  /** One turn of the loop of getOverdueBooks keeps `ListedOverdue`. */
  lemma ListMembersStep(before: map<IssueId, Issue>, fetched: seq<IssueId>, now: Time, n: nat, seen: set<IssueId>,
                        after0: map<IssueId, Issue>, r0: seq<IssueId>, after: map<IssueId, Issue>, r: seq<IssueId>)
    requires n < |fetched| && forall k :: k in fetched ==> k in before
    requires ListedOverdue(seen, after0, r0)
    requires Promotions(before, fetched, now, n, seen, after0)
    requires Promotions(before, fetched, now, n + 1, seen + {fetched[n]}, after)
    requires r == if after[fetched[n]].status == Overdue then r0 + [fetched[n]] else r0
    ensures ListedOverdue(seen + {fetched[n]}, after, r)
  {
    var k := fetched[n];
    assert k !in seen;
    assert forall j :: j in seen ==> j in after0 && j in after && after[j] == after0[j];
    if r != r0 {
      assert k !in r0;
    }
  }

  /** One turn of the loop of getOverdueBooks keeps `ListedInOrder`. */
  lemma ListOrderStep(before: map<IssueId, Issue>, fetched: seq<IssueId>, n: nat, r0: seq<IssueId>, r: seq<IssueId>)
    requires n < |fetched| && ListedInOrder(before, fetched, n, r0)
    requires forall i, j :: 0 <= i < j < |fetched| ==> DueIn(before, fetched[i]) <= DueIn(before, fetched[j])
    requires r == r0 || r == r0 + [fetched[n]]
    ensures ListedInOrder(before, fetched, n + 1, r)
  {
    var k := fetched[n];
    if r != r0 {
      if r0 != [] {
        assert DueIn(before, r0[|r0| - 1]) <= DueIn(before, k);
      }
      forall a, b | 0 <= a < b < |r| ensures DueIn(before, r[a]) <= DueIn(before, r[b]) {
        if b < |r0| {
          assert r[a] == r0[a] && r[b] == r0[b];
        } else {
          assert DueIn(before, r0[a]) <= DueIn(before, r0[|r0| - 1]) || a == |r0| - 1;
        }
      }
    }
  }

  /** After the loop of getOverdueBooks every fetched issue has been
      promoted, and an issue that was not fetched is neither Issued nor
      Overdue, so promotion leaves it alone. */
  lemma ObservedIsPromoted(before: map<IssueId, Issue>, after: map<IssueId, Issue>, seen: set<IssueId>,
                           fetched: seq<IssueId>, now: Time)
    requires after.Keys == before.Keys
    requires forall k :: k in fetched <==> k in before && (before[k].status == Issued || before[k].status == Overdue)
    requires forall j :: 0 <= j < |fetched| ==> fetched[j] in seen
    requires forall k :: k in before ==>
      after[k] == if k in seen then IssueController.Promoted(before[k], now) else before[k]
    ensures after == IssueController.PromoteAll(before, now)
    ensures forall k :: k in after ==> after[k].dueDate == before[k].dueDate
    ensures forall k :: k in after && after[k].status == Overdue ==> k in seen
  {
    forall k | k in before
      ensures after[k] == IssueController.Promoted(before[k], now)
      ensures after[k].dueDate == before[k].dueDate
    {
      IssueController.PromotedChangesOnlyDue(before[k], now);
    }
  }

  // ------------------------------------------------------------ analytics

  /** One entry of the popularity ranking. */
  datatype Popular = Popular(bookId: BookId, title: string, author: string, count: nat)

  /** The `overview`, the two groupings and the ranking of getAnalytics. */
  datatype Analytics = Analytics(
    totalBooks: nat,
    totalUsers: nat,
    totalIssues: nat,
    totalAvailableCopies: int,
    recentIssues: nat,
    usersByRole: map<Role, nat>,
    issuesByStatus: map<Status, nat>,
    popularBooks: seq<Popular>)

  function Available(b: Book): int {
    b.availableCopies
  }

  function Total(b: Book): int {
    b.totalCopies
  }

  /** The `$sum` of `f` over the listed books; 0 when there are none. */
  function Sum(books: seq<Book>, f: Book -> int): int {
    if books == [] then 0 else f(books[0]) + Sum(books[1..], f)
  }

  /** The sum of `f` over every book of the collection, whatever the order
      the books are read in (see `SumOverDocs`). */
  ghost function SumOver(books: map<BookId, Book>, f: Book -> int): int
    decreases books.Keys
  {
    if books == map[] then 0
    else
      var k :| k in books;
      f(books[k]) + SumOver(books - {k}, f)
  }

  /** Any book can be taken out of the collection sum first. */
  lemma {:induction false} SumOverRemove(books: map<BookId, Book>, k0: BookId, f: Book -> int)
    requires k0 in books
    ensures SumOver(books, f) == f(books[k0]) + SumOver(books - {k0}, f)
    decreases books.Keys
  {
    var k :| k in books && SumOver(books, f) == f(books[k]) + SumOver(books - {k}, f);
    if k != k0 {
      SumOverRemove(books - {k}, k0, f);
      SumOverRemove(books - {k0}, k, f);
      assert books - {k} - {k0} == books - {k0} - {k};
    }
  }

  /** Summing over the books listed once each by `ids` is the collection
      sum: the aggregation does not depend on the order it reads them in. */
  lemma {:induction false} SumOverDocs(books: map<BookId, Book>, ids: seq<BookId>, f: Book -> int)
    requires Enumerates(books, ids)
    ensures Sum(Docs(books, ids), f) == SumOver(books, f)
    decreases |ids|
  {
    if ids == [] {
      assert books.Keys == {};
      assert books == map[];
    } else {
      var rest := books - {ids[0]};
      assert Docs(books, ids)[1..] == Docs(rest, ids[1..]);
      SumOverDocs(rest, ids[1..], f);
      SumOverRemove(books, ids[0], f);
    }
  }

  /** Over consistent books, the available copies add up to between 0 and
      the total copies. */
  lemma {:induction false} SumAvailableBounded(books: seq<Book>)
    requires forall i :: 0 <= i < |books| ==> CopiesConsistent(books[i])
    ensures 0 <= Sum(books, Available) <= Sum(books, Total)
  {
    if books != [] {
      SumAvailableBounded(books[1..]);
    }
  }

  function HasRole(r: Role): User -> bool {
    (u: User) => u.role == r
  }

  function HasStatus(s: Status): Issue -> bool {
    (i: Issue) => i.status == s
  }

  /** `$group` by role: one entry per role that occurs, with its count. */
  function UsersByRole(users: seq<User>): (m: map<Role, nat>)
    ensures forall r :: r in m ==> m[r] > 0
  {
    map r | r in {Student, Faculty, Librarian, Admin} && Count(users, HasRole(r)) > 0 :: Count(users, HasRole(r))
  }

  /** `$group` by status: one entry per status that occurs, with its count. */
  function IssuesByStatus(issues: seq<Issue>): (m: map<Status, nat>)
    ensures forall s :: s in m ==> m[s] > 0
  {
    map s | s in {Pending, Issued, Returned, Overdue} && Count(issues, HasStatus(s)) > 0 :: Count(issues, HasStatus(s))
  }

  /** The count a grouping reports for `k`; 0 when `k` has no entry. */
  function Entry<K>(m: map<K, nat>, k: K): nat {
    if k in m then m[k] else 0
  }

  /** Each user is counted under exactly one role. */
  lemma {:induction false} RolesPartitionUsers(users: seq<User>)
    ensures Count(users, HasRole(Student)) + Count(users, HasRole(Faculty))
          + Count(users, HasRole(Librarian)) + Count(users, HasRole(Admin)) == |users|
  {
    if users != [] {
      RolesPartitionUsers(users[1..]);
    }
  }

  /** Each issue is counted under exactly one status. */
  lemma {:induction false} StatusesPartitionIssues(issues: seq<Issue>)
    ensures Count(issues, HasStatus(Pending)) + Count(issues, HasStatus(Issued))
          + Count(issues, HasStatus(Returned)) + Count(issues, HasStatus(Overdue)) == |issues|
  {
    if issues != [] {
      StatusesPartitionIssues(issues[1..]);
    }
  }

  /** The role grouping reports each role's count, 0 for a role that no
      user holds. */
  lemma UsersByRoleEntry(users: seq<User>, r: Role)
    ensures Entry(UsersByRole(users), r) == Count(users, HasRole(r))
  {
    assert r in {Student, Faculty, Librarian, Admin};
  }

  /** The status grouping reports each status's count, 0 for a status that
      no issue has. */
  lemma IssuesByStatusEntry(issues: seq<Issue>, s: Status)
    ensures Entry(IssuesByStatus(issues), s) == Count(issues, HasStatus(s))
  {
    assert s in {Pending, Issued, Returned, Overdue};
  }

  /** The entries of the role grouping add up to the number of users. */
  lemma UsersByRoleAddsUp(users: seq<User>)
    ensures Entry(UsersByRole(users), Student) + Entry(UsersByRole(users), Faculty)
          + Entry(UsersByRole(users), Librarian) + Entry(UsersByRole(users), Admin) == |users|
  {
    RolesPartitionUsers(users);
    UsersByRoleEntry(users, Student);
    UsersByRoleEntry(users, Faculty);
    UsersByRoleEntry(users, Librarian);
    UsersByRoleEntry(users, Admin);
  }

  /** The entries of the status grouping add up to the number of issues. */
  lemma IssuesByStatusAddsUp(issues: seq<Issue>)
    ensures Entry(IssuesByStatus(issues), Pending) + Entry(IssuesByStatus(issues), Issued)
          + Entry(IssuesByStatus(issues), Returned) + Entry(IssuesByStatus(issues), Overdue) == |issues|
  {
    StatusesPartitionIssues(issues);
    IssuesByStatusEntry(issues, Pending);
    IssuesByStatusEntry(issues, Issued);
    IssuesByStatusEntry(issues, Returned);
    IssuesByStatusEntry(issues, Overdue);
  }

  /** Issues created at or after `cutoff`. */
  function CreatedSince(cutoff: Time): Issue -> bool {
    (i: Issue) => i.createdAt >= cutoff
  }

  /** The start of the recent window: 30 days before `now`. */
  function RecentCutoff(now: Time): Time {
    now - 30 * Day
  }

  // ------------------------------------------------------- popular books

  /** Issues that count towards popularity: Issued or Returned ones. */
  predicate IsLoan(i: Issue) {
    i.status == Issued || i.status == Returned
  }

  function LoanOf(b: BookId): Issue -> bool {
    (i: Issue) => IsLoan(i) && i.bookId == b
  }

  function LoanCount(issues: seq<Issue>, b: BookId): nat {
    Count(issues, LoanOf(b))
  }

  /** The books of the loans, each once, in order of first appearance. */
  function LoanedBooks(issues: seq<Issue>): (r: seq<BookId>)
    ensures Distinct(r)
    ensures forall b :: b in r <==> exists i :: 0 <= i < |issues| && IsLoan(issues[i]) && issues[i].bookId == b
  {
    if issues == [] then []
    else
      var init, last := issues[..|issues| - 1], issues[|issues| - 1];
      var r := LoanedBooks(init);
      assert forall i :: 0 <= i < |init| ==> init[i] == issues[i];
      if !IsLoan(last) || last.bookId in r then r else r + [last.bookId]
  }

  /** A book has a positive loan count exactly when some loan is of it. */
  lemma {:induction false} LoanCountPositive(issues: seq<Issue>, b: BookId)
    ensures LoanCount(issues, b) > 0 <==> exists i :: 0 <= i < |issues| && IsLoan(issues[i]) && issues[i].bookId == b
  {
    if issues != [] {
      LoanCountPositive(issues[1..], b);
      assert forall i :: 0 < i < |issues| ==> issues[i] == issues[1..][i - 1];
      if LoanCount(issues[1..], b) > 0 {
        var i :| 0 <= i < |issues[1..]| && IsLoan(issues[1..][i]) && issues[1..][i].bookId == b;
        assert IsLoan(issues[i + 1]) && issues[i + 1].bookId == b;
      }
    }
  }

  /** `$group` of the loans by book, each with its loan count. */
  function LoanGroups(issues: seq<Issue>): (g: seq<(BookId, nat)>)
    ensures DistinctBooks(g)
    ensures forall x :: x in g ==> x.1 == LoanCount(issues, x.0) && x.1 > 0
    ensures forall b: BookId :: LoanCount(issues, b) > 0 ==> (b, LoanCount(issues, b)) in g
  {
    var books := LoanedBooks(issues);
    var g := seq(|books|, i requires 0 <= i < |books| => (books[i], LoanCount(issues, books[i])));
    assert forall i :: 0 <= i < |g| ==> g[i].0 == books[i];
    forall x | x in g ensures x.1 == LoanCount(issues, x.0) && x.1 > 0 {
      var i :| 0 <= i < |g| && g[i] == x;
      assert books[i] in books;
      LoanCountPositive(issues, x.0);
    }
    forall b: BookId | LoanCount(issues, b) > 0 ensures (b, LoanCount(issues, b)) in g {
      LoanCountPositive(issues, b);
      assert b in books;
      var i :| 0 <= i < |books| && books[i] == b;
      assert g[i] == (b, LoanCount(issues, b));
    }
    g
  }

  /** No book has two groups. */
  predicate DistinctBooks(g: seq<(BookId, nat)>) {
    forall i, j :: 0 <= i < j < |g| ==> g[i].0 != g[j].0
  }

  /** Groups drawn from groups with one per book have one per book. */
  lemma SubDistinctBooks(t: seq<(BookId, nat)>, g: seq<(BookId, nat)>)
    requires multiset(t) <= multiset(g)
    ensures DistinctBooks(g) ==> DistinctBooks(t)
  {
    if DistinctBooks(g) {
      SubMultisetDistinct(t, g);
      forall i, j | 0 <= i < j < |t| ensures t[i].0 != t[j].0 {
        assert t[i] in multiset(g) && t[j] in multiset(g);
        var a :| 0 <= a < |g| && g[a] == t[i];
        var b :| 0 <= b < |g| && g[b] == t[j];
        assert a != b;
      }
    }
  }

  /** The sort key of `$sort: { count: -1 }`. */
  function CountKey(g: (BookId, nat)): int {
    -(g.1 as int)
  }

  /** `$sort` by count descending, then `$limit` 5. */
  function TopFive(groups: seq<(BookId, nat)>): (t: seq<(BookId, nat)>)
    ensures |t| == if |groups| < 5 then |groups| else 5
    ensures multiset(t) <= multiset(groups)
    ensures |groups| <= 5 ==> multiset(t) == multiset(groups)
    ensures DistinctBooks(groups) ==> DistinctBooks(t)
  {
    var ranked := SortBy(groups, CountKey);
    var t := ranked[..if |ranked| < 5 then |ranked| else 5];
    assert ranked == t + ranked[|t|..];
    SubDistinctBooks(t, groups);
    t
  }

  /** Groups in descending order of count. */
  predicate Descending(t: seq<(BookId, nat)>) {
    forall i, j :: 0 <= i < j < |t| ==> t[i].1 >= t[j].1
  }

  /** The ranking is in descending order of count. */
  lemma TopFiveDescending(groups: seq<(BookId, nat)>)
    ensures Descending(TopFive(groups))
  {
    var ranked := SortBy(groups, CountKey);
    var t := TopFive(groups);
    forall i, j | 0 <= i < j < |t| ensures t[i].1 >= t[j].1 {
      assert t[i] == ranked[i] && t[j] == ranked[j];
      assert CountKey(ranked[i]) <= CountKey(ranked[j]);
    }
  }

  /** Every group left out of the ranking has no more loans than any group
      kept. */
  lemma TopFiveKeepsMost(groups: seq<(BookId, nat)>, x: (BookId, nat), y: (BookId, nat))
    requires x in groups && x !in TopFive(groups) && y in TopFive(groups)
    ensures x.1 <= y.1
  {
    var ranked := SortBy(groups, CountKey);
    var t := TopFive(groups);
    assert x in multiset(ranked);
    var j :| 0 <= j < |ranked| && ranked[j] == x;
    var i :| 0 <= i < |t| && t[i] == y;
    assert ranked[i] == y;
    assert j >= |t|;
    assert CountKey(ranked[i]) <= CountKey(ranked[j]);
  }

  /** The entry `$project` makes of a ranked group whose book was found. */
  function Entry0(x: (BookId, nat), b: Book): Popular {
    Popular(x.0, b.title, b.author, x.1)
  }

  /** `$lookup` and `$unwind`: ranked entries whose book no longer exists
      are dropped; the others get the book's title and author. */
  function Resolve(top: seq<(BookId, nat)>, books: map<BookId, Book>): (r: seq<Popular>)
    ensures |r| <= |top|
  {
    if top == [] then []
    else if top[0].0 in books then [Entry0(top[0], books[top[0].0])] + Resolve(top[1..], books)
    else Resolve(top[1..], books)
  }

  /** Every resolved entry comes from a ranked group whose book exists, and
      carries that book's title and author. */
  lemma {:induction false} ResolveSound(top: seq<(BookId, nat)>, books: map<BookId, Book>, p: Popular)
    requires p in Resolve(top, books)
    ensures (p.bookId, p.count) in top && p.bookId in books
    ensures p == Entry0((p.bookId, p.count), books[p.bookId])
  {
    if top[0].0 in books && p == Entry0(top[0], books[top[0].0]) {
    } else {
      ResolveSound(top[1..], books, p);
    }
  }

  /** Every ranked group whose book exists is resolved. */
  lemma {:induction false} ResolveComplete(top: seq<(BookId, nat)>, books: map<BookId, Book>, x: (BookId, nat))
    requires x in top && x.0 in books
    ensures Entry0(x, books[x.0]) in Resolve(top, books)
  {
    if x != top[0] {
      ResolveComplete(top[1..], books, x);
    }
  }

  /** Resolving keeps the order of the ranking. */
  lemma {:induction false} ResolveOrdered(top: seq<(BookId, nat)>, books: map<BookId, Book>)
    requires Descending(top)
    ensures forall i, j :: 0 <= i < j < |Resolve(top, books)| ==>
              Resolve(top, books)[i].count >= Resolve(top, books)[j].count
  {
    if top != [] {
      var rest := Resolve(top[1..], books);
      ResolveOrdered(top[1..], books);
      if top[0].0 in books {
        var r := Resolve(top, books);
        assert r == [Entry0(top[0], books[top[0].0])] + rest;
        forall j | 0 < j < |r| ensures r[0].count >= r[j].count {
          assert r[j] in rest;
          ResolveSound(top[1..], books, r[j]);
        }
      }
    }
  }

  /** Resolving lists each book at most once when the ranking does. */
  lemma {:induction false} ResolveDistinct(top: seq<(BookId, nat)>, books: map<BookId, Book>)
    requires DistinctBooks(top)
    ensures forall i, j :: 0 <= i < j < |Resolve(top, books)| ==>
              Resolve(top, books)[i].bookId != Resolve(top, books)[j].bookId
  {
    if top != [] {
      var rest := Resolve(top[1..], books);
      ResolveDistinct(top[1..], books);
      if top[0].0 in books {
        var r := Resolve(top, books);
        assert r == [Entry0(top[0], books[top[0].0])] + rest;
        forall j | 0 < j < |r| ensures r[0].bookId != r[j].bookId {
          assert r[j] in rest;
          ResolveSound(top[1..], books, r[j]);
          var m :| 0 <= m < |top[1..]| && top[1..][m] == (r[j].bookId, r[j].count);
          assert top[m + 1].0 == r[j].bookId;
        }
      }
    }
  }

  /** popularBooks: the loan groups, ranked, cut to five and resolved. */
  function PopularBooks(issues: seq<Issue>, books: map<BookId, Book>): (r: seq<Popular>)
    ensures |r| <= 5
  {
    Resolve(TopFive(LoanGroups(issues)), books)
  }

  /** popularBooks holds at most five books, most loans first, only books
      that still exist, each with its number of Issued or Returned issues
      and its current title and author. */
  lemma PopularBooksSound(issues: seq<Issue>, books: map<BookId, Book>)
    ensures forall i, j :: 0 <= i < j < |PopularBooks(issues, books)| ==>
              PopularBooks(issues, books)[i].count >= PopularBooks(issues, books)[j].count
    ensures forall i, j :: 0 <= i < j < |PopularBooks(issues, books)| ==>
              PopularBooks(issues, books)[i].bookId != PopularBooks(issues, books)[j].bookId
    ensures forall p :: p in PopularBooks(issues, books) ==>
              && p.bookId in books && p.count == LoanCount(issues, p.bookId) && p.count > 0
              && p.title == books[p.bookId].title && p.author == books[p.bookId].author
  {
    var top := TopFive(LoanGroups(issues));
    TopFiveDescending(LoanGroups(issues));
    ResolveOrdered(top, books);
    ResolveDistinct(top, books);
    forall p | p in PopularBooks(issues, books)
      ensures p.bookId in books && p.count == LoanCount(issues, p.bookId) && p.count > 0
      ensures p.title == books[p.bookId].title && p.author == books[p.bookId].author
    {
      ResolveSound(top, books, p);
      assert (p.bookId, p.count) in multiset(top);
    }
  }

  /** No book is left out of popularBooks while it still exists and has
      more loans than a listed book. */
  lemma PopularBooksTop(issues: seq<Issue>, books: map<BookId, Book>, p: Popular, b: BookId)
    requires p in PopularBooks(issues, books) && b in books && LoanCount(issues, b) > p.count
    ensures Popular(b, books[b].title, books[b].author, LoanCount(issues, b)) in PopularBooks(issues, books)
  {
    var groups := LoanGroups(issues);
    var top := TopFive(groups);
    ResolveSound(top, books, p);
    var x := (b, LoanCount(issues, b));
    assert x in groups;
    if x !in top {
      TopFiveKeepsMost(groups, x, (p.bookId, p.count));
    }
    ResolveComplete(top, books, x);
  }

  /** An existing book with a loan is ranked, unless five groups are ranked
      and each has at least as many loans as it. */
  lemma PopularBooksComplete(issues: seq<Issue>, books: map<BookId, Book>, b: BookId)
    requires b in books && LoanCount(issues, b) > 0
    ensures || Popular(b, books[b].title, books[b].author, LoanCount(issues, b)) in PopularBooks(issues, books)
            || (&& |TopFive(LoanGroups(issues))| == 5
                && forall x :: x in TopFive(LoanGroups(issues)) ==> x.1 >= LoanCount(issues, b))
  {
    var groups := LoanGroups(issues);
    var top := TopFive(groups);
    var x := (b, LoanCount(issues, b));
    assert x in groups;
    if x in top {
      ResolveComplete(top, books, x);
    } else {
      assert x in multiset(groups) && x !in multiset(top);
      forall y | y in top ensures y.1 >= x.1 {
        TopFiveKeepsMost(groups, x, y);
      }
    }
  }

  // ---------------------------------------------- counting over a collection

  /** `ids` lists every key of `m`, each once. */
  ghost predicate Enumerates<K(!new), V>(m: map<K, V>, ids: seq<K>) {
    Distinct(ids) && forall k :: k in ids <==> k in m
  }

  /** The documents of `m` listed in the order of `ids`. */
  function Docs<K, V>(m: map<K, V>, ids: seq<K>): (d: seq<V>)
    requires forall k :: k in ids ==> k in m
    ensures |d| == |ids| && forall i :: 0 <= i < |ids| ==> d[i] == m[ids[i]]
  {
    seq(|ids|, i requires 0 <= i < |ids| => m[ids[i]])
  }

  /** How many documents of `m` satisfy `p`: a `countDocuments(filter)`. */
  ghost function CountWhere<K, V>(m: map<K, V>, p: V -> bool): nat {
    |set k | k in m && p(m[k])|
  }

  /** The listed keys whose documents satisfy `p`. */
  function KeysWhere<K(!new), V>(m: map<K, V>, ids: seq<K>, p: V -> bool): (s: set<K>)
    requires forall k :: k in ids ==> k in m
    ensures forall k :: k in s <==> k in ids && p(m[k])
  {
    if ids == [] then {}
    else (if p(m[ids[0]]) then {ids[0]} else {}) + KeysWhere(m, ids[1..], p)
  }

  /** Counting over the listed documents counts each listed key once. */
  lemma {:induction false} CountDocsOfKeys<K(!new), V>(m: map<K, V>, ids: seq<K>, p: V -> bool)
    requires Distinct(ids) && forall k :: k in ids ==> k in m
    ensures Count(Docs(m, ids), p) == |KeysWhere(m, ids, p)|
  {
    if ids != [] {
      assert Docs(m, ids)[1..] == Docs(m, ids[1..]);
      CountDocsOfKeys(m, ids[1..], p);
      assert ids[0] !in ids[1..];
    }
  }

  /** When `ids` lists every key of `m` once, counting over the listed
      documents is counting over the collection. */
  lemma CountDocs<K(!new), V>(m: map<K, V>, ids: seq<K>, p: V -> bool)
    requires Distinct(ids) && forall k :: k in ids <==> k in m
    ensures Count(Docs(m, ids), p) == CountWhere(m, p)
    ensures |ids| == |m|
  {
    CountDocsOfKeys(m, ids, p);
    assert KeysWhere(m, ids, p) == set k | k in m && p(m[k]);
    DistinctCardinality(ids);
    assert (set x | x in ids) == m.Keys;
  }

  /** Every key of `m`, each once. */
  method AllKeys<K(==), V>(m: map<K, V>) returns (ids: seq<K>)
    ensures Distinct(ids) && forall k :: k in ids <==> k in m
    ensures |ids| == |m|
  {
    ids := SortedKeys(m, (v: V) => true, (v: V) => 0);
    DistinctCardinality(ids);
    assert (set x | x in ids) == m.Keys;
  }

  /** Over every document of the collections, the groupings report each
      role's and each status's number of documents. */
  lemma GroupsOverStore(users: map<UserId, User>, userIds: seq<UserId>,
                        issues: map<IssueId, Issue>, issueIds: seq<IssueId>)
    requires Distinct(userIds) && forall k :: k in userIds <==> k in users
    requires Distinct(issueIds) && forall k :: k in issueIds <==> k in issues
    ensures forall r :: Entry(UsersByRole(Docs(users, userIds)), r) == CountWhere(users, HasRole(r))
    ensures forall s :: Entry(IssuesByStatus(Docs(issues, issueIds)), s) == CountWhere(issues, HasStatus(s))
  {
    forall r ensures Entry(UsersByRole(Docs(users, userIds)), r) == CountWhere(users, HasRole(r)) {
      UsersByRoleEntry(Docs(users, userIds), r);
      CountDocs(users, userIds, HasRole(r));
    }
    forall s ensures Entry(IssuesByStatus(Docs(issues, issueIds)), s) == CountWhere(issues, HasStatus(s)) {
      IssuesByStatusEntry(Docs(issues, issueIds), s);
      CountDocs(issues, issueIds, HasStatus(s));
    }
  }

  /** Over every issue document, popularBooks lists at most five books
      that exist, most loaned first, each with its number of Issued and
      Returned issues in the collection, and leaves out no existing book
      loaned more often than one it lists. */
  lemma PopularOverStore(issues: map<IssueId, Issue>, issueIds: seq<IssueId>, books: map<BookId, Book>,
                         popular: seq<Popular>)
    requires Distinct(issueIds) && forall k :: k in issueIds <==> k in issues
    requires popular == PopularBooks(Docs(issues, issueIds), books)
    ensures |popular| <= 5
    ensures forall i, j :: 0 <= i < j < |popular| ==> popular[i].count >= popular[j].count
    ensures forall i, j :: 0 <= i < j < |popular| ==> popular[i].bookId != popular[j].bookId
    ensures forall p :: p in popular ==>
              p.bookId in books && p.count == CountWhere(issues, LoanOf(p.bookId)) && p.count > 0
              && p.title == books[p.bookId].title && p.author == books[p.bookId].author
    ensures forall p, b :: p in popular && b in books && CountWhere(issues, LoanOf(b)) > p.count ==>
              exists q :: q in popular && q.bookId == b
  {
    var docs := Docs(issues, issueIds);
    PopularBooksSound(docs, books);
    forall p | p in popular ensures p.count == CountWhere(issues, LoanOf(p.bookId)) {
      CountDocs(issues, issueIds, LoanOf(p.bookId));
    }
    forall p, b | p in popular && b in books && CountWhere(issues, LoanOf(b)) > p.count
      ensures exists q :: q in popular && q.bookId == b
    {
      CountDocs(issues, issueIds, LoanOf(b));
      PopularBooksTop(docs, books, p, b);
    }
  }

  /** Over every issue document, an existing book with a loan is left out
      of popularBooks only when five books are ranked, each with its number
      of Issued and Returned issues in the collection, and none with fewer
      loans than it. */
  lemma PopularCompleteOverStore(issues: map<IssueId, Issue>, issueIds: seq<IssueId>, books: map<BookId, Book>,
                                 b: BookId)
    requires Enumerates(issues, issueIds)
    requires b in books && CountWhere(issues, LoanOf(b)) > 0
    requires forall q :: q in PopularBooks(Docs(issues, issueIds), books) ==> q.bookId != b
    ensures var top := TopFive(LoanGroups(Docs(issues, issueIds)));
      && |top| == 5
      && forall x :: x in top ==> x.1 == CountWhere(issues, LoanOf(x.0)) >= CountWhere(issues, LoanOf(b))
  {
    var docs := Docs(issues, issueIds);
    var top := TopFive(LoanGroups(docs));
    CountDocs(issues, issueIds, LoanOf(b));
    PopularBooksComplete(docs, books, b);
    forall x | x in top ensures x.1 == CountWhere(issues, LoanOf(x.0)) {
      assert x in multiset(LoanGroups(docs));
      CountDocs(issues, issueIds, LoanOf(x.0));
    }
  }

  /** The report getAnalytics builds from the documents of the three
      collections, listed in the order of `bookIds`, `userIds` and `issueIds`. */
  function AnalyticsOf(books: map<BookId, Book>, bookIds: seq<BookId>, users: map<UserId, User>,
                       userIds: seq<UserId>, issues: map<IssueId, Issue>, issueIds: seq<IssueId>,
                       now: Time): Analytics
    requires forall k :: k in bookIds ==> k in books
    requires forall k :: k in userIds ==> k in users
    requires forall k :: k in issueIds ==> k in issues
  {
    var issueDocs := Docs(issues, issueIds);
    Analytics(|bookIds|, |userIds|, |issueIds|, Sum(Docs(books, bookIds), Available),
              Count(issueDocs, CreatedSince(RecentCutoff(now))),
              UsersByRole(Docs(users, userIds)), IssuesByStatus(issueDocs), PopularBooks(issueDocs, books))
  }

  /** The counts of the report built over every document of the
      collections: each is the number of matching documents, and the groups
      add up to the totals. */
  lemma CountsOverStore(users: map<UserId, User>, userIds: seq<UserId>,
                        issues: map<IssueId, Issue>, issueIds: seq<IssueId>, now: Time, a: Analytics)
    requires Distinct(userIds) && |userIds| == |users| && forall k :: k in userIds <==> k in users
    requires Distinct(issueIds) && |issueIds| == |issues| && forall k :: k in issueIds <==> k in issues
    requires a.totalUsers == |users| && a.totalIssues == |issues|
    requires a.recentIssues == Count(Docs(issues, issueIds), CreatedSince(RecentCutoff(now)))
    requires a.usersByRole == UsersByRole(Docs(users, userIds))
    requires a.issuesByStatus == IssuesByStatus(Docs(issues, issueIds))
    ensures a.recentIssues == CountWhere(issues, CreatedSince(RecentCutoff(now)))
    ensures a.recentIssues <= a.totalIssues
    ensures forall r :: Entry(a.usersByRole, r) == CountWhere(users, HasRole(r))
    ensures forall s :: Entry(a.issuesByStatus, s) == CountWhere(issues, HasStatus(s))
    ensures Entry(a.usersByRole, Student) + Entry(a.usersByRole, Faculty)
          + Entry(a.usersByRole, Librarian) + Entry(a.usersByRole, Admin) == a.totalUsers
    ensures Entry(a.issuesByStatus, Pending) + Entry(a.issuesByStatus, Issued)
          + Entry(a.issuesByStatus, Returned) + Entry(a.issuesByStatus, Overdue) == a.totalIssues
  {
    CountDocs(issues, issueIds, CreatedSince(RecentCutoff(now)));
    UsersByRoleAddsUp(Docs(users, userIds));
    IssuesByStatusAddsUp(Docs(issues, issueIds));
    GroupsOverStore(users, userIds, issues, issueIds);
  }

  /** getAnalytics: the totals count the documents of each collection, the
      available copies are summed over every book, the recent count and
      each group's count are the number of matching documents, the groups
      add up to the totals, and the ranking is popularBooks over the issue
      collection: at most five existing books, each once, most loaned
      first, with their loan counts. */
  method GetAnalytics(db: Database, now: Time) returns (a: Analytics)
    requires db.Valid()
    ensures a.totalBooks == |db.books| && a.totalUsers == |db.users| && a.totalIssues == |db.issues|
    ensures a.totalAvailableCopies == SumOver(db.books, Available)
    ensures |db.books| == 0 ==> a.totalAvailableCopies == 0
    ensures 0 <= a.totalAvailableCopies <= SumOver(db.books, Total)
    ensures a.recentIssues == CountWhere(db.issues, CreatedSince(RecentCutoff(now)))
    ensures a.recentIssues <= a.totalIssues
    ensures forall r :: Entry(a.usersByRole, r) == CountWhere(db.users, HasRole(r))
    ensures forall s :: Entry(a.issuesByStatus, s) == CountWhere(db.issues, HasStatus(s))
    ensures Entry(a.usersByRole, Student) + Entry(a.usersByRole, Faculty)
          + Entry(a.usersByRole, Librarian) + Entry(a.usersByRole, Admin) == a.totalUsers
    ensures Entry(a.issuesByStatus, Pending) + Entry(a.issuesByStatus, Issued)
          + Entry(a.issuesByStatus, Returned) + Entry(a.issuesByStatus, Overdue) == a.totalIssues
    ensures forall r :: r in a.usersByRole ==> a.usersByRole[r] > 0
    ensures forall s :: s in a.issuesByStatus ==> a.issuesByStatus[s] > 0
    ensures exists ids :: Enumerates(db.issues, ids) && a.popularBooks == PopularBooks(Docs(db.issues, ids), db.books)
    ensures |a.popularBooks| <= 5
    ensures forall i, j :: 0 <= i < j < |a.popularBooks| ==> a.popularBooks[i].bookId != a.popularBooks[j].bookId
    ensures forall i, j :: 0 <= i < j < |a.popularBooks| ==> a.popularBooks[i].count >= a.popularBooks[j].count
    ensures forall p :: p in a.popularBooks ==>
              p.bookId in db.books && p.count == CountWhere(db.issues, LoanOf(p.bookId)) && p.count > 0
              && p.title == db.books[p.bookId].title && p.author == db.books[p.bookId].author
    ensures forall p, b :: p in a.popularBooks && b in db.books && CountWhere(db.issues, LoanOf(b)) > p.count ==>
              exists q :: q in a.popularBooks && q.bookId == b
  {
    var books, users, issues := db.books, db.users, db.issues;
    var bookIds := AllKeys(books);
    var userIds := AllKeys(users);
    var issueIds := AllKeys(issues);
    a := AnalyticsOf(books, bookIds, users, userIds, issues, issueIds, now);
    SumAvailableBounded(Docs(books, bookIds));
    SumOverDocs(books, bookIds, Available);
    SumOverDocs(books, bookIds, Total);
    CountsOverStore(users, userIds, issues, issueIds, now, a);
    PopularOverStore(issues, issueIds, books, a.popularBooks);
    assert Enumerates(issues, issueIds) && a.popularBooks == PopularBooks(Docs(issues, issueIds), books);
  }
}
