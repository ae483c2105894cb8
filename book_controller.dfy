/** The catalogue (server/controllers/bookController.js): search, creation
    with a unique ISBN, field-wise update with a clamp, and deletion. */
module BookController {
  import opened Outcomes
  import opened Models
  import opened Store
  import opened Sequences
  import opened Text

  // ---------------------------------------------------------------- search

  /** The getBooks filter. An empty `search` or `category` means the filter
      was not given. `search` must occur, ignoring case, in the title, the
      author or the ISBN; `category` must occur in the category. */
  predicate MatchesQuery(b: Book, search: string, category: string) {
    && (search == "" || ContainsIgnoringCase(b.title, search)
        || ContainsIgnoringCase(b.author, search) || ContainsIgnoringCase(b.isbn, search))
    && (category == "" || ContainsIgnoringCase(b.category, category))
  }

  /** Without filters every book is listed; a book matches a search for its
      own exact title, author or ISBN. */
  lemma MatchesQueryProperties(b: Book, search: string)
    ensures MatchesQuery(b, "", "")
    ensures search in {b.title, b.author, b.isbn} ==> MatchesQuery(b, search, "")
  {
    if search in {b.title, b.author, b.isbn} {
      if search == b.title {
        VerbatimMatches(b.title, search, 0);
      } else if search == b.author {
        VerbatimMatches(b.author, search, 0);
      } else {
        VerbatimMatches(b.isbn, search, 0);
      }
    }
  }

  /** getBooks: the matching books, each once, newest first. */
  method GetBooks(db: Database, search: string, category: string) returns (r: seq<BookId>)
    ensures Distinct(r)
    ensures forall k :: k in r <==> k in db.books && MatchesQuery(db.books[k], search, category)
    ensures forall i, j :: 0 <= i < j < |r| ==> db.books[r[i]].createdAt >= db.books[r[j]].createdAt
  {
    r := SortedKeys(db.books, (b: Book) => MatchesQuery(b, search, category), (b: Book) => -b.createdAt);
  }

  /** getBook: the book with id `id`, or NotFound. */
  function GetBook(books: map<BookId, Book>, id: BookId): (r: Result<Book>)
    ensures r.Ok? <==> id in books
    ensures id !in books <==> r == Err(NotFound)
    ensures r.Ok? ==> r.value == books[id]
  {
    if id in books then Ok(books[id]) else Err(NotFound)
  }

  // -------------------------------------------------------------- creation

  /** The body of a createBook request. Strings are empty when absent;
      `totalCopies` is None when absent. */
  datatype NewBook = NewBook(
    title: string,
    author: string,
    isbn: string,
    category: string,
    publisher: string,
    totalCopies: Option<int>,
    shelfLocation: string)

  /** A required field is missing or falsy; a `totalCopies` of 0 is falsy. */
  predicate MissingField(req: NewBook) {
    || req.title == "" || req.author == "" || req.isbn == "" || req.category == ""
    || req.publisher == "" || req.shelfLocation == ""
    || req.totalCopies.None? || req.totalCopies == Some(0)
  }

  /** createBook: a new book whose copies are all available. A negative
      `totalCopies` passes the controller's checks and is refused by the
      schema's minimum when saving. */
  method CreateBook(db: Database, req: NewBook, now: Time) returns (r: Result<BookId>)
    requires db.Valid()
    modifies db
    ensures db.Valid()
    ensures db.issues == old(db.issues) && db.users == old(db.users)
    ensures r.Err? ==> unchanged(db)
    ensures MissingField(req) ==> r == Err(Invalid)
    ensures !MissingField(req) ==>
      if IsbnTaken(old(db.books), req.isbn) then r == Err(Duplicate)
      else if req.totalCopies.value < 0 then r == Err(ServerError)
      else
        && r.Ok?
        && r.value !in old(db.books)
        && db.books == old(db.books)[r.value := Book(req.title, req.author, req.isbn, req.category,
                          req.publisher, req.totalCopies.value, req.totalCopies.value, req.shelfLocation, now)]
        && db.books[r.value].availableCopies == db.books[r.value].totalCopies
  {
    if MissingField(req) {
      return Err(Invalid);
    }
    if IsbnTaken(db.books, req.isbn) {
      return Err(Duplicate);
    }
    var copies := req.totalCopies.value;
    var book := Book(req.title, req.author, req.isbn, req.category, req.publisher,
                     copies, copies, req.shelfLocation, now);
    if !SchemaValid(book) {
      return Err(ServerError);
    }
    var id := db.nextBookId;
    db.books := db.books[id := book];
    db.nextBookId := db.nextBookId + 1;
    r := Ok(id);
  }

  // ---------------------------------------------------------------- update

  /** The body of an updateBook request. Empty strings and None mean the
      field was not supplied. */
  datatype BookPatch = BookPatch(
    title: string,
    author: string,
    isbn: string,
    category: string,
    publisher: string,
    totalCopies: Option<int>,
    availableCopies: Option<int>,
    shelfLocation: string)

  function Max(a: int, b: int): int {
    if a < b then b else a
  }

  /** The available copies a patch leaves before the final clamp. The
      adjustment meant to follow a change of `totalCopies` computes its
      difference after the total was overwritten, so the difference is
      always 0 and only `Max(0, ...)` remains of it. */
  function AvailableBeforeClamp(b: Book, p: BookPatch): int {
    if p.availableCopies.Some? then p.availableCopies.value
    else if p.totalCopies.Some? then Max(0, b.availableCopies)
    else b.availableCopies
  }

  /** `nb` carries every supplied string field and total of `p`, and keeps
      `b`'s value for every field that was not supplied. */
  predicate PatchedFields(b: Book, p: BookPatch, nb: Book) {
    && nb.title == (if p.title != "" then p.title else b.title)
    && nb.author == (if p.author != "" then p.author else b.author)
    && nb.isbn == (if p.isbn != "" then p.isbn else b.isbn)
    && nb.category == (if p.category != "" then p.category else b.category)
    && nb.publisher == (if p.publisher != "" then p.publisher else b.publisher)
    && nb.shelfLocation == (if p.shelfLocation != "" then p.shelfLocation else b.shelfLocation)
    && nb.totalCopies == (if p.totalCopies.Some? then p.totalCopies.value else b.totalCopies)
    && nb.createdAt == b.createdAt
  }

  /** Lines 116-135 of updateBook: overwrite the supplied fields of the
      fetched record one by one, then clamp the available copies to the
      total. Every field not supplied keeps its value. */
  method ApplyPatch(b: Book, p: BookPatch) returns (nb: Book)
    ensures PatchedFields(b, p, nb)
    ensures nb.availableCopies <= nb.totalCopies
    ensures nb.availableCopies ==
      if AvailableBeforeClamp(b, p) > nb.totalCopies then nb.totalCopies else AvailableBeforeClamp(b, p)
  {
    nb := PatchDescription(b, p);
    if p.totalCopies.Some? {
      nb := nb.(totalCopies := p.totalCopies.value);
      if p.availableCopies.None? {
        var difference := p.totalCopies.value - nb.totalCopies;
        nb := nb.(availableCopies := Max(0, nb.availableCopies + difference));
      }
    }
    if p.availableCopies.Some? { nb := nb.(availableCopies := p.availableCopies.value); }
    if nb.availableCopies > nb.totalCopies {
      nb := nb.(availableCopies := nb.totalCopies);
    }
  }

  /** The assignments of the descriptive fields (lines 116-120 and 130). */
  method PatchDescription(b: Book, p: BookPatch) returns (nb: Book)
    ensures nb == b.(title := nb.title, author := nb.author, isbn := nb.isbn, category := nb.category,
                     publisher := nb.publisher, shelfLocation := nb.shelfLocation)
    ensures PatchedFields(b, p.(totalCopies := None), nb)
  {
    nb := b;
    if p.title != "" { nb := nb.(title := p.title); }
    if p.author != "" { nb := nb.(author := p.author); }
    if p.isbn != "" { nb := nb.(isbn := p.isbn); }
    if p.category != "" { nb := nb.(category := p.category); }
    if p.publisher != "" { nb := nb.(publisher := p.publisher); }
    if p.shelfLocation != "" { nb := nb.(shelfLocation := p.shelfLocation); }
  }

  /** On a consistent book, a patch that does not supply `availableCopies`
      keeps the available copies unless the clamp lowers them to a smaller
      new total: changing `totalCopies` is not reflected in them. */
  lemma DeltaIsNoOp(b: Book, p: BookPatch)
    requires CopiesConsistent(b) && p.availableCopies.None?
    ensures AvailableBeforeClamp(b, p) == b.availableCopies
  {
  }

  /** The total copies after the patch. */
  function NewTotal(b: Book, p: BookPatch): int {
    if p.totalCopies.Some? then p.totalCopies.value else b.totalCopies
  }

  /** The available copies after the patch: the supplied value, or else the
      old one, lowered to the new total if it exceeds it. */
  function ClampedAvailable(b: Book, p: BookPatch): int {
    var avail := if p.availableCopies.Some? then p.availableCopies.value else b.availableCopies;
    if avail > NewTotal(b, p) then NewTotal(b, p) else avail
  }

  /** What `ApplyPatch` yields on a stored book: the clamped available
      copies, and a record the schema accepts exactly when neither count is
      negative; an accepted record is also consistent. */
  lemma PatchOutcome(b: Book, p: BookPatch, nb: Book)
    requires SchemaValid(b) && CopiesConsistent(b)
    requires PatchedFields(b, p, nb)
    requires nb.availableCopies ==
      if AvailableBeforeClamp(b, p) > nb.totalCopies then nb.totalCopies else AvailableBeforeClamp(b, p)
    ensures nb.totalCopies == NewTotal(b, p)
    ensures nb.availableCopies == ClampedAvailable(b, p)
    ensures SchemaValid(nb) <==> NewTotal(b, p) >= 0 && ClampedAvailable(b, p) >= 0
    ensures SchemaValid(nb) ==> CopiesConsistent(nb)
  {
    if p.availableCopies.None? {
      DeltaIsNoOp(b, p);
    }
  }

  /** updateBook: rejects an ISBN held by another book, applies the patch,
      and saves it if the schema accepts the result. */
  method UpdateBook(db: Database, id: BookId, p: BookPatch) returns (r: Result<Book>)
    requires db.Valid()
    modifies db
    ensures db.Valid()
    ensures db.issues == old(db.issues) && db.users == old(db.users)
    ensures r.Err? ==> unchanged(db)
    ensures id !in old(db.books) ==> r == Err(NotFound)
    ensures id in old(db.books) ==>
      var b := old(db.books)[id];
      if p.isbn != "" && p.isbn != b.isbn && IsbnTaken(old(db.books), p.isbn) then
        r == Err(Duplicate)
      else if NewTotal(b, p) < 0 || ClampedAvailable(b, p) < 0 then
        // the saved record would break the schema's minimum of 0
        r == Err(ServerError)
      else
        && r.Ok?
        && db.books == old(db.books)[id := r.value]
        && PatchedFields(b, p, r.value)
        && r.value.availableCopies == ClampedAvailable(b, p)
        && 0 <= r.value.availableCopies <= r.value.totalCopies
  {
    if id !in db.books {
      return Err(NotFound);
    }
    var book := db.books[id];
    if p.isbn != "" && p.isbn != book.isbn {
      if IsbnTaken(db.books, p.isbn) {
        return Err(Duplicate);
      }
    }
    book := ApplyPatch(book, p);
    PatchOutcome(db.books[id], p, book);
    if !SchemaValid(book) {
      // `save` fails the schema's minimum of 0.
      return Err(ServerError);
    }
    ReplaceBookKeepsValid(db.books, id, book);
    db.books := db.books[id := book];
    r := Ok(book);
  }

  // -------------------------------------------------------------- deletion

  /** deleteBook: removes the book whatever issues still refer to it. */
  method DeleteBook(db: Database, id: BookId) returns (r: Outcome)
    requires db.Valid()
    modifies db
    ensures db.Valid()
    ensures db.issues == old(db.issues) && db.users == old(db.users)
    ensures id !in old(db.books) ==> r == Fail(NotFound) && unchanged(db)
    ensures id in old(db.books) ==> r == Done && db.books == old(db.books) - {id}
  {
    if id !in db.books {
      return Fail(NotFound);
    }
    db.books := db.books - {id};
    r := Done;
  }
}
