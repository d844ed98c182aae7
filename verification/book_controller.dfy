/**
 The book handlers: create a book (summarising its PDF when one was uploaded), list the
 caller's books, fetch one, delete one. Every lookup is scoped by the caller's id, so a
 book that does not exist and a book of another user both answer `NotFound`.
 */
module BookController {
  import opened Wrappers
  import opened Summarizer
  import opened Store
  import Query

  /** The request-body fields `createBook` reads. */
  datatype BookInput = BookInput(title: Option<string>, author: Option<string>, description: Option<string>)

  /** The 201 body of `createBook`: the stored book and its summary (null without a PDF). */
  datatype Created = Created(book: Book, summary: Option<Summary>)

  /** The text handed to the summariser: `rawText || description || title`. */
  function SummarySource(rawText: string, description: Option<string>, title: string): (s: string)
    ensures rawText != "" ==> s == rawText
    ensures rawText == "" && Truthy(description) ==> s == description.value
    ensures rawText == "" && !Truthy(description) ==> s == title
  {
    Or(Some(rawText), Or(description, title))
  }

  /** `db'` is `db` with exactly one book added, under the next book id, owned by `caller`, holding the given fields. */
  ghost predicate AddsOneBook(db: Db, db': Db, caller: UserId, title: string, input: BookInput, pdfPath: Option<string>) {
    var id := db.nextBookId;
    && id in db'.books
    && db'.books[id].id == id
    && db'.books[id].ownerId == caller
    && db'.books[id].title == title
    && db'.books[id].author == input.author
    && db'.books[id].description == input.description
    && db'.books[id].pdfPath == pdfPath
    && db'.books[id].createdAt == db.clock
    && (forall k :: k != id ==> (k in db'.books <==> k in db.books))
    && (forall k :: k != id && k in db.books ==> db'.books[k] == db.books[k])
  }

  /**
   `createBook`. `extract` stands for the PDF text extractor: `None` when it throws.
   The book is persisted before extraction, so an extraction failure leaves it stored
   and answers `Error` without a summary.
   */
  function CreateBook(db: Db, caller: UserId, input: BookInput, pdfPath: Option<string>,
                      extract: string -> Option<string>): (r: Step<Created>)
    ensures !Truthy(input.title) ==> r == Step(db, BadRequest)
    ensures Truthy(input.title) ==> AddsOneBook(db, r.db, caller, input.title.value, input, pdfPath)
    ensures r.db.notes == db.notes
    ensures Truthy(input.title) && !Truthy(pdfPath) ==>
      && r.response == Ok(Created(r.db.books[db.nextBookId], None))
      && r.db.summaries == db.summaries
    ensures Truthy(input.title) && Truthy(pdfPath) && extract(pdfPath.value).None? ==>
      && r.response == Error
      && r.db.summaries == db.summaries
    ensures Truthy(input.title) && Truthy(pdfPath) && extract(pdfPath.value).Some? ==>
      && r.response.Ok?
      && r.response.value.book == r.db.books[db.nextBookId]
      && r.response.value.summary.Some?
      && var s := r.response.value.summary.value;
      && s.id == db.nextSummaryId
      && s.bookId == db.nextBookId
      && s.createdById == caller
      && s.content == Summarize(SummarySource(extract(pdfPath.value).value, input.description, input.title.value))
      && s.highlights == Highlight(s.content)
      && r.db.summaries == db.summaries[s.id := s]
  {
    if !Truthy(input.title) then Step(db, BadRequest)
    else
      var (db1, book) := InsertBook(db, input.title.value, input.author, input.description, pdfPath, caller);
      if !Truthy(pdfPath) then Step(db1, Ok(Created(book, None)))
      else
        match extract(pdfPath.value)
        case None => Step(db1, Error)
        case Some(rawText) =>
          var content := Summarize(SummarySource(rawText, input.description, book.title));
          var (db2, summary) := InsertSummary(db1, content, book.id, caller);
          Step(db2, Ok(Created(book, Some(summary))))
  }

  /** `getBooks`: the caller's books, newest first. */
  function GetBooks(db: Db, caller: UserId): (r: Step<seq<Book>>)
    ensures r.db == db && r.response.Ok?
    ensures forall i :: 0 <= i < |r.response.value| ==>
      r.response.value[i] in db.books.Values && r.response.value[i].ownerId == caller
    ensures forall i, j :: 0 <= i < j < |r.response.value| ==>
      r.response.value[i].createdAt >= r.response.value[j].createdAt
    ensures Valid(db) ==> forall k :: OwnsBook(db, caller, k) ==> db.books[k] in r.response.value
    ensures Valid(db) ==> forall i, j :: 0 <= i < j < |r.response.value| ==>
      r.response.value[i].createdAt > r.response.value[j].createdAt
  {
    var stamp := (b: Book) => b.createdAt;
    var books := Query.FindNewest(db.books, (b: Book) => b.ownerId == caller, stamp, db.nextBookId);
    assert Valid(db) ==> Query.StampsDistinct(db.books, stamp);
    Step(db, Ok(books))
  }

  /** `getBookById`. */
  function GetBookById(db: Db, caller: UserId, id: Id): (r: Step<Book>)
    ensures r.db == db
    ensures r.response.Ok? <==> OwnsBook(db, caller, id)
    ensures r.response.Ok? ==> r.response.value == db.books[id] && r.response.value.ownerId == caller
    ensures r.response.Ok? || r.response == NotFound
  {
    if OwnsBook(db, caller, id) then Step(db, Ok(db.books[id])) else Step(db, NotFound)
  }

  /** `deleteBook`: removes the book record only; its summary is not touched. */
  function DeleteBook(db: Db, caller: UserId, id: Id): (r: Step<()>)
    ensures !OwnsBook(db, caller, id) ==> r == Step(db, NotFound)
    ensures OwnsBook(db, caller, id) ==>
      && r.response == Ok(())
      && r.db.books.Keys == db.books.Keys - {id}
      && (forall k :: k in r.db.books ==> r.db.books[k] == db.books[k])
      && r.db == db.(books := r.db.books)
  {
    if !OwnsBook(db, caller, id) then Step(db, NotFound)
    else Step(db.(books := db.books - {id}), Ok(()))
  }

  // ---- Properties ----

  /** The books of `caller`, as a table of their own. */
  function BooksOf(db: Db, caller: UserId): (m: map<Id, Book>)
    ensures forall k :: k in m <==> OwnsBook(db, caller, k)
  {
    map k | k in db.books && db.books[k].ownerId == caller :: db.books[k]
  }

  /**
   A book lookup cannot tell "absent" from "someone else's": the answers of `getBookById`
   and `deleteBook` depend only on the caller's own books.
   */
  lemma LookupSeesOnlyOwnBooks(db1: Db, db2: Db, caller: UserId, id: Id)
    requires BooksOf(db1, caller) == BooksOf(db2, caller)
    ensures GetBookById(db1, caller, id).response == GetBookById(db2, caller, id).response
    ensures DeleteBook(db1, caller, id).response == DeleteBook(db2, caller, id).response
  {
    assert OwnsBook(db1, caller, id) <==> id in BooksOf(db1, caller);
    assert OwnsBook(db2, caller, id) <==> id in BooksOf(db2, caller);
    if OwnsBook(db1, caller, id) {
      assert db1.books[id] == BooksOf(db1, caller)[id];
      assert db2.books[id] == BooksOf(db2, caller)[id];
    }
  }

  /** A summary exists for the new book exactly when a PDF was uploaded and its text was extracted. */
  lemma CreateBookSummaryIff(db: Db, caller: UserId, input: BookInput, pdfPath: Option<string>,
                             extract: string -> Option<string>)
    requires Valid(db) && Truthy(input.title)
    ensures var r := CreateBook(db, caller, input, pdfPath, extract);
      (exists k :: k in r.db.summaries && r.db.summaries[k].bookId == db.nextBookId)
      <==> Truthy(pdfPath) && extract(pdfPath.value).Some?
  {
    var r := CreateBook(db, caller, input, pdfPath, extract);
    if Truthy(pdfPath) && extract(pdfPath.value).Some? {
      var s := r.response.value.summary.value;
      assert s.id in r.db.summaries && r.db.summaries[s.id].bookId == db.nextBookId;
    } else {
      assert r.db.summaries == db.summaries;
      forall k | k in r.db.summaries ensures r.db.summaries[k].bookId != db.nextBookId {
        assert r.db.summaries[k].bookId < db.nextBookId;
      }
    }
  }

  /** In a `Valid` state `createBook` adds exactly one book, and one summary exactly when extraction succeeds. */
  lemma CreateBookGrows(db: Db, caller: UserId, input: BookInput, pdfPath: Option<string>,
                        extract: string -> Option<string>)
    requires Valid(db) && Truthy(input.title)
    ensures var r := CreateBook(db, caller, input, pdfPath, extract);
      && |r.db.books| == |db.books| + 1
      && |r.db.summaries| == |db.summaries| + (if Truthy(pdfPath) && extract(pdfPath.value).Some? then 1 else 0)
  {
    ValidNextIdsUnused(db);
    var (db1, book) := InsertBook(db, input.title.value, input.author, input.description, pdfPath, caller);
    InsertBookGrows(db, input.title.value, input.author, input.description, pdfPath, caller);
    if Truthy(pdfPath) && extract(pdfPath.value).Some? {
      var content := Summarize(SummarySource(extract(pdfPath.value).value, input.description, book.title));
      InsertSummaryGrows(db1, content, book.id, caller);
    }
  }

  lemma CreateBookValid(db: Db, caller: UserId, input: BookInput, pdfPath: Option<string>,
                        extract: string -> Option<string>)
    requires Valid(db)
    ensures Valid(CreateBook(db, caller, input, pdfPath, extract).db)
  {
    if Truthy(input.title) {
      var (db1, book) := InsertBook(db, input.title.value, input.author, input.description, pdfPath, caller);
      InsertBookValid(db, input.title.value, input.author, input.description, pdfPath, caller);
      if Truthy(pdfPath) && extract(pdfPath.value).Some? {
        var content := Summarize(SummarySource(extract(pdfPath.value).value, input.description, book.title));
        forall k | k in db1.summaries ensures db1.summaries[k].bookId != book.id {
          assert db1.summaries[k].bookId < db.nextBookId;
        }
        InsertSummaryValid(db1, content, book.id, caller);
      }
    }
  }

  lemma DeleteBookValid(db: Db, caller: UserId, id: Id)
    requires Valid(db)
    ensures Valid(DeleteBook(db, caller, id).db)
  {
  }

  /** Deleting a book just created without a PDF gives back the original table of books. */
  lemma DeleteUndoesCreate(db: Db, caller: UserId, input: BookInput, extract: string -> Option<string>)
    requires Valid(db) && Truthy(input.title)
    ensures var r := CreateBook(db, caller, input, None, extract);
      && r.response.Ok?
      && var d := DeleteBook(r.db, caller, r.response.value.book.id);
      && d.response == Ok(())
      && d.db.books == db.books
      && d.db.summaries == db.summaries && d.db.notes == db.notes
  {
    var r := CreateBook(db, caller, input, None, extract);
    var id := db.nextBookId;
    assert id !in db.books;
    var d := DeleteBook(r.db, caller, id);
    assert d.db.books == db.books;
  }
}
