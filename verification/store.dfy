/**
 The persisted state the controllers read and write: books, summaries and notes keyed by
 auto-incremented integer ids, each stamped with a creation time from a clock that only
 moves forward. Every request is answered with the new state and one of four outcomes.
 */
module Store {
  import opened Wrappers

  /** A record id as the controllers pass it to the database (the route parameter after `Number`). */
  type Id = int
  /** The authenticated caller, `req.user.id`. */
  type UserId = int

  /** Highlights are the first 180 characters of a summary's content. */
  const HighlightLength: nat := 180

  datatype Book = Book(
    id: Id,
    title: string,
    author: Option<string>,
    description: Option<string>,
    pdfPath: Option<string>,
    ownerId: UserId,
    createdAt: nat)

  datatype Summary = Summary(
    id: Id,
    content: string,
    highlights: string,
    bookId: Id,
    createdById: UserId,
    createdAt: nat)

  datatype Note = Note(
    id: Id,
    content: string,
    summaryId: Id,
    userId: UserId,
    createdAt: nat)

  datatype Db = Db(
    books: map<Id, Book>,
    summaries: map<Id, Summary>,
    notes: map<Id, Note>,
    nextBookId: nat,
    nextSummaryId: nat,
    nextNoteId: nat,
    clock: nat)

  /** What a handler answers: success with a payload, or the 400, 404 and 500 responses. */
  datatype Response<+T> = Ok(value: T) | BadRequest | NotFound | Error

  /** The state after a request together with its response. */
  datatype Step<+T> = Step(db: Db, response: Response<T>)

  /** JavaScript truthiness of an optional string: present and non-empty. */
  predicate Truthy(s: Option<string>) {
    s.Some? && s.value != ""
  }

  /** `a || b` for an optional string `a` and a string `b`. */
  function Or(a: Option<string>, b: string): (r: string)
    ensures Truthy(a) ==> r == a.value
    ensures !Truthy(a) ==> r == b
  {
    if Truthy(a) then a.value else b
  }

  /** `content.slice(0, 180)`. */
  function Highlight(content: string): (h: string)
    ensures |h| == if |content| < HighlightLength then |content| else HighlightLength
    ensures h == content[..|h|]
  {
    if |content| <= HighlightLength then content else content[..HighlightLength]
  }

  // ---- The database invariant ----

  ghost predicate BooksKeyed(db: Db) {
    forall k :: k in db.books ==>
      0 <= k < db.nextBookId && db.books[k].id == k && db.books[k].createdAt < db.clock
  }

  ghost predicate SummariesKeyed(db: Db) {
    forall k :: k in db.summaries ==>
      0 <= k < db.nextSummaryId && db.summaries[k].id == k && db.summaries[k].createdAt < db.clock
  }

  ghost predicate NotesKeyed(db: Db) {
    forall k :: k in db.notes ==>
      0 <= k < db.nextNoteId && db.notes[k].id == k && db.notes[k].createdAt < db.clock
  }

  /** No two records of one table were created at the same instant. */
  ghost predicate StampsUnique(db: Db) {
    && (forall a, b :: a in db.books && b in db.books && a != b ==> db.books[a].createdAt != db.books[b].createdAt)
    && (forall a, b :: a in db.summaries && b in db.summaries && a != b ==> db.summaries[a].createdAt != db.summaries[b].createdAt)
    && (forall a, b :: a in db.notes && b in db.notes && a != b ==> db.notes[a].createdAt != db.notes[b].createdAt)
  }

  /** At most one summary per book (the unique `bookId` the upsert relies on). */
  ghost predicate OneSummaryPerBook(db: Db) {
    forall a, b :: a in db.summaries && b in db.summaries && a != b ==> db.summaries[a].bookId != db.summaries[b].bookId
  }

  /**
   Every summary refers to a book id already handed out, carries the highlights of its
   content, and, while its book exists, was created by the book's owner.
   */
  ghost predicate SummariesCoherent(db: Db) {
    forall k :: k in db.summaries ==>
      var s := db.summaries[k];
      && s.bookId < db.nextBookId
      && s.highlights == Highlight(s.content)
      && (s.bookId in db.books ==> db.books[s.bookId].ownerId == s.createdById)
  }

  ghost predicate Valid(db: Db) {
    && BooksKeyed(db) && SummariesKeyed(db) && NotesKeyed(db)
    && StampsUnique(db) && OneSummaryPerBook(db) && SummariesCoherent(db)
  }

  /** The empty database satisfies the invariant. */
  lemma EmptyValid()
    ensures Valid(Db(map[], map[], map[], 0, 0, 0, 0))
  {
  }

  // ---- Lookups scoped by the caller ----

  /** `book.findFirst({ where: { id, ownerId: caller } })` finds a record. */
  predicate OwnsBook(db: Db, caller: UserId, id: Id) {
    id in db.books && db.books[id].ownerId == caller
  }

  /** `summary.findFirst({ where: { id, book: { ownerId: caller } } })` finds a record. */
  predicate OwnsSummaryBook(db: Db, caller: UserId, id: Id) {
    id in db.summaries && OwnsBook(db, caller, db.summaries[id].bookId)
  }

  /** `note.findFirst({ where: { id, userId: caller } })` finds a record. */
  predicate AuthoredNote(db: Db, caller: UserId, id: Id) {
    id in db.notes && db.notes[id].userId == caller
  }

  // ---- Record creation: the next id of the table and the current time ----

  /** `book.create`. */
  function InsertBook(db: Db, title: string, author: Option<string>, description: Option<string>,
                      pdfPath: Option<string>, owner: UserId): (r: (Db, Book))
    ensures var (db', b) := r;
      && b == Book(db.nextBookId, title, author, description, pdfPath, owner, db.clock)
      && db'.books == db.books[b.id := b]
      && db'.summaries == db.summaries && db'.notes == db.notes
      && db'.nextBookId == db.nextBookId + 1 && db'.clock == db.clock + 1
      && db'.nextSummaryId == db.nextSummaryId && db'.nextNoteId == db.nextNoteId
  {
    var b := Book(db.nextBookId, title, author, description, pdfPath, owner, db.clock);
    (db.(books := db.books[b.id := b], nextBookId := db.nextBookId + 1, clock := db.clock + 1), b)
  }

  /** `summary.create`, with the highlights derived from the content. */
  function InsertSummary(db: Db, content: string, bookId: Id, createdBy: UserId): (r: (Db, Summary))
    ensures var (db', s) := r;
      && s == Summary(db.nextSummaryId, content, Highlight(content), bookId, createdBy, db.clock)
      && db'.summaries == db.summaries[s.id := s]
      && db'.books == db.books && db'.notes == db.notes
      && db'.nextSummaryId == db.nextSummaryId + 1 && db'.clock == db.clock + 1
      && db'.nextBookId == db.nextBookId && db'.nextNoteId == db.nextNoteId
  {
    var s := Summary(db.nextSummaryId, content, Highlight(content), bookId, createdBy, db.clock);
    (db.(summaries := db.summaries[s.id := s], nextSummaryId := db.nextSummaryId + 1, clock := db.clock + 1), s)
  }

  /** `note.create`. */
  function InsertNote(db: Db, content: string, summaryId: Id, userId: UserId): (r: (Db, Note))
    ensures var (db', n) := r;
      && n == Note(db.nextNoteId, content, summaryId, userId, db.clock)
      && db'.notes == db.notes[n.id := n]
      && db'.books == db.books && db'.summaries == db.summaries
      && db'.nextNoteId == db.nextNoteId + 1 && db'.clock == db.clock + 1
      && db'.nextBookId == db.nextBookId && db'.nextSummaryId == db.nextSummaryId
  {
    var n := Note(db.nextNoteId, content, summaryId, userId, db.clock);
    (db.(notes := db.notes[n.id := n], nextNoteId := db.nextNoteId + 1, clock := db.clock + 1), n)
  }

  // ---- Map facts ----

  lemma MapAddRemove<V>(m: map<Id, V>, k: Id, v: V)
    requires k !in m
    ensures m[k := v] - {k} == m
  {
    var m' := m[k := v] - {k};
    assert m'.Keys == m.Keys;
    assert forall j :: j in m' ==> m'[j] == m[j];
  }

  lemma MapUpdateSame<V>(m: map<Id, V>, k: Id)
    requires k in m
    ensures m[k := m[k]] == m
  {
    var m' := m[k := m[k]];
    assert m'.Keys == m.Keys;
    assert forall j :: j in m' ==> m'[j] == m[j];
  }

  // ---- Record creation keeps the invariant ----

  lemma InsertBookValid(db: Db, title: string, author: Option<string>, description: Option<string>,
                        pdfPath: Option<string>, owner: UserId)
    requires Valid(db)
    ensures Valid(InsertBook(db, title, author, description, pdfPath, owner).0)
  {
    var (db', b) := InsertBook(db, title, author, description, pdfPath, owner);
    assert b.id !in db.books;
    forall k | k in db'.summaries && db'.summaries[k].bookId in db'.books
      ensures db'.books[db'.summaries[k].bookId].ownerId == db'.summaries[k].createdById
    {
      assert db'.summaries[k].bookId != b.id;
    }
  }

  /** A new summary keeps the invariant when its book has none yet and it is created by the book's owner. */
  lemma InsertSummaryValid(db: Db, content: string, bookId: Id, createdBy: UserId)
    requires Valid(db)
    requires bookId < db.nextBookId
    requires forall k :: k in db.summaries ==> db.summaries[k].bookId != bookId
    requires bookId in db.books ==> db.books[bookId].ownerId == createdBy
    ensures Valid(InsertSummary(db, content, bookId, createdBy).0)
  {
    var (db', s) := InsertSummary(db, content, bookId, createdBy);
    assert s.id !in db.summaries;
  }

  lemma InsertNoteValid(db: Db, content: string, summaryId: Id, userId: UserId)
    requires Valid(db)
    ensures Valid(InsertNote(db, content, summaryId, userId).0)
  {
    var (db', n) := InsertNote(db, content, summaryId, userId);
    assert n.id !in db.notes;
  }

  // ---- Creation adds a record ----

  /** In a `Valid` state no record sits under a table's next id. */
  lemma ValidNextIdsUnused(db: Db)
    requires Valid(db)
    ensures db.nextBookId !in db.books && db.nextSummaryId !in db.summaries && db.nextNoteId !in db.notes
  {
  }

  /** `book.create` under an unused id adds a book rather than replacing one. */
  lemma InsertBookGrows(db: Db, title: string, author: Option<string>, description: Option<string>,
                        pdfPath: Option<string>, owner: UserId)
    requires db.nextBookId !in db.books
    ensures |InsertBook(db, title, author, description, pdfPath, owner).0.books| == |db.books| + 1
  {
  }

  /** `summary.create` under an unused id adds a summary rather than replacing one. */
  lemma InsertSummaryGrows(db: Db, content: string, bookId: Id, createdBy: UserId)
    requires db.nextSummaryId !in db.summaries
    ensures |InsertSummary(db, content, bookId, createdBy).0.summaries| == |db.summaries| + 1
  {
  }

  /** `note.create` under an unused id adds a note rather than replacing one. */
  lemma InsertNoteGrows(db: Db, content: string, summaryId: Id, userId: UserId)
    requires db.nextNoteId !in db.notes
    ensures |InsertNote(db, content, summaryId, userId).0.notes| == |db.notes| + 1
  {
  }
}
