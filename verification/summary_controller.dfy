/**
 The summary handlers: list the summaries the caller created, fetch one, and regenerate the
 summary of one of the caller's books from its description (or title) and optional notes,
 updating the book's summary in place when it has one and creating it otherwise.
 */
module SummaryController {
  import opened Wrappers
  import opened Whitespace
  import opened Summarizer
  import opened Store
  import Query

  /** `getSummaries`: the summaries the caller created, newest first. */
  function GetSummaries(db: Db, caller: UserId): (r: Step<seq<Summary>>)
    ensures r.db == db && r.response.Ok?
    ensures forall i :: 0 <= i < |r.response.value| ==>
      r.response.value[i] in db.summaries.Values && r.response.value[i].createdById == caller
    ensures forall i, j :: 0 <= i < j < |r.response.value| ==>
      r.response.value[i].createdAt >= r.response.value[j].createdAt
    ensures Valid(db) ==> forall k :: k in db.summaries && db.summaries[k].createdById == caller ==>
      db.summaries[k] in r.response.value
    ensures Valid(db) ==> forall i, j :: 0 <= i < j < |r.response.value| ==>
      r.response.value[i].createdAt > r.response.value[j].createdAt
  {
    var stamp := (s: Summary) => s.createdAt;
    var summaries := Query.FindNewest(db.summaries, (s: Summary) => s.createdById == caller, stamp, db.nextSummaryId);
    assert Valid(db) ==> Query.StampsDistinct(db.summaries, stamp);
    Step(db, Ok(summaries))
  }

  /** `summary.findFirst({ where: { id, createdById: caller } })` finds a record. */
  predicate CreatedSummary(db: Db, caller: UserId, id: Id) {
    id in db.summaries && db.summaries[id].createdById == caller
  }

  /** `getSummaryById`. */
  function GetSummaryById(db: Db, caller: UserId, id: Id): (r: Step<Summary>)
    ensures r.db == db
    ensures r.response.Ok? <==> CreatedSummary(db, caller, id)
    ensures r.response.Ok? ==> r.response.value == db.summaries[id] && r.response.value.createdById == caller
    ensures r.response.Ok? || r.response == NotFound
  {
    if CreatedSummary(db, caller, id) then Step(db, Ok(db.summaries[id])) else Step(db, NotFound)
  }

  /**
   The text the regenerated summary is made from: `` `${description || title} ${notes || ""}`.trim() ``.
   It has no white space at either end, keeps every other character of its two parts in order,
   and its words are the words of the first part followed by the words of the second. Two
   parts without white space at their ends are joined by exactly one blank; a blank part
   leaves just the other one, trimmed. White space inside the text is kept as it is.
   */
  function RegenerationInput(book: Book, notes: Option<string>): (s: string)
    ensures Bare(s)
    ensures NonSpace(s) == NonSpace(Or(book.description, book.title)) + NonSpace(Or(notes, ""))
    ensures Words(s) == Words(Or(book.description, book.title)) + Words(Or(notes, ""))
    ensures var base, extra := Or(book.description, book.title), Or(notes, "");
      Bare(base) && Bare(extra) && base != "" && extra != "" ==> s == base + " " + extra
    ensures AllSpace(Or(notes, "")) ==> s == Trim(Or(book.description, book.title))
    ensures AllSpace(Or(book.description, book.title)) ==> s == Trim(Or(notes, ""))
  {
    var base, extra := Or(book.description, book.title), Or(notes, "");
    NonSpaceJoined(base, extra);
    WordsJoined(base, extra);
    JoinedParts(base, extra);
    Trim(base + " " + extra)
  }

  /** The exact joined text when both parts are bare and non-empty, or when one part is blank. */
  lemma JoinedParts(a: string, b: string)
    ensures Bare(a) && Bare(b) && a != "" && b != "" ==> Trim(a + " " + b) == a + " " + b
    ensures AllSpace(b) ==> Trim(a + " " + b) == Trim(a)
    ensures AllSpace(a) ==> Trim(a + " " + b) == Trim(b)
  {
    if Bare(a) && Bare(b) && a != "" && b != "" {
      var j := a + " " + b;
      assert j[0] == a[0] && j[|j| - 1] == b[|b| - 1];
      TrimFixesBare(j);
    }
    if AllSpace(b) {
      assert AllSpace(" " + b) by {
        assert AllSpace(" ");
        AllSpaceConcat(" ", b);
      }
      assert a + " " + b == "" + a + (" " + b);
      TrimIgnoresPadding("", a, " " + b);
    }
    if AllSpace(a) {
      assert AllSpace(a + " ") by {
        assert AllSpace(" ");
        AllSpaceConcat(a, " ");
      }
      assert a + " " + b == (a + " ") + b + "";
      TrimIgnoresPadding(a + " ", b, "");
    }
  }

  /** The blank between the two parts keeps their words apart, and trimming changes no word. */
  lemma WordsJoined(a: string, b: string)
    ensures Words(Trim(a + " " + b)) == Words(a) + Words(b)
  {
    assert a + " " + b == a + [' '] + b;
    WordsTrim(a + " " + b);
    WordsSpaced(a, ' ', b);
  }

  lemma NonSpaceJoined(a: string, b: string)
    ensures NonSpace(Trim(a + " " + b)) == NonSpace(a) + NonSpace(b)
  {
    var a' := a + " ";
    NonSpaceTrim(a' + b);
    NonSpaceConcat(a', b);
    NonSpaceConcat(a, " ");
    NonSpaceEmpty(" ");
    assert NonSpace(a') == NonSpace(a) + "";
    assert NonSpace(a) + "" == NonSpace(a);
  }

  /** The summary regeneration writes for a book, before the upsert decides its identity. */
  function Regenerated(book: Book, notes: Option<string>): string {
    Summarize(RegenerationInput(book, notes))
  }

  /** Some summary refers to the book. */
  ghost predicate HasSummary(db: Db, bookId: Id) {
    exists k :: k in db.summaries && db.summaries[k].bookId == bookId
  }

  /** The key `summary.upsert({ where: { bookId } })` finds, if any. */
  function SummaryOf(db: Db, bookId: Id): (r: Option<Id>)
    ensures r.Some? ==> r.value in db.summaries && db.summaries[r.value].bookId == bookId
    ensures r.None? && Valid(db) ==> forall k :: k in db.summaries ==> db.summaries[k].bookId != bookId
  {
    var found := Query.Select(db.summaries, (s: Summary) => s.bookId == bookId, db.nextSummaryId);
    if |found| > 0 then Some(found[0]) else None
  }

  /** The `update` half of the upsert: new content and highlights, nothing else. */
  function Rewrite(db: Db, k: Id, content: string): (r: (Db, Summary))
    requires k in db.summaries
    ensures var (db', s) := r;
      && s.id == db.summaries[k].id && s.bookId == db.summaries[k].bookId
      && s.createdById == db.summaries[k].createdById && s.createdAt == db.summaries[k].createdAt
      && s.content == content && s.highlights == Highlight(content)
      && db'.summaries == db.summaries[k := s]
      && db' == db.(summaries := db'.summaries)
  {
    var s := db.summaries[k].(content := content, highlights := Highlight(content));
    (db.(summaries := db.summaries[k := s]), s)
  }

  /**
   `summary.upsert` keyed on the summary's unique `bookId`: an existing summary keeps its
   id, creator and creation time and only gets the new content and highlights; otherwise
   a summary is created on behalf of `caller`.
   */
  function Upsert(db: Db, caller: UserId, bookId: Id, content: string): (r: (Db, Summary))
    ensures var (db', s) := r;
      && s.bookId == bookId && s.content == content && s.highlights == Highlight(content)
      && db'.books == db.books && db'.notes == db.notes
      && db'.nextBookId == db.nextBookId && db'.nextNoteId == db.nextNoteId
    ensures var (db', s) := r;
      Valid(db) ==> db'.summaries == db.summaries[s.id := s]
    ensures var (db', s) := r;
      Valid(db) && HasSummary(db, bookId) ==>
        && s.id in db.summaries
        && db.summaries[s.id].bookId == bookId
        && s.createdById == db.summaries[s.id].createdById
        && s.createdAt == db.summaries[s.id].createdAt
        && db'.nextSummaryId == db.nextSummaryId
    ensures var (db', s) := r;
      Valid(db) && !HasSummary(db, bookId) ==>
        && s.id !in db.summaries
        && s.id == db.nextSummaryId
        && s.createdById == caller
  {
    match SummaryOf(db, bookId)
    case Some(k) => Rewrite(db, k, content)
    case None => InsertSummary(db, content, bookId, caller)
  }

  /** `regenerateSummary`: summarises the book's text again and upserts the result. */
  function RegenerateSummary(db: Db, caller: UserId, bookId: Id, notes: Option<string>): (r: Step<Summary>)
    ensures !OwnsBook(db, caller, bookId) ==> r == Step(db, NotFound)
    ensures OwnsBook(db, caller, bookId) ==>
      && r.response.Ok?
      && r.response.value.bookId == bookId
      && r.response.value.content == Regenerated(db.books[bookId], notes)
      && r.response.value.highlights == Highlight(r.response.value.content)
      && r.db.books == db.books && r.db.notes == db.notes
      && (r.db, r.response.value) == Upsert(db, caller, bookId, r.response.value.content)
  {
    if !OwnsBook(db, caller, bookId) then Step(db, NotFound)
    else
      var (db', s) := Upsert(db, caller, bookId, Regenerated(db.books[bookId], notes));
      Step(db', Ok(s))
  }

  // ---- Properties ----

  /** After an upsert the book has exactly one summary: the one returned. */
  lemma UpsertLeavesOneSummary(db: Db, caller: UserId, bookId: Id, content: string)
    requires Valid(db)
    ensures var (db', s) := Upsert(db, caller, bookId, content);
      forall k :: k in db'.summaries && db'.summaries[k].bookId == bookId <==> k == s.id
  {
    var (db', s) := Upsert(db, caller, bookId, content);
    forall k | k in db'.summaries && k != s.id ensures db'.summaries[k].bookId != bookId {
      assert db'.summaries[k] == db.summaries[k];
      if HasSummary(db, bookId) {
        assert db.summaries[s.id].bookId == bookId;
      }
    }
  }

  /** An upsert of the caller's own book keeps the database invariant. */
  lemma UpsertValid(db: Db, caller: UserId, bookId: Id, content: string)
    requires Valid(db) && OwnsBook(db, caller, bookId)
    ensures Valid(Upsert(db, caller, bookId, content).0)
  {
    var (db', s) := Upsert(db, caller, bookId, content);
    if HasSummary(db, bookId) {
      assert db'.summaries == db.summaries[s.id := s];
    } else {
      InsertSummaryValid(db, content, bookId, caller);
    }
  }

  /** Upserting the same content twice leaves the database as the first upsert did. */
  lemma UpsertIdempotent(db: Db, caller: UserId, bookId: Id, content: string)
    requires Valid(db) && OwnsBook(db, caller, bookId)
    ensures var (db1, s1) := Upsert(db, caller, bookId, content);
      Upsert(db1, caller, bookId, content) == (db1, s1)
  {
    var (db1, s1) := Upsert(db, caller, bookId, content);
    UpsertValid(db, caller, bookId, content);
    assert db1.summaries[s1.id] == s1;
    assert HasSummary(db1, bookId);
    UpsertLeavesOneSummary(db, caller, bookId, content);
    var (db2, s2) := Upsert(db1, caller, bookId, content);
    assert s2.id == s1.id;
    assert s2 == s1;
    assert db2.summaries == db1.summaries;
  }

  /** An existing summary is regenerated in place: its identity survives, only its text changes. */
  lemma RegenerateUpdatesInPlace(db: Db, caller: UserId, bookId: Id, notes: Option<string>, k: Id)
    requires Valid(db) && OwnsBook(db, caller, bookId)
    requires k in db.summaries && db.summaries[k].bookId == bookId
    ensures var r := RegenerateSummary(db, caller, bookId, notes);
      r.response.value == db.summaries[k].(content := r.response.value.content, highlights := r.response.value.highlights)
  {
    var s := RegenerateSummary(db, caller, bookId, notes).response.value;
    assert HasSummary(db, bookId);
    assert s.id == k;
  }

  /** After regenerating, the book has exactly one summary: the one answered. */
  lemma RegenerateLeavesOneSummary(db: Db, caller: UserId, bookId: Id, notes: Option<string>)
    requires Valid(db) && OwnsBook(db, caller, bookId)
    ensures var r := RegenerateSummary(db, caller, bookId, notes);
      forall k :: k in r.db.summaries && r.db.summaries[k].bookId == bookId <==> k == r.response.value.id
  {
    UpsertLeavesOneSummary(db, caller, bookId, Regenerated(db.books[bookId], notes));
  }

  /** Regenerating twice with the same notes gives the same state and answer as regenerating once. */
  lemma RegenerateIdempotent(db: Db, caller: UserId, bookId: Id, notes: Option<string>)
    requires Valid(db) && OwnsBook(db, caller, bookId)
    ensures var r1 := RegenerateSummary(db, caller, bookId, notes);
      RegenerateSummary(r1.db, caller, bookId, notes) == r1
  {
    var content := Regenerated(db.books[bookId], notes);
    UpsertIdempotent(db, caller, bookId, content);
  }

  lemma RegenerateValid(db: Db, caller: UserId, bookId: Id, notes: Option<string>)
    requires Valid(db)
    ensures Valid(RegenerateSummary(db, caller, bookId, notes).db)
  {
    if OwnsBook(db, caller, bookId) {
      UpsertValid(db, caller, bookId, Regenerated(db.books[bookId], notes));
    }
  }

  /** The summaries `caller` created, as a table of their own. */
  function SummariesOf(db: Db, caller: UserId): (m: map<Id, Summary>)
    ensures forall k :: k in m <==> CreatedSummary(db, caller, k)
  {
    map k | k in db.summaries && db.summaries[k].createdById == caller :: db.summaries[k]
  }

  /** `getSummaryById` answers from the caller's own summaries alone. */
  lemma LookupSeesOnlyOwnSummaries(db1: Db, db2: Db, caller: UserId, id: Id)
    requires SummariesOf(db1, caller) == SummariesOf(db2, caller)
    ensures GetSummaryById(db1, caller, id).response == GetSummaryById(db2, caller, id).response
  {
    assert CreatedSummary(db1, caller, id) <==> id in SummariesOf(db1, caller);
    assert CreatedSummary(db2, caller, id) <==> id in SummariesOf(db2, caller);
    if CreatedSummary(db1, caller, id) {
      assert db1.summaries[id] == SummariesOf(db1, caller)[id];
      assert db2.summaries[id] == SummariesOf(db2, caller)[id];
    }
  }
}
