/**
 The note handlers: add a note to a summary of one of the caller's books, list a summary's
 notes, and edit or delete one of the caller's own notes. Note text is stored trimmed, and
 text that is missing or only white space is refused before any lookup.
 */
module NoteController {
  import opened Wrappers
  import opened Whitespace
  import opened Store
  import Query

  /** `!content || content.trim().length === 0` does not hold. */
  predicate ValidContent(content: Option<string>) {
    content.Some? && Trim(content.value) != ""
  }

  /** `addNote`. */
  function AddNote(db: Db, caller: UserId, summaryId: Id, content: Option<string>): (r: Step<Note>)
    ensures !ValidContent(content) ==> r == Step(db, BadRequest)
    ensures ValidContent(content) && !OwnsSummaryBook(db, caller, summaryId) ==> r == Step(db, NotFound)
    ensures ValidContent(content) && OwnsSummaryBook(db, caller, summaryId) ==>
      && r.response.Ok?
      && var n := r.response.value;
      && n.id == db.nextNoteId
      && n.content == Trim(content.value)
      && n.summaryId == summaryId
      && n.userId == caller
      && r.db.notes == db.notes[n.id := n]
      && r.db.books == db.books && r.db.summaries == db.summaries
  {
    if !ValidContent(content) then Step(db, BadRequest)
    else if !OwnsSummaryBook(db, caller, summaryId) then Step(db, NotFound)
    else
      var (db', n) := InsertNote(db, Trim(content.value), summaryId, caller);
      Step(db', Ok(n))
  }

  /** The `where: { summaryId }` filter of `getNotes`. */
  function OnSummary(summaryId: Id): Note -> bool {
    (n: Note) => n.summaryId == summaryId
  }

  /** The `createdAt` ordering key of notes. */
  const NoteStamp: Note -> int := (n: Note) => n.createdAt

  /** `getNotes`: every note on the summary, whoever wrote it, newest first. */
  function GetNotes(db: Db, caller: UserId, summaryId: Id): (r: Step<seq<Note>>)
    ensures r.db == db
    ensures r.response.Ok? <==> OwnsSummaryBook(db, caller, summaryId)
    ensures !r.response.Ok? ==> r.response == NotFound
    ensures r.response.Ok? ==> forall i :: 0 <= i < |r.response.value| ==>
      r.response.value[i] in db.notes.Values && r.response.value[i].summaryId == summaryId
    ensures r.response.Ok? ==> forall i, j :: 0 <= i < j < |r.response.value| ==>
      r.response.value[i].createdAt >= r.response.value[j].createdAt
    ensures r.response.Ok? && Valid(db) ==> forall k :: k in db.notes && db.notes[k].summaryId == summaryId ==>
      db.notes[k] in r.response.value
    ensures r.response.Ok? && Valid(db) ==> forall i, j :: 0 <= i < j < |r.response.value| ==>
      r.response.value[i].createdAt > r.response.value[j].createdAt
  {
    if !OwnsSummaryBook(db, caller, summaryId) then Step(db, NotFound)
    else
      var notes := Query.FindNewest(db.notes, OnSummary(summaryId), NoteStamp, db.nextNoteId);
      assert Valid(db) ==> Query.StampsDistinct(db.notes, NoteStamp);
      Step(db, Ok(notes))
  }

  /** `updateNote`: replaces the text of one of the caller's notes and nothing else. */
  function UpdateNote(db: Db, caller: UserId, noteId: Id, content: Option<string>): (r: Step<Note>)
    ensures !ValidContent(content) ==> r == Step(db, BadRequest)
    ensures ValidContent(content) && !AuthoredNote(db, caller, noteId) ==> r == Step(db, NotFound)
    ensures ValidContent(content) && AuthoredNote(db, caller, noteId) ==>
      && r.response.Ok?
      && r.response.value == db.notes[noteId].(content := Trim(content.value))
      && r.db.notes.Keys == db.notes.Keys
      && r.db.notes[noteId] == r.response.value
      && (forall k :: k in db.notes && k != noteId ==> r.db.notes[k] == db.notes[k])
      && r.db == db.(notes := r.db.notes)
  {
    if !ValidContent(content) then Step(db, BadRequest)
    else if !AuthoredNote(db, caller, noteId) then Step(db, NotFound)
    else
      var n := db.notes[noteId].(content := Trim(content.value));
      Step(db.(notes := db.notes[noteId := n]), Ok(n))
  }

  /** `deleteNote`: removes one of the caller's notes and nothing else. */
  function DeleteNote(db: Db, caller: UserId, noteId: Id): (r: Step<()>)
    ensures !AuthoredNote(db, caller, noteId) ==> r == Step(db, NotFound)
    ensures AuthoredNote(db, caller, noteId) ==>
      && r.response == Ok(())
      && r.db.notes.Keys == db.notes.Keys - {noteId}
      && (forall k :: k in r.db.notes ==> r.db.notes[k] == db.notes[k])
      && r.db == db.(notes := r.db.notes)
  {
    if !AuthoredNote(db, caller, noteId) then Step(db, NotFound)
    else Step(db.(notes := db.notes - {noteId}), Ok(()))
  }

  // ---- Properties ----

  /** Stored note text is never blank, has no white space at either end, and keeps every other character of the input. */
  lemma StoredContentIsTrimmed(db: Db, caller: UserId, summaryId: Id, content: Option<string>)
    requires AddNote(db, caller, summaryId, content).response.Ok?
    ensures var n := AddNote(db, caller, summaryId, content).response.value;
      && n.content != "" && Bare(n.content)
      && NonSpace(n.content) == NonSpace(content.value)
  {
    NonSpaceTrim(content.value);
  }

  lemma AddNoteValid(db: Db, caller: UserId, summaryId: Id, content: Option<string>)
    requires Valid(db)
    ensures Valid(AddNote(db, caller, summaryId, content).db)
  {
    if ValidContent(content) && OwnsSummaryBook(db, caller, summaryId) {
      InsertNoteValid(db, Trim(content.value), summaryId, caller);
    }
  }

  /** In a `Valid` state a successful `addNote` adds a note rather than replacing one. */
  lemma AddNoteGrows(db: Db, caller: UserId, summaryId: Id, content: Option<string>)
    requires Valid(db)
    ensures var r := AddNote(db, caller, summaryId, content);
      |r.db.notes| == |db.notes| + (if r.response.Ok? then 1 else 0)
  {
    ValidNextIdsUnused(db);
    if ValidContent(content) && OwnsSummaryBook(db, caller, summaryId) {
      InsertNoteGrows(db, Trim(content.value), summaryId, caller);
    }
  }

  lemma UpdateNoteValid(db: Db, caller: UserId, noteId: Id, content: Option<string>)
    requires Valid(db)
    ensures Valid(UpdateNote(db, caller, noteId, content).db)
  {
  }

  lemma DeleteNoteValid(db: Db, caller: UserId, noteId: Id)
    requires Valid(db)
    ensures Valid(DeleteNote(db, caller, noteId).db)
  {
  }

  /** A note just inserted is the newest of the table, so it heads its summary's listing. */
  lemma InsertedNoteListedFirst(db: Db, content: string, summaryId: Id, caller: UserId)
    requires Valid(db)
    ensures var (db', n) := InsertNote(db, content, summaryId, caller);
      var l := Query.FindNewest(db'.notes, OnSummary(summaryId), NoteStamp, db'.nextNoteId);
      |l| > 0 && l[0] == n
  {
    var (db', n) := InsertNote(db, content, summaryId, caller);
    InsertNoteValid(db, content, summaryId, caller);
    assert db'.notes[n.id] == n;
    assert Query.StampsDistinct(db'.notes, NoteStamp);
    Query.NewestComesFirst(db'.notes, OnSummary(summaryId), NoteStamp, db'.nextNoteId, n);
  }

  /** A note just added comes first in its summary's list of notes. */
  lemma AddedNoteListedFirst(db: Db, caller: UserId, summaryId: Id, content: Option<string>)
    requires Valid(db)
    requires AddNote(db, caller, summaryId, content).response.Ok?
    ensures var r := AddNote(db, caller, summaryId, content);
      var l := GetNotes(r.db, caller, summaryId);
      l.response.Ok? && |l.response.value| > 0 && l.response.value[0] == r.response.value
  {
    InsertedNoteListedFirst(db, Trim(content.value), summaryId, caller);
  }

  lemma InsertedNoteRemoved(db: Db, content: string, summaryId: Id, caller: UserId)
    requires Valid(db)
    ensures var (db', n) := InsertNote(db, content, summaryId, caller);
      db'.notes - {n.id} == db.notes
  {
    var (db', n) := InsertNote(db, content, summaryId, caller);
    assert n.id !in db.notes;
    MapAddRemove(db.notes, n.id, n);
  }

  /** Deleting a note just added gives back the original notes table. */
  lemma DeleteUndoesAdd(db: Db, caller: UserId, summaryId: Id, content: Option<string>)
    requires Valid(db)
    requires AddNote(db, caller, summaryId, content).response.Ok?
    ensures var r := AddNote(db, caller, summaryId, content);
      var d := DeleteNote(r.db, caller, r.response.value.id);
      d.response == Ok(()) && d.db.notes == db.notes
  {
    InsertedNoteRemoved(db, Trim(content.value), summaryId, caller);
  }

  /** Editing a note twice with the same text changes nothing the second time. */
  lemma UpdateIdempotent(db: Db, caller: UserId, noteId: Id, content: Option<string>)
    ensures var r1 := UpdateNote(db, caller, noteId, content);
      UpdateNote(r1.db, caller, noteId, content) == r1
  {
    var r1 := UpdateNote(db, caller, noteId, content);
    if ValidContent(content) && AuthoredNote(db, caller, noteId) {
      assert AuthoredNote(r1.db, caller, noteId);
      MapUpdateSame(r1.db.notes, noteId);
    }
  }

  /** The notes of `caller`, as a table of their own. */
  function NotesOf(db: Db, caller: UserId): (m: map<Id, Note>)
    ensures forall k :: k in m <==> AuthoredNote(db, caller, k)
  {
    map k | k in db.notes && db.notes[k].userId == caller :: db.notes[k]
  }

  /** Whether an edit or a deletion is refused depends only on the caller's own notes. */
  lemma EditSeesOnlyOwnNotes(db1: Db, db2: Db, caller: UserId, noteId: Id, content: Option<string>)
    requires NotesOf(db1, caller) == NotesOf(db2, caller)
    ensures UpdateNote(db1, caller, noteId, content).response == UpdateNote(db2, caller, noteId, content).response
    ensures DeleteNote(db1, caller, noteId).response == DeleteNote(db2, caller, noteId).response
  {
    assert AuthoredNote(db1, caller, noteId) <==> noteId in NotesOf(db1, caller);
    assert AuthoredNote(db2, caller, noteId) <==> noteId in NotesOf(db2, caller);
    if AuthoredNote(db1, caller, noteId) {
      assert db1.notes[noteId] == NotesOf(db1, caller)[noteId];
      assert db2.notes[noteId] == NotesOf(db2, caller)[noteId];
    }
  }
}
