# Book summariser backend — a Dafny model

This project models the core of a small Express backend. Users upload books, optionally
with a PDF. They get a short summary of each book and attach notes to summaries. Two
pieces of logic are modelled:

- **The summariser** (`summarizeText`). An empty input yields the fixed notice
  `"No content provided to summarize."`. Any other input has each run of white space
  replaced by one blank and is then trimmed. A result of at most 280 characters is
  returned as is. A longer one is cut to its first 277 characters and followed by `"..."`.
- **The ownership-scoped store** behind the book, summary and note controllers. Each
  database call becomes a pure operation on a state `Db`, which holds:
  - maps from id to `Book`, `Summary` and `Note`
  - the next id of each table
  - a clock that stamps `createdAt`

  Each request handler is a function from state, caller and input to a new state and
  one `Response`: `Ok(value)`, `BadRequest`, `NotFound` or `Error`. Every lookup is
  filtered by the caller. A record that does not exist and a record of another user
  therefore give the same `NotFound`.

Modules, in dependency order:

| module | file | contents |
|---|---|---|
| `Seqs` | seqs.dfy | generic facts about slicing and concatenating sequences |
| `Wrappers` | wrappers.dfy | `Option` |
| `Whitespace` | whitespace.dfy | the JavaScript `\s` class, `trim`, and `replace(/\s+/g, " ")` |
| `Summarizer` | summarizer.dfy | `summarizeText`, its normal form, and the words view of that normal form |
| `Query` | query.dfy | `findMany` with a `where` filter and `orderBy: { createdAt: "desc" }`, over any table |
| `Store` | store.dfy | the records, the state, the database invariant `Valid`, the three `create` calls, and highlights |
| `BookController` | book_controller.dfy | `createBook`, `getBooks`, `getBookById`, `deleteBook` |
| `SummaryController` | summary_controller.dfy | `getSummaries`, `getSummaryById`, `regenerateSummary` with its upsert |
| `NoteController` | note_controller.dfy | `addNote`, `getNotes`, `updateNote`, `deleteNote` |

`Valid(db)` is the database invariant. It states:
- Every record sits under its own id, below the table's next id.
- Every record was created before the current clock.
- No two records of one table share a creation time.
- A book has at most one summary. This is the unique `bookId` the upsert relies on.
- Every summary refers to a book id already handed out (below the next book id).
- Every summary carries the highlights of its content.
- While a summary's book exists, the summary's creator is the book's owner.

The empty database is `Valid`, and every handler keeps it.

## Model

| member | source | states |
|---|---|---|
| Whitespace.Trim | src/utils/summarizer.js:6 | the result of `trim` has no white space at either end |
| Whitespace.TrimOfPadded | src/utils/summarizer.js:6 | `trim` removes exactly the surrounding white space: padding a bare text on both sides and trimming gives it back |
| Whitespace.TrimIgnoresPadding | src/controllers/summaryController.js:63 | white space added before or after a text makes no difference to `trim` |
| Whitespace.TrimEmpty | src/controllers/noteController.js:12 | `trim()` is empty exactly when the text is all white space |
| Whitespace.NonSpaceTrim | src/controllers/noteController.js:34 | trimming keeps every non-space character, in order |
| Whitespace.Collapse | src/utils/summarizer.js:6 | `replace(/\s+/g, " ")` leaves only single blanks; it is empty iff its input is, and starts with white space iff its input does |
| Whitespace.NonSpaceCollapse | src/utils/summarizer.js:6 | collapsing white space keeps every other character, in order |
| Whitespace.CollapseFixesCollapsed | src/utils/summarizer.js:6 | collapsing is the identity on already collapsed text |
| Whitespace.TrimFixesBare | src/utils/summarizer.js:6 | trimming is the identity on text with no white space at its ends |
| Summarizer.Normalize | src/utils/summarizer.js:6 | the normal form has single blanks between words and nothing at its ends |
| Summarizer.NormalizeKeepsContent | src/utils/summarizer.js:6 | normalising keeps every non-space character of the input, in order |
| Summarizer.NormalizeIsJoinedWords | src/utils/summarizer.js:6 | the normal form equals the input's maximal non-space runs joined by single blanks |
| Summarizer.WordsSpaced | src/controllers/summaryController.js:63 | a white-space character between two texts keeps their words apart: the words are those of the first text followed by those of the second |
| Summarizer.WordsTrim | src/controllers/summaryController.js:63 | `trim` changes no word |
| Summarizer.JoinIsNormal | src/utils/summarizer.js:6 | conversely, words joined by single blanks are normal and normalise to themselves |
| Summarizer.NormalizeFixesNormal | src/utils/summarizer.js:6 | normalisation is the identity on normal text |
| Summarizer.NormalizeIdempotent | src/utils/summarizer.js:6 | normalising twice equals normalising once |
| Summarizer.NormalizeEmpty | src/utils/summarizer.js:6 | the normal form is empty exactly for all-white-space input |
| Summarizer.Summarize | src/utils/summarizer.js:1-13 | the result is at most 280 characters; empty input gives exactly the notice; any other input gives a normal text (single blanks, no white space at the ends) |
| Summarizer.SummarizeByWords | src/utils/summarizer.js:6-12 | for non-empty input the summary is the joined words if they fit in 280 characters, else their first 277 characters followed by "..." |
| Summarizer.SummarizeCutLength | src/utils/summarizer.js:12 | a cut summary is exactly 280 characters: the first 277 of the normal form, then "..." |
| Summarizer.TruncatedIsNormal | src/utils/summarizer.js:12 | cutting a normal text to 277 characters and appending "..." keeps it normal |
| Summarizer.SummarizeBlank | src/utils/summarizer.js:2-10 | the summary is the empty string exactly for non-empty all-white-space input, never the notice |
| Summarizer.EmptyNoticeIsNormal | src/utils/summarizer.js:3 | the fixed notice is itself in normal form |
| Summarizer.SummarizeIdempotent | src/utils/summarizer.js:1-12 | summarising a non-empty summary gives it back unchanged |
| Query.Select | src/controllers/bookController.js:55 | the selected keys are exactly the stored keys below the table's next id whose record passes the filter, each once, highest first |
| Query.FindNewest | src/controllers/bookController.js:54-58 | every listed record is stored and passes the filter; every such record stored under a key below the table's next id is listed; creation times descend, strictly when they are distinct |
| Query.NewestComesFirst | src/controllers/noteController.js:96-98 | when no two records share a creation time, a listed record at least as new as every record of the table heads the list |
| Store.Or | src/controllers/bookController.js:34 | `a \|\| b` on strings gives `a` when it is present and non-empty, else `b` |
| Store.Highlight | src/controllers/bookController.js:39 | highlights are the prefix of the content of length min(180, length of the content) |
| Store.InsertBook | src/controllers/bookController.js:20-28 | `book.create` stores one book under the next id with the given fields and the current time, and changes no other table (that this adds a record when the id is unused is `Store.InsertBookGrows`) |
| Store.InsertSummary | src/controllers/bookController.js:36-43 | `summary.create` stores one summary under the next id, with highlights derived from its content, and changes no other table (that this adds a record when the id is unused is `Store.InsertSummaryGrows`) |
| Store.InsertNote | src/controllers/noteController.js:32-37 | `note.create` stores one note under the next id, and changes no other table (that this adds a record when the id is unused is `Store.InsertNoteGrows`) |
| Store.InsertBookValid | src/controllers/bookController.js:20-28 | creating a book keeps the database invariant |
| Store.InsertSummaryValid | src/controllers/bookController.js:36-43 | creating a summary for a book whose id was already handed out and that has no summary yet, on behalf of its owner, keeps the invariant |
| Store.InsertNoteValid | src/controllers/noteController.js:32-37 | creating a note keeps the invariant |
| Store.ValidNextIdsUnused | src/controllers/bookController.js:20-28 | in a `Valid` state no record sits under the next id of its table, so every `create` gets a fresh id |
| Store.InsertBookGrows | src/controllers/bookController.js:20-28 | `book.create` under an unused id adds a book: the table grows by exactly one |
| Store.InsertSummaryGrows | src/controllers/bookController.js:36-43 | `summary.create` under an unused id adds a summary: the table grows by exactly one |
| Store.InsertNoteGrows | src/controllers/noteController.js:32-37 | `note.create` under an unused id adds a note: the table grows by exactly one |
| BookController.SummarySource | src/controllers/bookController.js:34 | the summariser reads the extracted text if non-empty, else the description if non-empty, else the title |
| BookController.CreateBook | src/controllers/bookController.js:5-50 | a missing or empty title answers `BadRequest` and changes nothing. Otherwise one book is stored under the next book id, owned by the caller and holding the given fields and `pdfPath`, and no other book changes. Without a PDF the answer carries no summary. If extraction fails the answer is `Error`, the book stays and no summary is made. If it succeeds, one summary of the source text is stored under the next summary id, created by the caller and with its highlights |
| BookController.CreateBookGrows | src/controllers/bookController.js:20-43 | in a `Valid` state, `createBook` with a title adds exactly one book, and adds one summary exactly when a PDF is given and its extraction succeeds |
| BookController.CreateBookSummaryIff | src/controllers/bookController.js:30-46 | the new book has a summary exactly when a PDF was uploaded and its text was extracted |
| BookController.CreateBookValid | src/controllers/bookController.js:20-43 | `createBook` keeps the database invariant |
| BookController.GetBooks | src/controllers/bookController.js:52-63 | lists only stored books of the caller, all of them, newest first; the state is unchanged |
| BookController.GetBookById | src/controllers/bookController.js:65-80 | answers the stored book exactly when it exists and the caller owns it, else `NotFound`; the state is unchanged |
| BookController.DeleteBook | src/controllers/bookController.js:82-97 | a book that is absent or not the caller's gives `NotFound` and no change; otherwise exactly that book id is removed and nothing else changes |
| BookController.LookupSeesOnlyOwnBooks | src/controllers/bookController.js:67-93 | the answers of `getBookById` and `deleteBook` depend only on the caller's own books, so an absent book and another user's book are indistinguishable |
| BookController.DeleteBookValid | src/controllers/bookController.js:92 | deleting a book keeps the invariant |
| BookController.DeleteUndoesCreate | src/controllers/bookController.js:20-92 | deleting a book just created without a PDF restores the book, summary and note tables |
| SummaryController.GetSummaries | src/controllers/summaryController.js:4-20 | lists only stored summaries created by the caller, all of them, newest first; the state is unchanged |
| SummaryController.GetSummaryById | src/controllers/summaryController.js:22-50 | answers the summary exactly when it exists and the caller created it, else `NotFound`; the state is unchanged |
| SummaryController.LookupSeesOnlyOwnSummaries | src/controllers/summaryController.js:24-44 | the answer of `getSummaryById` depends only on the summaries the caller created |
| SummaryController.RegenerationInput | src/controllers/summaryController.js:62-64 | the regeneration input has no white space at its ends. It keeps, in order, every non-space character and every word of `description \|\| title` followed by those of `notes \|\| ""`. Two parts with no white space at their ends are joined by exactly one blank. A blank part leaves only the other part, trimmed |
| SummaryController.SummaryOf | src/controllers/summaryController.js:67 | the upsert's `where: { bookId }` finds a summary of that book; in a `Valid` state it finds none only when the book has no summary |
| SummaryController.Rewrite | src/controllers/summaryController.js:68-71 | the update branch changes only the content and highlights of the found summary |
| SummaryController.Upsert | src/controllers/summaryController.js:66-78 | the upserted summary belongs to the book and has the content and its highlights. It replaces only its own entry of the summary table. An existing summary keeps its id, creator and creation time. Otherwise a new summary gets the next id and the caller as creator |
| SummaryController.RegenerateSummary | src/controllers/summaryController.js:52-84 | a book that is absent or not the caller's gives `NotFound` and changes nothing. Otherwise the answer is the book's upserted summary, whose content is the summary of the regeneration input, with its highlights. Books and notes are unchanged |
| SummaryController.UpsertLeavesOneSummary | src/controllers/summaryController.js:66-78 | after an upsert the book has exactly one summary, the one returned |
| SummaryController.RegenerateLeavesOneSummary | src/controllers/summaryController.js:66-78 | after regeneration the book has exactly one summary, the one answered |
| SummaryController.RegenerateUpdatesInPlace | src/controllers/summaryController.js:66-71 | regenerating a book that has a summary keeps that summary's id, book, creator and creation time, and changes only its content and highlights |
| SummaryController.UpsertValid | src/controllers/summaryController.js:66-78 | upserting a summary of the caller's own book keeps the invariant |
| SummaryController.RegenerateValid | src/controllers/summaryController.js:52-84 | `regenerateSummary` keeps the invariant |
| SummaryController.UpsertIdempotent | src/controllers/summaryController.js:66-78 | upserting the same content twice leaves state and answer as after the first |
| SummaryController.RegenerateIdempotent | src/controllers/summaryController.js:52-84 | regenerating twice with the same notes gives the same state and answer as once |
| NoteController.AddNote | src/controllers/noteController.js:6-59 | missing or blank content gives `BadRequest`, then a summary that is absent or whose book the caller does not own gives `NotFound`, both with no change; otherwise one note is stored under the next id, holding the trimmed content, the summary id and the caller, and books and summaries are unchanged |
| NoteController.AddNoteGrows | src/controllers/noteController.js:32-37 | in a `Valid` state, `addNote` adds exactly one note when it answers `Ok` and leaves the number of notes unchanged otherwise |
| NoteController.StoredContentIsTrimmed | src/controllers/noteController.js:12-34 | a stored note's text is non-empty, has no white space at either end, and keeps every non-space character of the input in order |
| NoteController.GetNotes | src/controllers/noteController.js:64-106 | succeeds exactly when the summary exists and the caller owns its book, else `NotFound`; lists only stored notes of that summary, all of them whoever wrote them, newest first; the state is unchanged |
| NoteController.UpdateNote | src/controllers/noteController.js:111-163 | missing or blank content gives `BadRequest`, then a note that is absent or not the caller's gives `NotFound`, both with no change; otherwise only that note's content changes, to the trimmed text |
| NoteController.DeleteNote | src/controllers/noteController.js:168-200 | a note that is absent or not the caller's gives `NotFound` and no change; otherwise exactly that note id is removed and every other note is unchanged |
| NoteController.EditSeesOnlyOwnNotes | src/controllers/noteController.js:123-184 | the answers of `updateNote` and `deleteNote` depend only on the caller's own notes |
| NoteController.AddNoteValid | src/controllers/noteController.js:32-37 | `addNote` keeps the invariant |
| NoteController.UpdateNoteValid | src/controllers/noteController.js:135-141 | `updateNote` keeps the invariant |
| NoteController.DeleteNoteValid | src/controllers/noteController.js:187-191 | `deleteNote` keeps the invariant |
| NoteController.InsertedNoteListedFirst | src/controllers/noteController.js:83-98 | a note just created heads the newest-first list of its summary's notes |
| NoteController.AddedNoteListedFirst | src/controllers/noteController.js:32-98 | after `addNote`, `getNotes` on the same summary succeeds and lists the new note first |
| NoteController.DeleteUndoesAdd | src/controllers/noteController.js:32-191 | deleting a note just added succeeds and restores the notes table |
| NoteController.UpdateIdempotent | src/controllers/noteController.js:135-141 | editing a note twice with the same text gives the same state and answer as once |

## Left out

- Authentication: password hashing and token checks are foreign library calls, so the caller is an opaque user id (`req.user.id`).
- PDF extraction: reading the file and parsing it are foreign calls. Extraction is a parameter `extract` that returns the text, or `None` when it throws.
- File upload: the storage configuration and its file names, built from the time and a random number, are not modelled. `pdfPath` is an optional opaque string.
- Express wiring, routing, CORS, static files, status numbers beyond the four responses and `console` logging: none of this is logic.
- Concurrency: each request is one atomic step. The handlers `await` between an ownership lookup and the write that follows it (src/controllers/noteController.js:123-135 and 175-187, src/controllers/bookController.js:84-92, src/controllers/summaryController.js:54-66), and a request interleaved in that gap can make the write throw, which the handler answers with 500 through `next(error)`. For example, two concurrent `deleteNote` calls on one note can give the second `Error` where the model answers `NotFound`. Such interleavings are not modelled.
- Note routes: none of the application entry points mounts the note router (src/app.js:19-21, app.js:18-19, src/server.js:22-25), so as shipped the four note handlers cannot be reached over HTTP. The `NoteController` module models the handlers themselves, as if the router were mounted.
- Relation `include`s in responses (a book's summaries, a summary's book, a note's user): the model answers with the bare records.
- Cascades: `deleteBook` removes the book record only, because the schema's cascade rules are not part of this model. A summary can therefore outlive its book, and `Valid` allows that.
- Route parameters that `Number` turns into `NaN`, and request-body fields that are not strings: ids are integers and text fields are optional strings.
- Database failures other than a failed extraction: every other call succeeds.
- Timestamps: `createdAt` comes from a clock that advances by one on every create, so two records of one table never tie.
- Store.Highlight: the 180-character prefix counts characters, not UTF-16 code units, so it never splits a surrogate pair as `slice(0, 180)` can.
- Summarizer.Summarize: lengths are counted in characters, not in the UTF-16 code units JavaScript's `length` counts, so text outside the Basic Multilingual Plane is measured differently.
- Whitespace.IsSpace: the ECMAScript white-space set is written out character by character, and Unicode category Zs is taken as of the current standard.
- BookController.GetBooks: completeness and strict ordering are stated only for a `Valid` state; soundness and non-strict newest-first ordering are stated for every state.
- SummaryController.GetSummaries: completeness and strict ordering are stated only for a `Valid` state; soundness and non-strict newest-first ordering are stated for every state.
- NoteController.GetNotes: completeness and strict ordering are stated only for a `Valid` state; soundness and non-strict newest-first ordering are stated for every state.
- Query.Select: only keys below the table's next id are considered; in a `Valid` state every stored key is below it, so nothing stored is missed there.
- Query.FindNewest: completeness covers stored keys below the table's next id only, which in a `Valid` state is every stored key.
- SummaryController.SummaryOf: "no summary found means the book has none" is stated only for a `Valid` state, where every stored summary sits under a key below the next summary id.
- SummaryController.Upsert: the identity facts (same id for an existing summary, next id for a new one) are stated only for a `Valid` state. Outside `Valid`, `bookId` need not be unique, which the database's unique constraint rules out.
- BookController.CreateBookSummaryIff: stated for a `Valid` state only, where no earlier summary can refer to the id the new book receives.
