# Note app: server handlers and client view model

A model of a small note-taking application ("memo app"). The server keeps all
notes in one JSON file and offers three handlers: list the notes, append a
note, and delete the notes with a given id. Each handler reads the whole file,
transforms the list and writes it back. The client holds the list in memory,
shows it two notes per page, resolves the links between notes, and drives a
note-creation form.

The model has five modules:

- `Notes` (`notes.dfy`): the note record, its type, its `linkedTo` value
  (absent/null, one id, or an array of ids), and an `Option` type.
- `Server` (`server.dfy`): the GET, POST and DELETE handlers as functions. The
  file read becomes a `ReadOutcome`: a read error, a file whose JSON does not
  parse, or a parsed list. The write's success is a boolean. A handler returns
  the list it writes (if any) and the response it sends (status and body).
  The asymmetric error policy is kept: a parse error is a 500 on GET, but POST
  and DELETE treat the file as an empty list and overwrite it.
- `Pagination` (`pagination.dfy`): page size 2, `Math.ceil` page count,
  `slice` for the current page, and the page clamp after a delete.
- `Links` (`links.dfy`): `getLinkedMemo`/`getLinkedMemos`, the texts shown for
  linked notes (a missing note shows `削除されたメモ`), and the citation label
  `source.split('（')[0]`.
- `App` (`app.dfy`): the component's state as the class `MemoApp`, one field
  per state hook and one method per user action. The payload that `addMemo`
  posts is the function `NewMemoPayload`. The shuffle of `reloadMemos` is the
  function `Shuffled`. Cross-module lemmas relate the client to the server.

Behaviours of the code a reader might not expect, all kept in the model:

- An array link drops targets that no longer exist (`filter(Boolean)`). Only a
  single-id link yields a "missing" entry.
- Cancel keeps the chosen note type. It does not reset it to "personal".
- The "+" button only opens the form. It leaves the link state alone. The
  invariant `MemoApp.Valid` shows this is harmless: a closed form never holds
  link state, so "+" always opens a plain form.
- The page clamp after a delete uses the pre-delete length minus one, whatever
  the server removed. When two notes share the deleted id, the view can stay on
  an empty page with no page buttons, until a reload or a new note.

Two further details of the code:

- A single link whose id is 0 is falsy and resolves to no entry.
- A found note whose content is the empty string is also shown as `削除されたメモ`.

## Model

| member | source | states |
|---|---|---|
| `Server.HandleGet` | server.js:14-23 | GET never writes; it answers 200 with the parsed list exactly when the file was read and parsed; otherwise 500 with the read-error or parse-error message |
| `Server.HandlePost` | server.js:27-41 | a read error gives 500 and no write; a parsed file is written back as old list followed by the new note; an unparseable file is overwritten with just the new note, silently; the response is 200 with the new note exactly when the read and the write succeeded |
| `Server.RemoveId` | server.js:52 | every kept note comes from the input and has a different id; the length drops by exactly the number of notes carrying the id |
| `Server.RemoveIdKeepsOthers` | server.js:52 | each note whose id differs from the target is kept as many times as it occurred |
| `Server.RemoveIdKeepsOrder` | server.js:52 | the kept notes are a subsequence of the input: their relative order is unchanged |
| `Server.RemoveAbsentId` | server.js:52-55 | deleting leaves the list unchanged if and only if no note carries the id |
| `Server.RemoveIdIdempotent` | server.js:52 | deleting the same id twice gives the same list as deleting it once |
| `Server.RemoveIdAppend` | server.js:52 | the filter distributes over concatenation |
| `Server.RemoveIdCommutes` | server.js:52 | deleting two ids in either order gives the same list |
| `Server.HandleDelete` | server.js:44-58 | a read error gives 500 and no write; a parsed file is written back filtered; an unparseable file is overwritten with the empty list; the response is `{success: true}` with 200 exactly when the read and the write succeeded, whether or not a note matched |
| `Server.AppendsThenList` | server.js:27-41 | after successful POSTs to a readable file, GET lists the earlier notes followed by the posted notes in posting order |
| `Server.CorruptFileLosesOldContent` | server.js:31-35 | after successful POSTs to an unparseable file, GET lists only the posted notes |
| `Server.PostThenDelete` | server.js:52 | deleting the id of a note just posted, when no earlier note had that id, writes back the list from before the POST |
| `Pagination.CeilDiv` | src/App.js:79 | the result is `Math.ceil(x / d)`, for negative x too |
| `Pagination.TotalPages` | src/App.js:19-20 | the page count is the least t with 2t >= n |
| `Pagination.CurrentMemos` | src/App.js:21 | the page shows at most two notes, note i of page p being note 2p+i of the list; it is empty exactly when p >= totalPages; every page but the last is full |
| `Pagination.AllPagesPrefix` | src/App.js:21 | the first k pages together are the first 2k notes |
| `Pagination.PagesPartitionList` | src/App.js:19-21 | all pages in order make up the whole list |
| `Pagination.NoteOnItsPage` | src/App.js:21 | note i is shown on page i/2 at position i%2 |
| `Pagination.ClampAfterDelete` | src/App.js:79-82 | with k = ceil((lengthBefore-1)/2), the page becomes exactly k-1 when it was at least k and k > 0, and is unchanged otherwise (including k = 0); it never increases |
| `Pagination.ClampShowsNotes` | src/App.js:79-82 | when one note was removed and notes remain, the clamped page shows notes |
| `Pagination.ClampKeepsPageWhenEmptied` | src/App.js:79-82 | when the list held at most one note, the page is not moved |
| `Pagination.ClampLeavesEmptiedLastPage` | src/App.js:79-82 | deleting the only note of the last page moves back exactly one page |
| `Pagination.ClampScenarioThreeNotes` | src/App.js:79-82 | three notes, page 1 shown, the third deleted: the page becomes 0 and shows the other two |
| `Pagination.ClampAfterDoubleRemoval` | src/App.js:79-82 | from the last page of an even-length list, a delete that removed two notes leaves the page unchanged, and that page is now empty |
| `Links.FirstIndex` | src/App.js:108 | the index found is the first note carrying the id, or the length when none does |
| `Links.GetLinkedMemo` | src/App.js:107-109 | the lookup is Missing exactly when no note has the id; a found note is the first held note with the id |
| `Links.ResolveAll` | src/App.js:113 | the entries are no more than the ids, all found notes whose ids are among the ids; there is one per id exactly when every id resolves |
| `Links.ResolveAllComplete` | src/App.js:113 | when every id resolves, entry i is the first note carrying id i |
| `Links.ResolveAllNoneFound` | src/App.js:113 | when no id resolves, there are no entries |
| `Links.ResolveAllOne` | src/App.js:113 | a single id gives its first match, or nothing when no note has it |
| `Links.ResolveAllAppend` | src/App.js:113 | ids resolve independently: the entries of `xs + ys` are those of `xs` followed by those of `ys` (with the one-id case this fixes the entries of any id list) |
| `Links.PairWithOneDeleted` | src/App.js:113 | a pair link with one target gone resolves, and displays, just the other target |
| `Links.GetLinkedMemos` | src/App.js:111-116 | no link gives nothing; a single id gives one entry unless it is 0; an array resolves id by id; only a single link can yield a Missing entry |
| `Links.EntryText` | src/App.js:187 | a missing note, or a found one with empty content, shows the placeholder; otherwise its content; the text is never empty |
| `Links.LinkedTexts` | src/App.js:180-188 | one text per resolved entry, in order |
| `Links.DeletedTargets` | src/App.js:111-116 | a single link to a note that is gone shows just the placeholder; an array link to notes that are all gone shows nothing |
| `Links.LookupHeldNote` | src/App.js:108 | with unique ids, looking up a held note's id finds that note |
| `Links.PairResolvesInOrder` | src/App.js:111-113 | a pair link resolves to both notes in pair order |
| `Links.SourceLabel` | src/App.js:170 | the label is a prefix of the source without the full-width parenthesis, ending at the first such parenthesis or at the end |
| `Links.SourceLabelUnique` | src/App.js:170 | those three properties determine the label |
| `Links.SourceLabelIdempotent` | src/App.js:170 | the label of a label is itself |
| `Links.ShownSourceLabel` | src/App.js:162-171 | a card shows a source label exactly for a highlight with a non-empty source, and the label is the part before the first `（` |
| `Links.SourceDetailText` | src/App.js:368-370 | the detail view shows the whole source, under the same condition as the card's label |
| `Links.LabelIsPrefixOfDetail` | src/App.js:162-171 | a card shows a label exactly when the detail views show a source, and the label is the beginning of that source, cut at the first `（` |
| `Links.SourceLabelScenario` | src/App.js:170 | "Book Title（Author）" is shown as "Book Title" |
| `App.NewMemoPayload` | src/App.js:44-51 | the posted note keeps id, content (untrimmed), timestamp and type; it has a source exactly when it is a highlight; in "both" mode its link is the ids of the shown notes in page order, otherwise the single link or null |
| `App.PayloadLinksShownNotes` | src/App.js:48 | with unique ids, a note created in "both" mode resolves back to exactly the notes that were shown, in order |
| `App.LinkBothScenario` | src/App.js:48 | notes 10 and 20 shown and linked together give `linkedTo = [10, 20]`, resolving to both in that order |
| `App.Shuffled` | src/App.js:91 | the reordered list is a permutation of the list |
| `App.DeletedNoteShowsPlaceholder` | src/App.js:111-116 | after the server removes every note with a truthy id, a single link to it shows the placeholder |
| `App.ClampAfterServerDelete` | src/App.js:79-82 | when the deleted id was unique and notes remain, the clamped page shows notes of the list the server wrote |
| `App.DuplicateIdDeleteStrandsPage` | src/App.js:79-82 | four notes, two sharing id 7, page 1 shown: the server writes back the other two, the page stays 1 and is empty, and one page remains, so no page buttons are rendered |
| `App.MemoApp.Mode` | src/App.js:244-245 | closed when not shown; otherwise the "both" flag gives the two-note title, else a truthy single link gives the linked title, else the plain title |
| `App.MemoApp.constructor` | src/App.js:7-16 | the initial state: no notes, page 0, closed empty form, no link, type personal |
| `App.MemoApp.GoToPage` | src/App.js:210-215 | a page button exists only when there is more than one page; pressing one sets the page, which then shows notes; nothing else changes and the form invariant is kept |
| `App.MemoApp.DeleteMemo` | src/App.js:73-87 | the request carries the note's id; when it goes out, the list becomes the refetched one (or stays) and the page is clamped from the pre-delete length; on a network failure nothing changes; the form is untouched |
| `App.MemoApp.ReloadMemos` | src/App.js:90-93 | the list becomes a permutation of itself and the page 0 |
| `App.MemoApp.StartLinkingMode` | src/App.js:95-99 | sets the single link, clears the "both" flag and opens the form |
| `App.MemoApp.StartLinkingBothMode` | src/App.js:101-105 | sets the "both" flag, clears the single link and opens the form; offered only when two notes are shown |
| `App.MemoApp.OpenAddForm` | src/App.js:340 | only opens the form; a closed form opens plain and empty |
| `App.MemoApp.CancelAddForm` | src/App.js:316-321 | closes the form and clears content, source, single link and "both" flag, keeping the type |
| `App.MemoApp.SetContent` | src/App.js:308 | the textarea sets the draft content only |
| `App.MemoApp.SetType` | src/App.js:255 | a radio button sets the note type only |
| `App.MemoApp.SetSource` | src/App.js:278 | the source field sets the draft source only |
| `App.MemoApp.AddMemo` | src/App.js:42-70 | nothing happens when the trimmed content is empty; otherwise the payload is posted, and when it went out the list is refetched and the form closed and cleared, keeping the type; on a network failure the state is kept |

## Left out

- Express routing, CORS, JSON body parsing and `app.listen` (server.js:1-11, 60-62). They are framework plumbing.
- Real file reads and writes, and the JSON text format. The read is a `ReadOutcome`, the write a boolean, the written content a list of notes.
- What the file holds after a failed write. The request-sequence lemmas assume every write succeeds.
- A file that parses to JSON that is not an array. GET would answer 200 with that value, POST would throw on `push` and DELETE on `filter`. The model's parsed file is always a list of notes.
- The race between concurrent read-modify-write requests. There is no lock to model.
- `Number(req.params.id)` and its NaN case (server.js:45). The id is an integer.
- `fetch`, the async ordering, the `loading` flag, the `alert` messages and the initial `useEffect` load (src/App.js:24-39). A round trip's outcome is a method parameter: `sent` for a request that did not fail at the network level, `refreshed` for what the reload of the list gave.
- `Date.now()` ids, `new Date()` timestamps and `toLocaleString`. Ids are integers and timestamps opaque strings passed in.
- App.Shuffled: the random comparator of the sort is not modelled. The random choices are a parameter, and the model only promises a permutation.
- JSX rendering, styling, and the opening and closing of the detail and source-detail modals (`detailMemo`, `showSourceDetail`). Only the texts shown are modelled (`LinkedTexts`, `ShownSourceLabel`, `SourceDetailText`).
