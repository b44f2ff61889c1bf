# Notes application: a Dafny model

The notes application keeps short text notes with tags in one table,
`notes`. It is written in TypeScript. The table has the columns id,
title, content, tags, createdAt and updatedAt. The application has two
sides.

On the server there are five request handlers. Each turns a schema
violation into a 400 and any other thrown error into a 500:

- list (`GET /notes`) has no body and selects every row, newest first;
- create (`POST /notes`) validates its body and inserts one row;
- update (`POST /notes/update`) validates its body, answers a body with no
  field to change with a 400 before touching the table, and otherwise
  updates the row with the id (404 when there is none);
- delete (`POST /notes/delete`) validates its body and deletes the row with
  the id (404 when there is none);
- search (`POST /notes/search`) validates its body, answers the empty query
  with `[]` without touching the table, and otherwise selects the matching
  rows, newest first.

On the browser side:

- client wrappers validate a request with the same schema before sending it;
- a query cache holds the list under `["notes"]`, and each mutation
  invalidates or patches that entry;
- three components hold a little state: the note card (preview and inline
  edit), the create sheet, and the dashboard page (search mode).

This project models that behaviour in Dafny and proves what each part
promises. Modules follow the source files:

| module | file | models |
|---|---|---|
| `NoteTypes` | note_types.dfy | the note row, decoded request bodies, zod-style issues, responses, client call outcomes |
| `Text` | text.dfy | JavaScript `trim`, one-character `split`, `join`, ASCII lower-casing, substring search |
| `Validation` | validation.dfy | the zod field checks the schemas are built from |
| `CreateSchema`, `UpdateSchema` | create_schema.dfy, update_schema.dfy | the two request schemas and the `postNotes` / `postNotesUpdate` wrappers |
| `Rows` | rows.dfy | the table as a list: unique ids, `createdAt desc` order, delete by id, replace by id, filtering |
| `NotesTable` | notes_table.dfy | the table as a class with the create, update and delete handlers as methods |
| `ListHandler`, `SearchHandler`, `Ilike` | notes_get.dfy, search_post.dfy, ilike.dfy | the two read handlers; SQL `ILIKE` as the search statement uses it |
| `NotesQueries` | use_notes_queries.dfy | the cache patches and the cache entry as a class |
| `TagText`, `JsonText` | tag_text.dfy, json_text.dfy | the tags field's parse and join; `JSON.stringify` of a tag list |
| `NoteCardModel`, `CreateNoteSheetModel`, `IndexPageModel` | note_card.dfy, create_note_sheet.dfy, index_page.dfy | the three components' state and transitions |

The model turns several outside inputs into parameters:

- The generated id becomes the parameter `freshId`. It is required not to
  collide with a stored id.
- Each clock reading becomes an integer parameter.
- A failure of the database becomes an `Option<string>` carrying the thrown
  message, or an `InsertResult` for the insert.
- Browser facts become booleans or element lists: the user's answer to the
  confirm dialog, and whether a mouse-down lands outside the card.

Two details of the code shape the contracts:

- **Blank search queries.** Only the empty query short-circuits; a query of
  spaces goes to the table (`SearchHandler.Search`). The page never sends
  one, because `IndexPageModel.IndexPage.HandleSearch` refuses a blank query.
- **Creation timestamps.** The create handler reads the clock twice, and
  nothing orders the two readings. `NotesTable.Table.Create` accepts any
  two readings and stores them as they are; it promises
  `createdAt <= updatedAt`, and that the table stays in time order, only
  when the second reading is not earlier than the first.

## Model

| member | source | states |
|---|---|---|
| NoteTypes.SettleReply | endpoints/notes_POST.schema.ts:34-38 | a non-ok reply rejects with the server's error payload; an ok reply resolves with its body |
| Validation.StringField | endpoints/notes_POST.schema.ts:7-8 | a string field passes exactly when it is present as a string (non-empty under `.min(1)`), or absent and optional; at most one issue, on the field's key; a too-small issue carries the schema's message exactly when the field is `""` |
| Validation.StringArrayField | endpoints/notes_POST.schema.ts:9 | an optional string-array field passes exactly when it is absent or an array of strings |
| Validation.ValidateStringKey | endpoints/notes/delete_POST.schema.ts:4-6 | a one-string schema accepts exactly an object holding a string at the key and returns that string; otherwise one issue |
| CreateSchema.ValidateCreate | endpoints/notes_POST.schema.ts:6-10 | accepts exactly an object with a non-empty string title, a string content and optional string-array tags; carries those fields over and drops unknown keys; an empty title yields "Title is required." |
| CreateSchema.CreateBodyRoundTrip | endpoints/notes_POST.schema.ts:24-27 | a serialised input validates again to itself exactly when its title is non-empty |
| CreateSchema.PostNotes | endpoints/notes_POST.schema.ts:20-39 | a body the schema refuses is never sent; a sent request is the parsed input, which the server's schema accepts unchanged; the call resolves exactly when the reply is ok |
| UpdateSchema.ValidateUpdateData | components/NoteCard.tsx:32-39 | the update schema without `id`: accepts exactly objects whose present title is a non-empty string, present content a string, present tags a string array |
| UpdateSchema.ValidateUpdate | endpoints/notes/update_POST.schema.ts:6-11 | accepts exactly an object with a string id whose optional fields pass; a present title is non-empty; an empty title yields "Title cannot be empty." |
| UpdateSchema.IdOnlyPasses | endpoints/notes/update_POST.schema.ts:6-11 | a body with only an id passes the schema with no update data, so the emptiness check is the handler's |
| UpdateSchema.UpdateBodyRoundTrip | endpoints/notes/update_POST.schema.ts:25-28 | a serialised update validates again to itself exactly when a present title is non-empty |
| UpdateSchema.PostNotesUpdate | endpoints/notes/update_POST.schema.ts:21-40 | a body the schema refuses is never sent; a sent request is the parsed input, which the server accepts unchanged; the call resolves exactly when the reply is ok |
| Rows.SortNewestFirst | endpoints/notes_GET.ts:8-12 | the result is ordered by `createdAt` descending and is a permutation of the rows |
| Rows.CountOne | endpoints/notes_GET.ts:8-12 | with unique ids every row occurs exactly once |
| Rows.UniqueIdsPermutation | endpoints/notes_GET.ts:8-12 | any rearrangement of rows with unique ids has unique ids |
| Rows.FindById | endpoints/notes/update_POST.ts:18-29 | finds nothing exactly when no row has the id; otherwise a stored row with that id |
| Rows.RemoveId | endpoints/notes/delete_POST.ts:11 | keeps exactly the rows whose id differs, and never adds any |
| Rows.RemoveIdCount | endpoints/notes/delete_POST.ts:11-17 | deleting removes no row exactly when no row has the id (the 404 test) |
| Rows.RemoveUniqueId | endpoints/notes/delete_POST.ts:11 | with unique ids, deleting the id of row k removes that row and nothing else |
| Rows.RemoveIdConcat | helpers/useNotesQueries.tsx:58 | removing an id distributes over concatenation, so order is kept |
| Rows.RemoveIdIdempotent | helpers/useNotesQueries.tsx:58 | removing an id twice is removing it once |
| Rows.RemoveIdAbsent | helpers/useNotesQueries.tsx:58 | removing an id no row has changes nothing |
| Rows.RemoveIdKeepsUnique | endpoints/notes/delete_POST.ts:11 | deleting keeps ids unique |
| Rows.RemoveIdKeepsOrder | helpers/useNotesQueries.tsx:58 | deleting from a newest-first list keeps it newest first |
| Rows.RemoveIdIsFilter | helpers/useNotesQueries.tsx:58 | removing an id equals filtering on `note.id !== id` |
| Rows.ReplaceById | helpers/useNotesQueries.tsx:39-41 | same length; each row with the note's id is replaced by it, every other row stays in place |
| Rows.SortRemoveCommute | helpers/useNotesQueries.tsx:55-60 | removing an id from the sorted list equals sorting after the delete |
| Rows.SortReplaceCommute | helpers/useNotesQueries.tsx:36-43 | replacing a row by one with the same creation time commutes with the sort |
| Rows.Filter | endpoints/notes/search_POST.ts:21-28 | keeps exactly the rows the test accepts |
| Rows.FilterCount | endpoints/notes/search_POST.ts:21-28 | a kept row occurs as often as in the input, any other row not at all |
| Rows.FilterKeepsOrder | endpoints/notes/search_POST.ts:29 | filtering a newest-first list keeps it newest first |
| Rows.SortFilterCommute | endpoints/notes/search_POST.ts:18-30 | filtering the sorted rows equals sorting the filtered rows |
| NotesTable.NewNote | endpoints/notes_POST.ts:12-19 | definition: the fresh id, the input's title and content, its tags or `[]`, and the two clock readings |
| NotesTable.Patch | endpoints/notes/update_POST.ts:20 | each present field replaces the stored one (tags wholesale), `updatedAt` becomes now, id and `createdAt` stay |
| NotesTable.UpdateWhere | endpoints/notes/update_POST.ts:18-23 | every row with the id is patched, every other row and the order are kept |
| NotesTable.UpdateWhereIsReplace | endpoints/notes/update_POST.ts:18-23 | with unique ids the update statement is the replacement by id of the patched row |
| NotesTable.UpdateWhereKeeps | endpoints/notes/update_POST.ts:20 | an update keeps ids unique, and keeps `createdAt <= updatedAt` when the clock is not behind any creation |
| NotesTable.Table.Create | endpoints/notes_POST.ts:7-41 | an unparsable body is a 500 with its message; schema issues are a 400; an insert that throws or returns no row is a 500 ("Failed to create note."); otherwise the new note, with the fresh id, `tags ?? []` and the two clock readings, is appended; ids stay unique and failures change nothing; whatever the clock does, `createdAt <= updatedAt` holds exactly when the two readings come in order, and then the table keeps its time order |
| NotesTable.Table.Update | endpoints/notes/update_POST.ts:6-41 | an unparsable body is a 500; schema issues are a 400; no update data is a 400 ("No update data provided.") before the table is touched; a throwing statement is a 500; an unknown id is a 404 ("Note not found."); otherwise the row is patched and returned; ids stay unique, `createdAt <= updatedAt` is kept, failures change nothing |
| NotesTable.Table.Delete | endpoints/notes/delete_POST.ts:6-29 | an unparsable body is a 500; schema issues are a 400; a throwing statement is a 500; an unknown id is a 404; otherwise exactly the row with the id is removed and `{success: true, id}` returned |
| ListHandler.List | endpoints/notes_GET.ts:5-22 | fails only when the select throws, as a 500; otherwise all rows, newest first |
| ListHandler.ListShowsEveryNote | endpoints/notes_GET.ts:7-11 | the listed notes are exactly the stored ones, with unique ids, the newest first |
| SearchHandler.TagsText | endpoints/notes/search_POST.ts:26 | the text of the tags column is enclosed in `{` and `}` |
| SearchHandler.PieceOccursInJoin | endpoints/notes/search_POST.ts:26 | each array element's text occurs in the joined array text |
| SearchHandler.TagOccurs | endpoints/notes/search_POST.ts:26 | a tag without `"` or `\` appears verbatim in the tag text |
| SearchHandler.Matches | endpoints/notes/search_POST.ts:20-28 | definition (corrected): the query occurs, ignoring case, in the title, the content or the tags' text |
| SearchHandler.MatchesAsWritten | endpoints/notes/search_POST.ts:20-28 | definition: the three `ILIKE '%query%'` tests on title, content and the tags' text, with the query's `%`, `_` and `\` active |
| SearchHandler.TagHitMatches | endpoints/notes/search_POST.ts:26 | a query found, ignoring case, in one such tag finds the note |
| SearchHandler.BraceMatchesEveryNote | endpoints/notes/search_POST.ts:26 | the query `{` finds every note, tags or not, because the tag text starts with it |
| SearchHandler.Search | endpoints/notes/search_POST.ts:7-42 | an unparsable body is a 500; schema issues are a 400; the empty query is `[]` without a statement; a throwing statement is a 500; otherwise exactly the matching notes, each as often as stored, newest first; never a 404 (corrected: the match is a plain substring test; the code as written is under ## Findings) |
| SearchHandler.SearchFiltersList | endpoints/notes/search_POST.ts:18-30 | a successful search answers the list `GET /notes` answers, with the non-matching notes removed and the order kept |
| SearchHandler.AsWrittenAgreesOnPlainQueries | endpoints/notes/search_POST.ts:22-27 | for a query with no `%`, `_` or `\` the statement as written finds exactly the notes the substring match finds |
| SearchHandler.UnderscoreFindsNoteWithoutUnderscore | endpoints/notes/search_POST.ts:23 | the statement as written finds a note titled "abc" for the query `_`, which does not occur in it |
| Ilike.CompileFailsIff | endpoints/notes/search_POST.ts:23 | `CompileLike` rejects a pattern exactly when it ends in an odd number of `\`; the model rejects it before matching, where PostgreSQL errs only when the matcher reaches the lone escape |
| Ilike.LikeMatches | endpoints/notes/search_POST.ts:23 | definition: the whole text matches the pattern, `%` standing for any run of characters, `_` for any one, other elements for themselves |
| Ilike.SearchPatternCompiles | endpoints/notes/search_POST.ts:23 | the pattern `%query%` compiles for every query; a trailing `\` escapes the closing `%` |
| Ilike.IlikePlain | endpoints/notes/search_POST.ts:23 | for a query without LIKE metacharacters, `ILIKE '%q%'` is the case-insensitive substring test |
| Ilike.UnderscoreMatchesAnyChar | endpoints/notes/search_POST.ts:23 | the query `_` matches exactly the non-empty texts under ILIKE, "abc" among them, though `_` does not occur in "abc" |
| Ilike.PercentMatchesEverything | endpoints/notes/search_POST.ts:23 | the query `%` matches every text, the empty one included |
| NotesQueries.PatchUpdate | helpers/useNotesQueries.tsx:36-43 | no cached list stays none; otherwise the same length, each note with the returned id replaced by the returned note, all others unchanged and in place |
| NotesQueries.PatchDelete | helpers/useNotesQueries.tsx:55-60 | no cached list stays none; otherwise the notes whose id differs from the deleted one, in their order |
| NotesQueries.PatchDeleteIdempotent | helpers/useNotesQueries.tsx:58 | applying the delete patch twice equals applying it once |
| NotesQueries.PatchUpdateIdempotent | helpers/useNotesQueries.tsx:39-41 | applying the update patch twice equals applying it once |
| NotesQueries.UpdatePatchAgreesWithRefetch | helpers/useNotesQueries.tsx:33-43 | patching the cached list with the note an update returned gives the list a refetch would answer |
| NotesQueries.DeletePatchAgreesWithRefetch | helpers/useNotesQueries.tsx:52-60 | filtering the deleted id from the cached list gives the list a refetch would answer |
| NotesQueries.QueryCache.Fetched | helpers/useNotesQueries.tsx:11-17 | the list query stores the listed notes and is fresh |
| NotesQueries.QueryCache.CreateSucceeded | helpers/useNotesQueries.tsx:23-25 | a create only marks the entry stale; the cached list is not patched |
| NotesQueries.QueryCache.UpdateSucceeded | helpers/useNotesQueries.tsx:33-44 | an update marks the entry stale and applies the update patch |
| NotesQueries.QueryCache.DeleteSucceeded | helpers/useNotesQueries.tsx:52-61 | a delete marks the entry stale and applies the delete patch with the acknowledged id |
| NotesQueries.QueryCache.SearchSucceeded | helpers/useNotesQueries.tsx:65-72 | a search leaves the entry and its staleness as they were |
| Text.Trim | pages/_index.tsx:16 | the result has no white space at either end, is a contiguous slice of the input, leaves a trimmed input unchanged, and is empty exactly when the input is all white space; it sits in the input with nothing but white space before and after it |
| Text.TrimUnique | pages/_index.tsx:16 | any slice of the input with no white space at its ends and nothing but white space around it is the trimmed text, so the contract of `Trim` determines its result |
| Text.Split | components/NoteCard.tsx:127 | at least one piece, none containing the separator |
| Text.JoinSplit | components/NoteCard.tsx:127 | joining the pieces of a split with the separator gives the text back |
| Text.SplitJoin | components/NoteCard.tsx:125-127 | splitting the join of separator-free pieces gives the pieces back |
| Text.Lower | endpoints/notes/search_POST.ts:23 | same length, each character lower-cased (ASCII letters only) |
| Text.ContainsIgnoringCase | endpoints/notes/search_POST.ts:16 | definition: the lower-cased query occurs in the lower-cased text |
| Text.OccursAt | endpoints/notes/search_POST.ts:23 | the substring test holds exactly when some position starts a copy of the query |
| TagText.Clean | components/NoteCard.tsx:127 | trimmed, non-empty pieces, no more than went in |
| TagText.CleanMembers | components/NoteCard.tsx:127 | the kept tags are exactly the trimmed pieces that are not blank |
| TagText.CleanSingle | components/CreateNoteSheet.tsx:100 | one piece is kept, trimmed, exactly when it is not blank |
| TagText.CleanConcat | components/CreateNoteSheet.tsx:100 | cleaning keeps the order of the pieces: it distributes over concatenation |
| TagText.CleanWellFormed | components/NoteCard.tsx:127 | cleaning comma-free pieces gives well-formed tags |
| TagText.ParseTags | components/NoteCard.tsx:127 | every parsed tag is non-empty, comma-free and trimmed |
| TagText.JoinTags | components/NoteCard.tsx:125 | definition: the tags joined with `", "` |
| TagText.ParseJoinRoundTrip | components/NoteCard.tsx:125-127 | parsing the `", "`-joined text of well-formed tags gives the same tags back |
| TagText.ParseIdempotent | components/NoteCard.tsx:125-128 | showing a parsed list and parsing it again changes nothing |
| TagText.TrailingCommaErased | components/CreateNoteSheet.tsx:98-101 | a comma typed at the end of the tags field leaves the field showing what it showed before |
| TagText.TrailingSpaceErased | components/CreateNoteSheet.tsx:100 | a space typed after a tag is trimmed away, leaving that one tag |
| TagText.ParseOne | components/CreateNoteSheet.tsx:98-100 | a single well-formed tag is shown as itself and parses back to itself |
| TagText.ShownAfterTyping | components/CreateNoteSheet.tsx:98-101 | definition: the field as written, re-parsed and re-joined after every key |
| TagText.ShownIsNormal | components/CreateNoteSheet.tsx:98-101 | after any key the field as written shows a list in normal form: parsing and joining it again changes nothing |
| TagText.TypingTwoTagsAsWritten | components/CreateNoteSheet.tsx:98-106 | typing the two tags `a, b` key by key into the empty field as written leaves it showing the one tag `ab`, though `a, b` is how the field shows those two tags |
| TagText.TypedText | components/CreateNoteSheet.tsx:98-101 | corrected field: after typing, the field holds exactly what it held followed by the keys |
| TagText.TypedListParsedOnSubmit | components/CreateNoteSheet.tsx:100 | corrected field: typing a list of well-formed tags the way the field shows lists, then parsing once on submit, gives that list |
| JsonText.EscapeChar | components/NoteCard.tsx:81 | every escape is one to six characters and never starts with `"` |
| JsonText.EscapeCharDecodes | components/NoteCard.tsx:81 | every escape reads back as the character it stands for, whatever follows it |
| JsonText.StringifyStrings | components/NoteCard.tsx:81 | the text of a string list starts with `[` and ends with `]`; by definition each item is quoted and escaped and the items are separated by `,` |
| JsonText.StringifyInjective | components/NoteCard.tsx:81 | two string lists have the same JSON text exactly when they are equal |
| NoteCardModel.Preview | components/NoteCard.tsx:168 | content up to 150 characters is shown whole; longer content as its first 150 characters followed by `...` |
| NoteCardModel.FormOf | components/NoteCard.tsx:32-39 | the edit form starts with the note's title, content and tags |
| NoteCardModel.HasChanged | components/NoteCard.tsx:79-81 | definition: title or content differ, or the `JSON.stringify` texts of the tag lists differ |
| NoteCardModel.HasChangedIff | components/NoteCard.tsx:79-81 | `hasChanged` holds exactly when title, content or tag list differ from the note's |
| NoteCardModel.SaveRequest | components/NoteCard.tsx:49-52 | a save is sent exactly when the title is non-empty, as `{id: note.id}` with all three form values |
| NoteCardModel.SaveRequestAccepted | components/NoteCard.tsx:49-52 | what the card sends carries update data and passes the server's schema unchanged |
| NoteCardModel.EntersEditModeAsWritten | components/NoteCard.tsx:65-72 | definition: not editing, and no element from the target up to and including the card root matches the selector |
| NoteCardModel.EntersEditMode | components/NoteCard.tsx:65-72 | definition (corrected): not editing, and no element from the target up to the card root, excluded, matches the selector |
| NoteCardModel.CardClickNeverEdits | components/NoteCard.tsx:65-72 | as written, no click on the card enters edit mode |
| NoteCardModel.CardClickEdits | components/NoteCard.tsx:65-72 | with the corrected test, a click on the card's surface or plain text enters edit mode and a click on a badge does not |
| NoteCardModel.NoteCard.constructor | components/NoteCard.tsx:26-39 | a card starts out of edit mode with the note's form |
| NoteCardModel.NoteCard.NoteChanged | components/NoteCard.tsx:41-47 | a new note resets the form to it and keeps the mode |
| NoteCardModel.NoteCard.CardClick | components/NoteCard.tsx:65-72 | a click enters edit mode exactly when no control lies between the target and the card; editing stays on; the form is untouched (corrected: the code as written is under ## Findings) |
| NoteCardModel.NoteCard.EditTitle | components/NoteCard.tsx:103 | only the form's title changes |
| NoteCardModel.NoteCard.EditContent | components/NoteCard.tsx:114 | only the form's content changes |
| NoteCardModel.NoteCard.EditTags | components/NoteCard.tsx:126-129 | only the form's tags change, to the well-formed parse of the field's text |
| NoteCardModel.NoteCard.TagsField | components/NoteCard.tsx:125 | the shown text parses back to the form's tags when they are well formed |
| NoteCardModel.NoteCard.Submit | components/NoteCard.tsx:98 | the Save button sends the save request for the current form |
| NoteCardModel.NoteCard.MouseDown | components/NoteCard.tsx:74-92 | outside the card while editing, a changed form sends the save request and stays in edit mode, and an unchanged one leaves edit mode without a request; any other mouse-down does nothing |
| NoteCardModel.NoteCard.SaveSettled | components/NoteCard.tsx:50-55 | a successful save leaves edit mode; a failed one changes nothing |
| NoteCardModel.NoteCard.Cancel | components/NoteCard.tsx:137 | Cancel leaves edit mode and keeps the form |
| NoteCardModel.NoteCard.Delete | components/NoteCard.tsx:59-63 | a delete of the note's id is requested exactly when the user confirms |
| CreateNoteSheetModel.CreateRequest | components/CreateNoteSheet.tsx:45-46 | a create is sent exactly when the title is non-empty, with the form's title, content and tags |
| CreateNoteSheetModel.CreateRequestAccepted | components/CreateNoteSheet.tsx:45-46 | what the sheet sends passes the server's schema unchanged |
| CreateNoteSheetModel.CreateNoteSheet.constructor | components/CreateNoteSheet.tsx:33-43 | the sheet starts closed with an empty title, empty content and no tags |
| CreateNoteSheetModel.CreateNoteSheet.SetOpen | components/CreateNoteSheet.tsx:58 | opening or closing keeps the form |
| CreateNoteSheetModel.CreateNoteSheet.EditTitle | components/CreateNoteSheet.tsx:76 | only the form's title changes |
| CreateNoteSheetModel.CreateNoteSheet.EditContent | components/CreateNoteSheet.tsx:88 | only the form's content changes |
| CreateNoteSheetModel.CreateNoteSheet.EditTags | components/CreateNoteSheet.tsx:99-102 | only the form's tags change, to the well-formed parse of the field's text |
| CreateNoteSheetModel.CreateNoteSheet.Submit | components/CreateNoteSheet.tsx:62 | the submit sends the create request for the current form |
| CreateNoteSheetModel.CreateNoteSheet.SubmitSettled | components/CreateNoteSheet.tsx:45-54 | success clears the form and closes the sheet; failure keeps both |
| CreateNoteSheetModel.CreateNoteSheet.Cancel | components/CreateNoteSheet.tsx:112 | Cancel closes the sheet and keeps the form |
| IndexPageModel.ByMode | pages/_index.tsx:24-25 | in search mode the page takes the search's value (its results, its pending flag), otherwise the list query's (all notes, its fetching flag) |
| IndexPageModel.IndexPage.constructor | pages/_index.tsx:13 | search mode starts off |
| IndexPageModel.IndexPage.HandleSearch | pages/_index.tsx:15-25 | search mode turns on exactly when the query is not all white space; then the untrimmed, non-empty query is dispatched, the results are shown with the search's loading flag; otherwise nothing is dispatched and all notes are shown |

## Findings

| source | as written | input that shows it | evidently intended | confidence | as-written member | corrected member |
|---|---|---|---|---|---|---|
| endpoints/notes/search_POST.ts:23-26 | the query is pasted into `ILIKE '%query%'` unescaped, so `%`, `_` and `\` in it act as LIKE wildcards and escape | the query `_` against a note titled "abc" (no tags, empty content): the statement finds it, though `_` occurs nowhere in the note | a case-insensitive substring match of the query as typed, as the handler's own comment says | high, not executed | SearchHandler.UnderscoreFindsNoteWithoutUnderscore | SearchHandler.Search |
| components/NoteCard.tsx:68 | `closest('button, [role="button"], [data-badge]')` starts at the clicked element and climbs past the card, whose own element has `role="button"` (line 151), so it always matches and the handler always returns | any click on the card's title, content or surface: edit mode is never entered | enter edit mode unless the click landed on a button or badge inside the card | high, not executed | NoteCardModel.CardClickNeverEdits | NoteCardModel.NoteCard.CardClick |
| components/CreateNoteSheet.tsx:98-101 | the tags field shows the parsed list joined with `", "` and re-parses on every change, so a comma or a space typed at the end is erased at once (the same at NoteCard.tsx:125-128) | typing `a, b` key by key into the empty field: it shows `a`, `a`, `a`, then `ab`, one tag instead of two | tags typed "separated by commas", as the placeholder (line 97) and the description (line 106) say | high, not executed | TagText.TypingTwoTagsAsWritten | TagText.TypedListParsedOnSubmit |

## Left out

- The tags fields of the card and the sheet: `EditTags` in both classes receives the whole text of the field and stores its parse, which models the field as written. The corrected field of the third Finding, which keeps the typed text and parses it on submit, is modelled only by `TagText.TypedText` and `TagText.TypedListParsedOnSubmit`. Turning it into state would need a text field in the form values.
- `Note.tags` is never null in the model. The card guards against null (`note.tags || []`), but create always writes a list (`tags ?? []`) and update only writes a validated list.
- The transport: fetching, headers and superjson encoding are not modelled. A body is either undecodable, carrying the decoder's message, or a decoded value.
- Explicit `undefined` values in a body are not modelled. JSON has none; superjson can carry them.
- Validation.StringArrayField: reports a bad tags value as one issue on the key. zod reports one issue per bad element, with the element's index in its path.
- The text of zod's issue messages other than the schemas' own `.min` messages is not modelled. A 400's payload is the list of issues, not zod's JSON rendering of it.
- Rows.SortNewestFirst: keeps rows with equal `createdAt` in table order. The database leaves their order open.
- Timestamps are integers. Their precision in the database, time zones and `toLocaleDateString` are not modelled.
- NotesTable.Table.Create: assumes `nanoid()` never collides with a stored id. It requires the id to be fresh instead of modelling a key violation.
- Text.Lower: folds only the ASCII letters. The database's `ILIKE` folds case by its locale.
- Strings are sequences of code points. JavaScript's `length` and `substring` count UTF-16 units, so `NoteCardModel.Preview` differs for text outside the Basic Multilingual Plane. Lone surrogates (escaped by `JSON.stringify`) do not exist in the model.
- SearchHandler.TagsText: models the array printer's quoting of elements. A query that contains `"` or `\` and matches a tag holding one of them does not match its escaped form. `TagHitMatches` is stated for tags without those characters.
- Disabling the Save buttons while a mutation is pending, and overlapping mutations, are not modelled. There is no concurrency in the model.
- react-query's scheduling of refetches after an invalidation is not modelled. A refetch is the `QueryCache.Fetched` call, and `UpdatePatchAgreesWithRefetch` and `DeletePatchAgreesWithRefetch` state what it finds.
- Several browser facts are not modelled, only their outcome: the DOM tree, `cardRef` and the mouse events. A click is the list of elements between the target and the card; a mouse-down is whether it lands outside the card. `window.confirm` is its answer.
- The form library's error display and field messages are not modelled. A submit that fails the schema sends nothing.
- Rendering, styling, the note grid, the search bar with its debounce, the layout and the build configuration are not part of this model. So is the logging of errors to the console.
