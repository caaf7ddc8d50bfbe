# MeetTask-Tracker core in Dafny

MeetTask-Tracker turns a meeting transcript into a list of action items. The
server sends the transcript to a language model and normalises the items in
its reply. It stores the transcript with its items as one document and lets
the user add, edit and delete single items. The transcript page of the client
shows counts and a filtered, sorted task list.

This project models four parts of that system and proves what each promises:

- **The normaliser** (`FormatItems`, over `JsValue` and `JsString`). It keeps
  a candidate item only when its task is a non-blank string, and trims the
  task and the owner. It keeps a due date only when it has the shape
  `dddd-dd-dd`, and keeps `done` only when it is a boolean.
  - Proved: the output list is the in-order concatenation of the kept
    records, every record is clean, and normalising twice changes nothing.
  - Proved: a blank transcript never consults the model, and empty or
    unparsable replies give no items.
- **The document schema** (`TranscriptModel`). The field rules of the action
  item and transcript schemas are predicates: lengths in UTF-16 units,
  trimmed strings, the date pattern, and the defaults.
  - Proved: the normaliser keeps one-character tasks, which the schema's
    minimum length of 2 refuses. Because `saveTranscript` has no `catch`,
    such a reply makes the handler's promise reject (see
    `TranscriptStore.Store.SaveTranscript`).
- **The controllers** (`TranscriptStore`). A `Store` class holds the
  documents as a map from id to document. It has one method per handler, and
  each method states the status and body of every branch, in the handler's
  order of checks. The store invariant is preserved by every handler: each
  document passes the schema, item ids are distinct, and no future id is in
  use.
  - Proved: the recent-transcripts listing is the newest `limit` documents in
    descending creation order.
  - Proved: a failed request leaves the store unchanged, and an item deleted
    once is not found the second time.
- **The task view** (`TaskView`). The `stats` and `filtered` memos of the
  transcript page are functions. The status, query and due-range filters are
  specified by membership. The sort is a stable insertion sort by the page's
  comparator.
  - Proved: the comparator is a strict order, the result is sorted, open
    items come before done ones, and due dates ascend within a status with
    undated items last.
  - Proved: the whole list is a reordering of a sub-multiset of the items.

Values in requests and model replies are JSON values plus `undefined`, as
`JsValue.Value`. A property missing from a body is `Undefined`. JavaScript
truthiness and `?.` are written out in `JsValue`; `trim` (with the ECMAScript
white-space set), `length` in UTF-16 code units, `toLowerCase` and
`includes` are written out in `JsString`.

Fixed-schema `trim: true` setters are modelled by trimming at every write.
The server code never writes a value that the setter would change further.

## Model

| member | source | states |
|---|---|---|
| JsString.TrimSpec | server/Services/format_Items_Ai.js:24 | `trim` keeps a contiguous middle part of its input, with no white space at either end, and everything it drops before and after that part is white space. The result is empty exactly when the input is all white space |
| JsString.TrimIdempotent | server/Services/format_Items_Ai.js:30 | trimming a trimmed string changes nothing |
| JsString.TrimNonEmpty | server/Services/format_Items_Ai.js:24 | `s.trim().length > 0` exactly when `s` has a character that is not white space |
| JsString.Utf16Length | server/model/Transcript.js:9-10 | `length` counts UTF-16 units: between the number of characters and twice that, and 0 only for the empty string |
| JsString.DatePatternIsTrimmed | server/Services/format_Items_Ai.js:33 | a string of the date shape is unchanged by `trim` |
| FormatItems.NonEmptyStringMeaning | server/Services/format_Items_Ai.js:23-25 | `isNonEmptyString(v)` holds exactly when v is a string containing a non-white-space character |
| FormatItems.NormalizeDueDate | server/Services/format_Items_Ai.js:27-36 | the result is present exactly when v is a string whose trim has the `dddd-dd-dd` shape, and it is then that trim. There is no calendar check |
| FormatItems.NormalizeDueDateFixesDates | server/Services/format_Items_Ai.js:27-36 | a well-shaped date is kept as it is |
| FormatItems.NormalizeItem | server/Services/format_Items_Ai.js:38-50 | null exactly when the task is not a non-blank string. Otherwise: the task is the trimmed input; the owner is the trimmed input when non-blank, else null; the due date is normalised; `done` holds only for `done === true`; the record is clean |
| FormatItems.NormalizeList | server/Services/format_Items_Ai.js:52-60 | the loop returns the in-order list of kept records: nothing for a non-array, no more records than inputs, each clean with a non-empty task |
| FormatItems.CleanEachAppend | server/Services/format_Items_Ai.js:54-59 | normalising a concatenation concatenates the normalised parts, so the output keeps the input order |
| FormatItems.CleanEachOrigin | server/Services/format_Items_Ai.js:54-59 | every output record is the normalisation of some input element |
| FormatItems.CleanEachKeepsAll | server/Services/format_Items_Ai.js:56-57 | when every input normalises, nothing is dropped |
| FormatItems.NormalizeItemFixesClean | server/Services/format_Items_Ai.js:38-50 | normalising a clean record gives it back |
| FormatItems.CleanEachFixesClean | server/Services/format_Items_Ai.js:52-60 | normalising a list of clean records gives it back |
| FormatItems.CleanListIdempotent | server/Services/format_Items_Ai.js:38-60 | `normalizeList(normalizeList(x))` equals `normalizeList(x)` |
| FormatItems.ExtractActionItems | server/Services/format_Items_Ai.js:63-120 | a blank or non-string transcript gives `[]`; the promise rejects exactly when the model call fails; empty content or a parse failure gives `[]`; a parsed reply gives the normalised list of its `items`; all items returned are clean |
| FormatItems.BlankTranscriptIgnoresModel | server/Services/format_Items_Ai.js:64-66 | for a blank transcript the reply and the parser make no difference |
| FormatItems.ShipScenario | server/Services/format_Items_Ai.js:38-50 | a padded task is trimmed, an empty owner becomes null, a 13th-month date of the right shape is kept, and a non-boolean `done` becomes false |
| TranscriptModel.CleanItemValidity | server/model/Transcript.js:5-23 | a normalised record passes the item schema exactly when its task has 2 to 500 UTF-16 units and its owner at most 120 |
| TranscriptModel.OneCharacterTaskIsRefused | server/model/Transcript.js:9 | the normaliser keeps the task "x", and the schema refuses it |
| TranscriptModel.AppendIds | server/model/Transcript.js:30 | appending an item with a fresh id keeps item ids distinct and adds exactly that id |
| TranscriptStore.EffectiveLimit | server/Controllers/transcriptControllers.js:8 | the limit is `Number(limit)`, with 5 for NaN and 0, otherwise the absolute value; always positive |
| TranscriptStore.RecentHeaders | server/Controllers/transcriptControllers.js:10-11 | the listing holds min(limit, count) distinct documents, newest first, and no document left out is newer than one listed |
| TranscriptStore.NewestExists | server/Controllers/transcriptControllers.js:11 | every non-empty set of documents has a newest one |
| TranscriptStore.IndexOf | server/Controllers/transcriptControllers.js:99 | `actionItems.id(id)` finds the first item with that id, and finds none exactly when no item has it |
| TranscriptStore.IndexOfUnique | server/Controllers/transcriptControllers.js:126 | with distinct ids, the lookup finds an item at its own position |
| TranscriptStore.RemoveAtSpec | server/Controllers/transcriptControllers.js:102 | deleting an item keeps the others in order, removes exactly one copy of it, and removes exactly its id |
| TranscriptStore.ReplaceKeepsIds | server/Controllers/transcriptControllers.js:133-147 | editing an item in place keeps the ids distinct and unchanged |
| TranscriptStore.OwnerField | server/Controllers/transcriptControllers.js:75 | `owner ? owner.trim() : null` throws exactly for a truthy non-string; it is null exactly for a falsy owner, and otherwise the trimmed string |
| TranscriptStore.DueDateField | server/Controllers/transcriptControllers.js:76 | the due-date expression can be stored unless it is a truthy non-string; it is null exactly for a falsy value, and otherwise the string as given |
| TranscriptStore.CastRawText | server/Controllers/transcriptControllers.js:44-47 | the raw text is the string itself, and arrays and objects cannot be cast |
| TranscriptStore.TaskCheckCases | server/Controllers/transcriptControllers.js:67-68 | every task is refused with 400, accepted, or makes `trim` throw; no task is both refused and accepted |
| TranscriptStore.EditChangesOnlySentFields | server/Controllers/transcriptControllers.js:129-148 | an edit changes only the fields the request sends, on one item only, and keeps its id |
| TranscriptStore.RemoveKeepsWellFormed | server/Controllers/transcriptControllers.js:102-104 | removing an item from a valid document leaves it valid without that id, so the save cannot fail |
| TranscriptStore.EditRejection | server/Controllers/transcriptControllers.js:129-148 | the field checks of an edit pass exactly when every sent field can be applied; a non-string task is checked first (500), then a blank task (400); every refusal is a 500 or a 400 |
| TranscriptStore.EditKeepsWellFormed | server/Controllers/transcriptControllers.js:129-150 | an edit that the schema accepts keeps the document's item ids distinct and unchanged |
| TranscriptStore.CreateKeepsInvariant | server/Controllers/transcriptControllers.js:44-47 | creating a valid document with fresh ids for it and its items keeps the store invariant |
| TranscriptStore.AppendKeepsInvariant | server/Controllers/transcriptControllers.js:73-79 | pushing an item with a fresh id and saving a valid result keeps the store invariant |
| TranscriptStore.ReplaceKeepsInvariant | server/Controllers/transcriptControllers.js:150 | saving a valid document whose item ids are among the old ones keeps the store invariant |
| TranscriptStore.Store.Create | server/Controllers/transcriptControllers.js:44-47 | a schema-valid document is stored under the next fresh id, with its items under the ids after it; the invariant holds afterwards |
| TranscriptStore.Store.Append | server/Controllers/transcriptControllers.js:73-79 | the pushed item is stored at the end of the document's items and its fresh id is used up; the invariant holds afterwards |
| TranscriptStore.Store.Replace | server/Controllers/transcriptControllers.js:102-104 | the saved document replaces the stored one under the same id and no fresh id is used; the invariant holds afterwards |
| TranscriptStore.Store.GetTranscripts | server/Controllers/transcriptControllers.js:6-18 | always 200; the ids and creation times of the newest transcripts within the effective limit, newest first |
| TranscriptStore.Store.GetTranscript | server/Controllers/transcriptControllers.js:20-31 | 500 for an id that is not an ObjectId, 404 for a missing document, otherwise 200 with the document |
| TranscriptStore.Store.SaveTranscript | server/Controllers/transcriptControllers.js:34-55 | 400 exactly for a falsy transcript. A truthy transcript gives either 200 or a rejected promise (`Unhandled`), never a 400: a failed model call, a text that cannot be cast or a document the schema refuses rejects. 200 exactly when a schema-valid document can be built, and then the document is stored under a fresh id with the trimmed text and the normalised items under fresh ids, and the response echoes the items. Anything but 200 leaves the store unchanged |
| TranscriptStore.Store.AddTask | server/Controllers/transcriptControllers.js:60-86 | checks in order: 400 for a bad id; 400 for a falsy task or a trim shorter than 2; 500 when a non-string task has no `trim`; 404 for a missing transcript; 500 when the owner has no `trim`, the due date cannot be stored, or the schema fails. Otherwise 201: the document's items are the old ones plus one item at the end, which has a fresh id and `done` false because the schema defaults it (server/model/Transcript.js:24-27). The store changes only on 201 |
| TranscriptStore.Store.EditTask | server/Controllers/transcriptControllers.js:116-157 | checks in order: 400 for bad ids; 404 for a missing transcript or item; 500 for a non-string task; 400 for a blank task; 500 for a non-string truthy owner; 400 for a non-boolean `done`; 500 for an unstorable due date or a schema failure. Otherwise 200, with only the sent fields changed. The store changes only on 200 |
| TranscriptStore.Store.DeleteTask | server/Controllers/transcriptControllers.js:89-111 | 400 for bad ids; 404 for a missing transcript or item; otherwise 200, with exactly that item removed; never 500 |
| TranscriptStore.DeleteTaskTwice | server/Controllers/transcriptControllers.js:99-100 | once an item is deleted, deleting it again gives 404 "Task not found" |
| TaskView.ComputeStats | client/src/pages/TranscriptDetails.jsx:81-85 | `total` is the item count, `done` the number of done items, and `open + done == total` with `open` not negative |
| TaskView.StatsMatchStatusFilter | client/src/pages/TranscriptDetails.jsx:81-95 | `stats.done` and `stats.open` are the lengths of the "done" and "open" views |
| TaskView.Filter | client/src/pages/TranscriptDetails.jsx:90-108 | `filter` keeps exactly the members that pass, each as many times as the input has it, and drops every copy of the others; when all pass it keeps the list, and when none do it gives `[]` |
| TaskView.StatusFilterSpec | client/src/pages/TranscriptDetails.jsx:91-95 | "open" shows exactly the open items, "done" exactly the done ones, and any other status shows all |
| TaskView.QueryFilterSpec | client/src/pages/TranscriptDetails.jsx:96-100 | a blank query keeps all items; otherwise an item is kept exactly when its lower-cased "task owner" contains the lower-cased trimmed query |
| TaskView.TaskMatchesItself | client/src/pages/TranscriptDetails.jsx:96-100 | an item is found by searching for its own task |
| TaskView.DueFilterSpec | client/src/pages/TranscriptDetails.jsx:101-108 | with no bound all items are kept; otherwise exactly the dated items with from ≤ date ≤ to, each bound applying only when set |
| TaskView.EmptyRange | client/src/pages/TranscriptDetails.jsx:105-107 | a range whose end is before its start shows nothing |
| TaskView.LexLessTransitive | client/src/pages/TranscriptDetails.jsx:104-107 | the date order is transitive |
| TaskView.LexLessTotal | client/src/pages/TranscriptDetails.jsx:104-107 | of two different dates one is earlier |
| TaskView.LexLessIrreflexive | client/src/pages/TranscriptDetails.jsx:104-107 | no date is earlier than itself |
| TaskView.PrecedesTransitive | client/src/pages/TranscriptDetails.jsx:109-114 | the comparator's "before" is transitive |
| TaskView.PrecedesAsymmetric | client/src/pages/TranscriptDetails.jsx:109-114 | no two items each come before the other |
| TaskView.Insert | client/src/pages/TranscriptDetails.jsx:109-114 | one insertion step adds exactly the new item |
| TaskView.InsertSorted | client/src/pages/TranscriptDetails.jsx:109-114 | inserting into a sorted list keeps it sorted |
| TaskView.SortForView | client/src/pages/TranscriptDetails.jsx:109-114 | the sort is a permutation of its input |
| TaskView.SortForViewSorted | client/src/pages/TranscriptDetails.jsx:109-114 | the sort's output has no item after one the comparator puts after it |
| TaskView.SortKeepsMembers | client/src/pages/TranscriptDetails.jsx:109-114 | sorting neither adds nor drops an item |
| TaskView.OpenBeforeDone | client/src/pages/TranscriptDetails.jsx:110 | in the sorted list every open item precedes every done item |
| TaskView.DueDatesAscending | client/src/pages/TranscriptDetails.jsx:111-113 | for items of the same status, due dates ascend and undated items come last |
| TaskView.FilterCompose | client/src/pages/TranscriptDetails.jsx:90-108 | filtering in stages, one filter after another, equals filtering once by their conjunction |
| TaskView.FilteredSpec | client/src/pages/TranscriptDetails.jsx:87-115 | the filtered list is sorted, has the same multiset as filtering the items once by all three filters together (so it is a sorted reordering of a sub-multiset of the items), and holds exactly the items that pass all three filters |
| TaskView.NoFilterShowsAll | client/src/pages/TranscriptDetails.jsx:87-115 | with no filter set, the page shows every item, sorted |

## Left out

- The language-model call (server/Services/format_Items_Ai.js:90-106) is a network call. Its outcome is the parameter `completion`, and `JSON.parse` is the parameter `jsonParse`.
- Mongo persistence is an in-memory map. `findById`, `save` and `create` are map lookups and updates, and each handler runs atomically; interleaved concurrent requests are not modelled.
- `mongoose.Types.ObjectId.isValid` is the uninterpreted parameter `isValidObjectId`. Ids are compared as the values sent, without Mongo's canonical ObjectId form, and fresh ObjectIds come from an injective `mint`.
- `TranscriptStore.Store.SaveTranscript`: when the handler's promise rejects (`Unhandled`: a failed model call, a cast failure or a schema failure, none of which it catches), what the framework then does is not modelled. Depending on the Express and Node versions, the client may get a 500, or the server process may end.
- `TranscriptStore.Store.SaveTranscript`: a non-string transcript is cast the way Mongoose casts strings in only three cases. A number uses the parameter `numberText`, a boolean becomes "true" or "false", and arrays and objects count as cast failures. Other Mongoose cast rules are not modelled.
- `TranscriptStore.DueDateField`: every truthy non-string due date is taken to fail at save. Mongoose's string cast of other values is not modelled. For example, it stores the `_id` of an object whose `_id` is a string, so `{"_id": "2025-01-01"}` is saved by `add_task` and `edit_task`, while `TranscriptStore.Store.AddTask` and `TranscriptStore.Store.EditTask` answer 500 for it. Which Mongoose error reports a failure is not modelled either.
- Timestamps: `createdAt` is the caller-supplied `now`. `updatedAt` and the per-item timestamps are not modelled.
- `TranscriptStore.EffectiveLimit`: `Number()` is taken to return an integer or NaN. Its string grammar and fractional limits are not modelled.
- `TaskView.LexLess`: due dates and range bounds are compared as strings. That equals `new Date(...).getTime()` for valid `YYYY-MM-DD` dates. A well-shaped but impossible date (the server accepts "2025-13-40") is, depending on the JavaScript engine, NaN or a rolled-over date in the client (V8 reads "2025-02-30" as 2 March). The due filter and the sort may then treat it differently from string order. That case is not modelled.
- `TaskView.SortForView`: the sort is a stable insertion sort, but stability itself is not stated as a lemma.
- `JsString.ToLower`: only ASCII letters are lower-cased. Unicode case mapping is not modelled.
- `JsString.Utf16Length`: a Dafny `char` is a Unicode scalar value, so strings holding lone surrogates cannot be represented.
- Logging (`console.log`, `console.error`) is left out, as it does not affect responses.
- Left out as outside the core: HTTP wiring and routes, the health checks, email sending, the client's fetch handlers, effects and rendering, and date formatting.
