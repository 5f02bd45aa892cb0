# holger.ai bookmark manager — a verified model of its core

This project models the core of a desktop bookmark manager in Dafny. The app
is a Tauri shell with a Svelte front end. It keeps bookmarks and projects in
a JSON document on disk. The model covers:

- the **bookmark store** (`src/lib/store.svelte.ts`, modules `Store` and
  `StoreOps`). It holds the open document and the session flags `filePath`,
  `dirty`, `saving`, `error` and `lastSaveAt`. It covers the create, update
  and delete operations on bookmarks and projects, with the shared id counter
  and referential integrity. It also covers the save / save-as / new / open
  lifecycle, and the watch on the backing file that reloads external edits
  but ignores the echo of the store's own writes;
- the **record types** and the empty document (`src/lib/types.ts`, module
  `Types`);
- the **settings store** (`src/lib/settings.svelte.ts`, module `Settings`):
  - load-time defaulting of the four settings;
  - the write-time encoding, where an empty API key is dropped;
  - the setters;
  - the watch on the settings file;
- **fuzzy search scoring** (`fuzzyScore` in `src/lib/utils.ts`, module
  `Utils`);
- the **string helpers of the Rust back end** (`src-tauri/src/lib.rs`):
  - `<title>` extraction with entity decoding and the host fallback
    (module `PageTitle`);
  - the HTML tag stripper, whitespace collapse, truncation and prompt
    substitution (module `HtmlText`);
  - the `generateContent` model filter (module `GeminiModels`);
  - the command-line choice of the initial file and the take-once
    `get_initial_file` (module `Startup`).

Module `Chars` holds the standard-library string primitives both languages
use. These are lower-casing, whitespace, `indexOf`/`find`, `trim` and
`replace`, all on ASCII. Module `Fs` holds the environment the stores run
against: files by path, `JSON.parse` abstracted to "a value or a syntax
error", and `watch` subscriptions with their `cancelled` flags.

## How the model is built

Each source class is a Dafny `class` with the same fields:

- `BookmarkStore`;
- `SettingsStore`;
- `AppState`.

Their methods change those fields in place and say so in `modifies`. Every
`BookmarkStore` lifecycle method is proved to move the fields exactly as a
step function on a snapshot (`Store.Session`) prescribes. The step functions
are `PersistStep`, `SaveAsStep`, `OpenStep`, `EventStep` and so on. What the
steps promise is then proved as lemmas: outcomes of a write, adoption of a
path, echo suppression, external-change adoption and open failures. The
class invariant `BookmarkStore.Valid` includes the watch discipline
`Store.LiveOnlyHandle`: the only live subscription is the one `unwatchFn`
reaches. Every method keeps it except `SaveAsAsWritten`, the code of
`saveAs` as written (see "## Findings"), which keeps only the weaker
`HandleOk`. The create/update/delete logic is stated on `Data` values in `StoreOps` and
applied by the class methods.

Loops become methods with invariants, proved against a reference function:

- the `fuzzyScore` loop (`Utils.SubsequenceScore` against the greedy
  matcher `Greedy`);
- the tag-stripping loop (`HtmlText.StripTags` against the state machine
  `Run`).

Expression-only code becomes functions and lemmas:

- title extraction;
- entity decoding;
- whitespace collapse;
- the model filter;
- the initial-file choice.

What the environment supplies is passed in as parameters:

- time, as `nowMs`;
- the save dialog's answer, as `chosen`;
- the outcome of a write, as `fault`;
- the file contents, as a `FileSystem` object;
- the HTTP response and the URL's host.

## Model

| member | source | states |
|---|---|---|
| `StoreOps.EmptyDataWellNumbered` | src/lib/types.ts:24-28 | The empty document has counter 0 and no records, so it satisfies the id discipline and id 1 is free. |
| `StoreOps.LoadAfterWrite` | src/lib/store.svelte.ts:96-101 | Reading back a document the store wrote gives that document. |
| `StoreOps.LoadMissingFields` | src/lib/store.svelte.ts:98-100 | For every parsed file, a missing counter loads as 0 and a missing list as empty. Fields that are present are kept. A file lacking all three fields loads as the empty document. |
| `StoreOps.LoadSaveLoad` | src/lib/store.svelte.ts:96-101 | Loading, writing and loading again gives the same document as one load. |
| `StoreOps.FirstIndex` | src/lib/store.svelte.ts:134 | `findIndex`: -1 exactly when no entry has the id; otherwise the first index holding it. |
| `StoreOps.Without` | src/lib/store.svelte.ts:141 | `filter(id !== k)`: keeps exactly the entries whose key is not `k`. It is the identity when no entry has `k`. |
| `StoreOps.WithoutCounts` | src/lib/store.svelte.ts:141 | Each entry keyed `k` is dropped every time it occurs. Every other entry is kept as many times as it occurs. |
| `StoreOps.WithoutUnique` | src/lib/store.svelte.ts:141 | Filtering keeps keys pairwise distinct. |
| `StoreOps.WithoutAppend` | src/lib/store.svelte.ts:141 | Filtering a concatenation filters each part and concatenates the results, so the survivors keep their order. |
| `StoreOps.WithoutSingle` | src/lib/store.svelte.ts:141 | A single entry survives exactly when its key is not `k`. With `WithoutAppend` this fixes the result of every filter. |
| `StoreOps.SortDesc` | src/lib/store.svelte.ts:26-32 | The sort by descending id returns a permutation of its input that is ordered by decreasing id. |
| `StoreOps.ReplaceFirst` | src/lib/store.svelte.ts:134-136 | Only the first slot with the id is overwritten, and the length is kept. With no such slot, nothing changes. |
| `StoreOps.DeleteBookmarkFrom` | src/lib/store.svelte.ts:140-145 | The bookmark list becomes its `Without` filter on the id, so exactly the bookmarks with the id are dropped and the rest keep their order. Each project keeps every field except its list, which becomes that list filtered by the id. The counter is kept. |
| `StoreOps.DeleteProjectFrom` | src/lib/store.svelte.ts:166-167 | The project list becomes its `Without` filter on the id, so exactly the projects with the id are dropped and the rest keep their order. Bookmarks and the counter are untouched. |
| `StoreOps.AddBookmarkFresh` | src/lib/store.svelte.ts:125-131 | The new bookmark gets id old counter + 1, the counter moves to it, and no existing record has that id. The id discipline is kept. |
| `StoreOps.AddProjectFresh` | src/lib/store.svelte.ts:151-157 | The same for a new project, from the same shared counter. |
| `StoreOps.StaleCounterReusesId` | src/lib/store.svelte.ts:96-101 | Loading does not restore the id discipline. Take a file holding a bookmark whose id is the loaded counter + 1 (id 1 when the counter is missing, since it is read as 0). After loading, the next `addBookmark` hands out that id although it is already in use, and neither the loaded nor the resulting document is well numbered. |
| `StoreOps.UpdateBookmarkEffect` | src/lib/store.svelte.ts:133-138 | An absent id changes nothing. Otherwise exactly the first slot with the id becomes the update stamped with the time. Length, ids, projects and counter are kept, and so is the discipline. |
| `StoreOps.UpdateProjectEffect` | src/lib/store.svelte.ts:159-164 | The same for projects. |
| `StoreOps.DeleteBookmarkIntegrity` | src/lib/store.svelte.ts:140-147 | Referential integrity: afterwards no bookmark has the id and no project lists it. The discipline is kept. |
| `StoreOps.DeleteAbsentBookmark` | src/lib/store.svelte.ts:140-145 | Deleting an id that nothing carries or lists leaves the document equal to the old one. |
| `StoreOps.DeleteProjectKeepsNumbering` | src/lib/store.svelte.ts:166-169 | After `deleteProject` no project has the id, and the discipline is kept. |
| `StoreOps.AdditionsAssignIncreasingIds` | src/lib/store.svelte.ts:125-157 | Any sequence of bookmark and project additions hands out the consecutive ids after the old counter. These are strictly increasing and pairwise distinct, and the counter ends at old + number of additions. |
| `StoreOps.AdditionsKeepNumbering` | src/lib/store.svelte.ts:125-157 | Any sequence of additions keeps the discipline, and none of the handed-out ids was in use before. |
| `Store.StopWatch` | src/lib/store.svelte.ts:173-176 | `_stopWatcher` cancels exactly the subscription `unwatchFn` refers to, forgets it, and changes nothing else. From a session keeping the watch discipline, no subscription is live afterwards. |
| `Store.PersistOutcome` | src/lib/store.svelte.ts:45-59 | A write that runs stamps `lastSaveAt` and ends with `saving` false. Success clears `dirty` and `error`. Failure records the reason and keeps `dirty`. Document, path and watches are untouched. |
| `Store.SaveAsAdoptsOnlyOnSuccess` | src/lib/store.svelte.ts:69-81 | A cancelled dialog changes nothing. A successful write adopts the chosen path, clears the flags, cancels the subscription the old handle reached, and watches the new path through the handle; it un-cancels nothing, and a session keeping the watch discipline keeps it. A failed write with a non-empty failure reason keeps the old path and watches (an empty reason is falsy in `if (!this.error)`, see the "## Left out" line for this member). |
| `Store.SaveAsWhileSaving` | src/lib/store.svelte.ts:46 | When `saveAs` runs while a write is in flight and `error` is empty, the chosen path is adopted although nothing was written to it. |
| `Store.EchoOfOwnWriteIgnored` | src/lib/store.svelte.ts:186 | An event arriving less than 500 ms after the store's own write changes nothing, whatever its kind and whatever the file holds. |
| `Store.ExternalChangeAdopted` | src/lib/store.svelte.ts:184-199 | A modify or remove event on a live subscription, 500 ms or more after the last write, replaces the document with the normalised file and clears `dirty`. An unreadable or garbled file leaves the session as it was. |
| `Store.OpenFailureKeepsDocument` | src/lib/store.svelte.ts:93-111 | A failed open keeps document, path and `dirty` and records the failure. It re-watches the old path if there is one. |
| `Store.OpenSuccessWatchesNewPath` | src/lib/store.svelte.ts:93-111 | A successful open adopts the document and the path, clears the flags, cancels the previous subscription and watches the new path. From a session keeping the watch discipline, the new subscription is the only live one. |
| `Store.StaleWatchAfterSaveAs` | src/lib/store.svelte.ts:75-80 | As written, `saveAs` leaves the previous subscription live, so a later edit of the old file replaces the document now bound to the new path. The as-written step thus breaks the watch discipline (`Store.LiveOnlyHandle`). With the corrected step that subscription is cancelled and the event changes nothing. |
| `Store.SaveAsAgreesWithoutHandle` | src/lib/store.svelte.ts:61-91 | With no live `unwatchFn`, as whenever there is no path, the corrected `saveAs` and the code as written give the same session. So `save` and `newFile`, which reach `saveAs` only without a path, behave as the source does. |
| `Store.BookmarkStore.constructor` | src/lib/store.svelte.ts:14-22 | A fresh store: no path, the empty document, no flags, no subscriptions. |
| `Store.BookmarkStore.SortedBookmarks` | src/lib/store.svelte.ts:26-28 | `sortedBookmarks` is a permutation of the bookmarks in decreasing id order. |
| `Store.BookmarkStore.SortedProjects` | src/lib/store.svelte.ts:30-32 | `sortedProjects` is a permutation of the projects in decreasing id order. |
| `Store.BookmarkStore.Persist` | src/lib/store.svelte.ts:45-59 | The fields move as `PersistStep` says. The file at the path holds the encoded document exactly when the write ran and was not refused. |
| `Store.BookmarkStore.Save` | src/lib/store.svelte.ts:61-67 | Without a path it goes through the corrected `saveAs`; otherwise it is `persist` to the current path. Files and settings change accordingly. Without a path there is no live handle, so this is what the code as written does (`Store.SaveAsAgreesWithoutHandle`). |
| `Store.SaveAsStep` | src/lib/store.svelte.ts:69-81 | Definition of the corrected saveAs step on the store's fields; its contract states that the handle, when set, indexes an existing subscription, and that the watch discipline (every live subscription is the one `unwatchFn` reaches) is kept. Its behaviour is fixed by `Store.SaveAsAdoptsOnlyOnSuccess` and `Store.SaveAsAgreesWithoutHandle`. |
| `Store.SaveAsStepAsWritten` | src/lib/store.svelte.ts:69-81 | Definition of the saveAs step as written; its contract states only that the handle, when set, indexes an existing subscription. It does not keep the watch discipline (`Store.StaleWatchAfterSaveAs`). Where it differs from the corrected step is shown under "## Findings". |
| `Store.OpenStep` | src/lib/store.svelte.ts:93-111 | Definition of the open step (read, normalise, clear flags, watch the new path); its contract states that the handle, when set, indexes an existing subscription, and that the watch discipline is kept. |
| `Store.BookmarkStore.SaveAs` | src/lib/store.svelte.ts:69-81 | The fields move as `SaveAsStep` says, with the old subscription stopped. The last-opened file is noted in the settings exactly when the path is adopted; otherwise the settings are untouched. |
| `Store.BookmarkStore.SaveAsAsWritten` | src/lib/store.svelte.ts:69-81 | The code as written: the fields move as `SaveAsStepAsWritten` says, and only the weaker invariant `HandleOk` (handle in range, none without a path) is kept, and every earlier subscription is left exactly as it was. The file written is the one `SaveAs` writes. The last-opened file is noted in the settings exactly when the path is adopted; otherwise the settings are untouched. |
| `Store.BookmarkStore.NewFile` | src/lib/store.svelte.ts:83-91 | Stop watching, reset to the empty unsaved document, then `saveAs`. |
| `Store.BookmarkStore.OpenPath` | src/lib/store.svelte.ts:93-111 | The fields move as `OpenStep` says for what reading the path gives. The path is noted as the last-opened file whether or not the open succeeded. |
| `Store.BookmarkStore.AddBookmark` | src/lib/store.svelte.ts:125-131 | Returns the new bookmark with id old counter + 1, prepends it and sets `dirty`. When the old document is well numbered, the id is fresh and the discipline is kept. Without that, the id can collide (`StoreOps.StaleCounterReusesId`). |
| `Store.BookmarkStore.UpdateBookmark` | src/lib/store.svelte.ts:133-138 | Rewrites the first bookmark with the id. `dirty` is set exactly when such a bookmark existed. |
| `Store.BookmarkStore.DeleteBookmark` | src/lib/store.svelte.ts:140-147 | Afterwards no bookmark has the id and no project lists it. `dirty` is set. |
| `Store.BookmarkStore.AddProject` | src/lib/store.svelte.ts:151-157 | Returns the new project with id old counter + 1, prepends it and sets `dirty`. When the old document is well numbered, the id is fresh and the discipline is kept. |
| `Store.BookmarkStore.UpdateProject` | src/lib/store.svelte.ts:159-164 | Rewrites the first project with the id. `dirty` is set exactly when such a project existed. |
| `Store.BookmarkStore.DeleteProject` | src/lib/store.svelte.ts:166-169 | Drops the projects with the id, leaves bookmarks as they were, and sets `dirty`. |
| `Store.BookmarkStore.StopWatcher` | src/lib/store.svelte.ts:173-176 | Cancels the subscription `unwatchFn` reaches and clears it. |
| `Store.BookmarkStore.WatchFile` | src/lib/store.svelte.ts:178-206 | Adds a live subscription on the path and makes it the one `unwatchFn` reaches. |
| `Store.BookmarkStore.OnFileEvent` | src/lib/store.svelte.ts:184-200 | The callback moves the fields as `EventStep` says for what reading the watched path gives. It needs only `HandleOk`, and keeps the full invariant when it held. |
| `Settings.Encode` | src/lib/settings.svelte.ts:54-59 | The key is left out exactly when it is empty, and the last-opened file is copied. Decoding the result gives back the four values. |
| `Settings.DecodeEmpty` | src/lib/settings.svelte.ts:38-41 | A file without fields loads as the defaults: no last file, empty key, the default model, the default prompt. |
| `Settings.DecodeEncodeDecode` | src/lib/settings.svelte.ts:38-59 | Loading what `_write` wrote gives the loaded values again. A file holding an empty key is not reproduced. |
| `Settings.SettingsStore.constructor` | src/lib/settings.svelte.ts:20-28 | A fresh store holds the defaults, no config path and no subscriptions. |
| `Settings.SettingsStore.Write` | src/lib/settings.svelte.ts:50-64 | Without a config path, nothing happens. Otherwise `lastSaveAt` is stamped and, unless the write is refused, the file holds the encoded values. |
| `Settings.SettingsStore.Init` | src/lib/settings.svelte.ts:30-48 | A file that reads and parses sets the four values from it and is not written. Otherwise the values are kept and written out. Then the path is watched. |
| `Settings.SettingsStore.WatchFile` | src/lib/settings.svelte.ts:86-93 | Subscribes to the config path, and does nothing without one. |
| `Settings.SettingsStore.SetLastFile` | src/lib/settings.svelte.ts:66-69 | Changes exactly `lastOpenedFile`, then writes. |
| `Settings.SettingsStore.SetGeminiApiKey` | src/lib/settings.svelte.ts:71-74 | Changes exactly the API key, then writes. |
| `Settings.SettingsStore.SetGeminiModel` | src/lib/settings.svelte.ts:76-79 | Changes exactly the model, then writes. |
| `Settings.SettingsStore.SetGeminiPrompt` | src/lib/settings.svelte.ts:81-84 | Changes exactly the prompt, then writes. |
| `Settings.SettingsStore.OnConfigEvent` | src/lib/settings.svelte.ts:95-114 | Past the 500 ms / modify-or-remove filter, a file that parses replaces the four values. Anything else leaves every value unchanged. |
| `Utils.FuzzyScore` | src/lib/utils.ts:13-29 | Returns the score the reference definition `FuzzyScoreOf` gives. |
| `Utils.SubsequenceScore` | src/lib/utils.ts:17-28 | The loop returns -1 when greedy matching fails, otherwise the points of the greedy match. |
| `Utils.NextMatch` | src/lib/utils.ts:20-21 | The first position at or after `from` holding the character, or none. |
| `Utils.Greedy` | src/lib/utils.ts:20-27 | When greedy matching succeeds, its positions embed the query in the target in increasing order. |
| `Utils.Bonus` | src/lib/utils.ts:22-23 | Each match earns between 1 and 10 points. |
| `Utils.GreedyComplete` | src/lib/utils.ts:20-28 | If any embedding exists, greedy matching succeeds, at positions no later than that embedding's. |
| `Utils.FuzzyMissIffNotSubsequence` | src/lib/utils.ts:16-28 | Without a substring hit, the score is -1 exactly when the lower-cased query is not a subsequence of the lower-cased target. |
| `Utils.ScoreBounds` | src/lib/utils.ts:22-23 | `n` matches earn between `n` and `10 n` points. |
| `Utils.FuzzyScoreRange` | src/lib/utils.ts:13-29 | Three bands: a substring scores between `1000 - |target| + |q|` and 1000; a subsequence scores between `|q|` and `10 |q|`; anything else scores -1. |
| `Utils.FuzzyIgnoresCase` | src/lib/utils.ts:14-15 | Lower-casing either argument first does not change the score. |
| `Utils.FuzzyEmptyQuery` | src/lib/utils.ts:16 | The empty query scores 1000. |
| `Utils.FuzzyPrefixScoresTop` | src/lib/utils.ts:16 | A target starting with the query (ignoring case) scores 1000. |
| `Chars.Lower` | src/lib/utils.ts:14-15 | Lower-casing keeps the length and maps each character on its own. |
| `Chars.IndexOf` | src/lib/utils.ts:16 | `indexOf` / `find`: -1 exactly when the pattern occurs nowhere; otherwise its first occurrence. |
| `Chars.FindChar` | src-tauri/src/lib.rs:88 | `find('>')`: -1 exactly when the character is absent; otherwise its first position. |
| `Chars.Trim` | src-tauri/src/lib.rs:101 | `trim`: the result is a slice of the input with only whitespace before and after it, and it neither starts nor ends with whitespace. This fixes the result uniquely. |
| `Chars.TrimEmpty` | src-tauri/src/lib.rs:101 | Trimming leaves nothing exactly when the input is all whitespace. |
| `PageTitle.ExtractTitle` | src-tauri/src/lib.rs:86-104 | No raw title gives no title. Otherwise the title is the raw title cleaned, with the meaning `CleanTitle` and `RawTitle` give it, and a title found is non-empty and trimmed. |
| `PageTitle.RawTitle` | src-tauri/src/lib.rs:86-92 | A raw title is the slice of the page that starts where the opening tag ends, runs up to a closing tag in any letter case, and holds no closing tag itself. There is none exactly when no closing tag follows the opening tag, or the opening tag does not end. |
| `PageTitle.OpenTagEnd` | src-tauri/src/lib.rs:86-89 | The opening tag ends one past the first `>` after the first `<title` in any letter case. That `>` comes after `<title` itself. There is no end exactly when `<title` is missing or no `>` follows it. |
| `PageTitle.UpToClose` | src-tauri/src/lib.rs:90-92 | The text before the first `</title>` in any letter case, or none when the tag does not occur. |
| `PageTitle.CleanTitle` | src-tauri/src/lib.rs:94-104 | No title exactly when the decoded text is all whitespace. Otherwise the title is the decoded text trimmed, which is non-empty and has no whitespace at either end. |
| `PageTitle.PageTitle` | src-tauri/src/lib.rs:82-116 | A failed request is the error. Otherwise the result is the extracted title when there is one, else the URL's host, else the URL itself. |
| `PageTitle.DecodeWithPlain` | src-tauri/src/lib.rs:94-100 | Text without `&` is unchanged by any table of entity replacements. |
| `PageTitle.DecodePlain` | src-tauri/src/lib.rs:94-100 | Text without `&` is unchanged by the entity decoding. |
| `PageTitle.DoubleDecoding` | src-tauri/src/lib.rs:94-100 | Because `&amp;` is replaced first, `&amp;lt;` followed by any text without `&` decodes to `<` and that text. |
| `PageTitle.OpenTagFound` | src-tauri/src/lib.rs:86-87 | With no `<title` (in any case) before it, the opening tag is found where it starts, whatever other markup comes first. |
| `PageTitle.FindAfter` | src-tauri/src/lib.rs:86-91 | A tag name whose `<` occurs only at its start, and which is absent from a prefix, is first found right after that prefix. |
| `PageTitle.OpenTagEnds` | src-tauri/src/lib.rs:88 | The opening tag ends at the first `>` after its attributes. |
| `PageTitle.CloseTagFound` | src-tauri/src/lib.rs:90-91 | `</title>` (in any case) is found right after a text that holds none. |
| `PageTitle.OpenTagEndAt` | src-tauri/src/lib.rs:86-89 | Once the open tag and its `>` are located, the text starts one past the `>`. |
| `PageTitle.UpToCloseAt` | src-tauri/src/lib.rs:90-92 | Once the closing tag is located, the raw title is the text before it. |
| `PageTitle.OpenTagOfPage` | src-tauri/src/lib.rs:86-89 | On a page whose first `<title` (in any case, with any attributes) follows any markup without one, the title text starts after that tag's `>`. |
| `PageTitle.RawTitleOfPage` | src-tauri/src/lib.rs:86-92 | On such a page, the raw title is exactly the text up to the first closing tag, whatever else that text holds. |
| `PageTitle.TitleOfPage` | src-tauri/src/lib.rs:86-104 | On such a page, the title is that text decoded and trimmed. A text without `&` or surrounding whitespace is returned unchanged. |
| `HtmlText.StripTags` | src-tauri/src/lib.rs:171-193 | The stripping loop returns the text of the state machine `Run` on the whole page. |
| `HtmlText.RunAppend` | src-tauri/src/lib.rs:175-193 | Reading `a` then `b` is reading `a + b`. |
| `HtmlText.RunExtends` | src-tauri/src/lib.rs:175-193 | The text only grows, by at most one character per input character, and what was emitted is never changed. |
| `HtmlText.RunNoBrackets` | src-tauri/src/lib.rs:176-192 | Neither `<` nor `>` is ever emitted. |
| `HtmlText.StripClean` | src-tauri/src/lib.rs:171-193 | The stripped text holds no angle bracket and is no longer than the page. |
| `HtmlText.InTagCollects` | src-tauri/src/lib.rs:188-189 | Inside a tag, non-bracket characters extend the tag name and emit nothing. |
| `HtmlText.OutsideKeeps` | src-tauri/src/lib.rs:190-191 | Outside tags and scripts, non-bracket characters are copied. |
| `HtmlText.InScriptDrops` | src-tauri/src/lib.rs:190-192 | Inside a script or style body, non-bracket characters are dropped. |
| `HtmlText.TagEmitsOneSpace` | src-tauri/src/lib.rs:176-187 | A whole tag `<name>` emits exactly one space, records its name and sets script mode by it. |
| `HtmlText.ScriptTagsSwitch` | src-tauri/src/lib.rs:180-185 | Tags starting with `script`/`style` in any case turn script mode on, and `/script`/`/style` turn it off. Script mode changes only on those tags. |
| `HtmlText.ElementDropped` | src-tauri/src/lib.rs:175-193 | An element whose open tag turns script mode on and whose close tag turns it off emits two spaces and nothing of its body. |
| `HtmlText.StripPlain` | src-tauri/src/lib.rs:175-193 | Text without brackets comes through unchanged. |
| `HtmlText.WordEnd` | src-tauri/src/lib.rs:195 | The leading run of non-whitespace ends at the first whitespace character. |
| `HtmlText.Words` | src-tauri/src/lib.rs:195 | `split_whitespace` yields only non-empty words without whitespace. |
| `HtmlText.JoinCollapsed` | src-tauri/src/lib.rs:195 | Joining words with single spaces gives text with no whitespace at the ends and no whitespace but single spaces. It is empty only for no words. |
| `HtmlText.WordsOfWord` | src-tauri/src/lib.rs:195 | A word followed by whitespace is split off as the first word. |
| `HtmlText.WordsSplit` | src-tauri/src/lib.rs:195 | A whitespace character separates words: the words of `a`, whitespace, `b` are the words of `a` followed by those of `b`. Words are never glued together. |
| `HtmlText.CollapseKeepsWordsApart` | src-tauri/src/lib.rs:195 | Two words with any whitespace character between them collapse to the two words and one space. |
| `HtmlText.WordsJoin` | src-tauri/src/lib.rs:195 | Splitting joined words gives the words back. |
| `HtmlText.CollapseShape` | src-tauri/src/lib.rs:195 | The collapsed text has no whitespace at either end, and single spaces are its only whitespace. |
| `HtmlText.CollapseIdempotent` | src-tauri/src/lib.rs:195 | Collapsing twice is collapsing once. |
| `HtmlText.CollapseKeepsVisible` | src-tauri/src/lib.rs:195 | Collapsing keeps every non-whitespace character, in order. |
| `HtmlText.TruncateBound` | src-tauri/src/lib.rs:196-200 | The truncated text is the prefix of length `min(len, 10000)`. |
| `HtmlText.PromptWithoutPlaceholder` | src-tauri/src/lib.rs:203 | A template without `{content}` is sent as it is. |
| `HtmlText.PromptFillsPlaceholder` | src-tauri/src/lib.rs:203 | A single placeholder between text without `{` is replaced by the page text. |
| `HtmlText.PromptFillsEach` | src-tauri/src/lib.rs:203 | Every later `{content}` is filled as well. |
| `HtmlText.PageTextClean` | src-tauri/src/lib.rs:171-200 | The page text sent has no angle bracket and at most 10,000 characters, and is a prefix of the collapsed stripped page. |
| `GeminiModels.FilterModels` | src-tauri/src/lib.rs:135-148 | The filter yields at most one name per entry. |
| `GeminiModels.ListModels` | src-tauri/src/lib.rs:132-149 | The result is an error, with the message "Unexpected response from models endpoint", exactly when `models` is not an array. |
| `GeminiModels.FilterAppend` | src-tauri/src/lib.rs:135-148 | Filtering a concatenation filters each part and concatenates the results. |
| `GeminiModels.FilterMembership` | src-tauri/src/lib.rs:136-147 | A name is listed exactly when some entry has it as a string `name` and lists `"generateContent"`. |
| `GeminiModels.KeptInOrder` | src-tauri/src/lib.rs:135-148 | Kept entries are listed in the response's order. |
| `GeminiModels.NamelessDropped` | src-tauri/src/lib.rs:137 | An entry without a string name is never listed, whatever its methods. |
| `Startup.FirstFile` | src-tauri/src/lib.rs:268 | The first argument not starting with `-`, and none exactly when every argument does. |
| `Startup.InitialFile` | src-tauri/src/lib.rs:268 | The same, after skipping the program name. |
| `Startup.EmptyArgumentIsFile` | src-tauri/src/lib.rs:268 | An empty argument does not start with `-`, so it is taken as the file. |
| `Startup.OptionsSkipped` | src-tauri/src/lib.rs:268 | Options before the file are skipped, whatever follows it. |
| `Startup.AppState.constructor` | src-tauri/src/lib.rs:270-273 | The state starts with the initial file chosen from the arguments. |
| `Startup.AppState.GetInitialFile` | src-tauri/src/lib.rs:12-14 | Returns the stored path and leaves nothing behind. |
| `Startup.StartupCalls` | src-tauri/src/lib.rs:12-14 | After startup, the first call returns the initial file and the second returns nothing. |

## Left out

- File and dialog I/O (`readTextFile`, `writeTextFile`, the open/save dialogs, `invoke`) are foreign calls. They appear as a `FileSystem` object, a chosen path and a write fault passed in.
- `JSON.parse`/`JSON.stringify` syntax is not modelled. A file holds either a parsed value or `Garbled`. A parsed value of the wrong shape (say `bookmarks` not an array) is not modelled.
- The `await` interleavings are left out. Each handler runs as one sequential step. The `.then` that installs `unwatchFn` is taken to run at once, so its race with `cancelled` is not modelled.
- `saving` can only be observed `true` by starting from such a state, as in `Store.SaveAsWhileSaving`. Two overlapping saves are not modelled.
- `Date.now()` and `new Date().toISOString()` are parameters (`nowMs`, `stamp`).
- `updateTitle`, `set_title`, the window and menu code, `close_app`, `open_url` and `get_settings_path` are UI and OS plumbing.
- The `open()` dialog wrapper (src/lib/store.svelte.ts:113-121) only passes the chosen path on to `openPath`.
- The data file and the settings file live in two separate `FileSystem` objects. A settings path that equals a data path is not modelled.
- The watch `delayMs` coalescing is left out; every event is delivered on its own.
- Settings watch subscriptions are never cancelled, as in the source, so `SettingsStore` keeps no `unwatchFn`.
- `DEFAULT_PROMPT` is carried as a constant and not reasoned about.
- The network parts of `lib.rs` are left out: the reqwest requests, the Gemini request body, response parsing and error messages. `url::Url::parse` is reduced to an optional host passed in.
- Strings are modelled over ASCII:
  - `toLowerCase`/`to_lowercase`, `\s`, `trim` and `split_whitespace` are modelled on that range only;
  - `lib.rs` applies indices found in a lower-cased copy to the original, which is sound only when lower-casing keeps byte lengths;
  - `&text[..10_000]` slices bytes and panics off a character boundary.
- `HtmlText.TruncateBound`: counts characters, not UTF-8 bytes, because strings here are sequences of characters.
- `HtmlText.PageTextClean`: does not state that the text is collapsed. Truncation may leave a trailing space, so that only holds before the cut.
- `Store.BookmarkStore.AddBookmark` and `Store.BookmarkStore.AddProject` promise a fresh id only when the document is well numbered. Loading does not establish that: `if (!parsed.idCounter) parsed.idCounter = 0` keeps a missing or stale counter as it is (`StoreOps.StaleCounterReusesId`). Every document the store builds from the empty one is well numbered.
- `Store.SaveAsAdoptsOnlyOnSuccess` covers failures with a non-empty reason only. A write rejected with an empty reason leaves `error` empty, so `if (!this.error)` adopts the path. `Store.SaveAsStep` models that case as the code does, through `Store.SaveAsAdopts`, which tests `error == ""` after the write.
- `StoreOps.SortDesc` states order by decreasing id and a permutation, but not the order of entries with equal ids. The insertion places the earlier entry first, as the stable `Array.prototype.sort` does, but that is not proved. Ids are unique in a well-numbered document, so the difference only shows on a stale file.
- `GeminiModels`: a JSON array element that is not an object is an entry with neither field, and so is dropped.
- The lock of `get_initial_file` is a plain field, because `Mutex` poisoning cannot arise in a sequential model.
- `formatDate` (src/lib/utils.ts:1-11) is locale-dependent date formatting.
- src/lib/bookmarks.svelte.ts only holds UI dialog toggles and is not part of this model.

Where the documented behaviour and the code differ, the model follows the code:

- `deleteBookmark` sets `dirty` even when no bookmark has the id.
- `openPath` records the path as the last-opened file even when the open fails.
- A failed read in `openPath` sets `error`; it is not treated as an empty new document.

Behaviours of the code that the model keeps as they are:

- A `>` outside any tag still emits a space and re-applies the script test to the last tag's name.
- A first fuzzy match at position 0 earns the 10 points of "right after the previous match".

## Findings

| source | as written | input that shows it | evidently intended | confidence | as-written member | corrected member |
|---|---|---|---|---|---|---|
| src/lib/store.svelte.ts:75-80 | After a successful `saveAs`, `_watchFile(path)` subscribes to the new path without calling `_stopWatcher()`. The subscription on the previous path stays live and can no longer be cancelled. | A store with a live watch on `a.json`, then `saveAs` to `b.json` succeeds, then `a.json` is modified externally 500 ms or more later. The document now bound to `b.json` is replaced by `a.json`'s contents and `dirty` is cleared. | Stop the old subscription before watching the new path, as `newFile` and `openPath` do. An edit of the old file is then ignored. | not executed | `Store.StaleWatchAfterSaveAs`, `Store.BookmarkStore.SaveAsAsWritten` | `Store.BookmarkStore.SaveAs` |
