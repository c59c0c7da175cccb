# A browser to-do list, modelled in Dafny

The repository holds two versions of a client-side to-do list. Both keep the
list under the key `"todos"` of `localStorage` and show it as rows with a
complete button, an edit button and a trash button, plus a filter selector.

- **`anet/script.js`** (current version) stores an array of
  `{id, text, completed}` records. `loadTodos` decodes the stored value and
  never throws. It turns a missing or unparsable value into the empty list.
  It migrates a legacy array of strings to records and writes the result
  back. It sanitises an array of objects. `saveLocalTodoObj`,
  `removeLocalTodoById`, `updateLocalTodoById` and
  `toggleCompletedLocalTodoById` each load the array, change it and write it
  back. The row controller calls them from the add button, the trash and
  complete buttons and the per-row edit input.
- **`Anet/script.js`** (older version) stores an array of the texts
  themselves. Entries are found by value with `indexOf`. Added rows are never
  stored. The complete button only flips the row's marker.

The model has one module per component:

| module | file | what it holds |
|---|---|---|
| `TodoStore` | `todo_store.dfy` | stored value (`Raw`, `Entry`), records (`Todo`), the pure decoding and encoding, the `Store` class with one method per helper, and the properties of a reload |
| `TodoView` | `todo_view.dfy` | rows (`Row`) and the `App` class with one method per event handler |
| `LegacyStore` | `legacy_store.dfy` | the string store: `indexOf`, `splice`, and the `Storage` class |
| `LegacyView` | `legacy_view.dfy` | the older controller's `App` class |
| `JsText` | `js_text.dfy` | `String.prototype.trim` (white space as in sections 12.2 and 12.3 of ECMA-262) |
| `Filter` | `filter.dfy` | the per-row decision of `filterTodo`, which both versions share |
| `Events`, `Options` | `events.dfy`, `option.dfy` | the clicked element and the pressed key; an optional value |

How the environment is represented:

- **Storage.** `JSON.parse`, `JSON.stringify` and `localStorage` are
  abstracted into one field per store. In the current version it is a `Raw`:
  `Missing | Empty | Malformed | NonArray | Array(seq<Entry>)`. Each `Entry`
  is a string, a null, or an object seen through the decoder's truthiness
  tests. A write stores `Array(Encode(records))`, which is what a later
  parse would give back. In the older version the field is a `Stored`:
  `Missing | Unparsable | List(seq<string>)`.
- **Ids.** Ids come from `Date.now()` and `Math.random()`. They are a
  parameter `ids: nat -> FreshId`, whose k-th value is the id minted for
  position k. An id is never empty. Nothing makes ids unique, and the model
  claims no uniqueness.
- **Rows.** A row is a record: id (current version only), shown text,
  completed marker, the edit input's value while editing, and display.
- **Exceptions.** In the older version an exception aborts the handler. Each
  store method returns `ok`, which is false when `JSON.parse` threw and
  nothing changed.

The model follows the code where it does less than a task list is usually
expected to do:

- Ids are not guaranteed unique.
- Only an array whose first element is a string is migrated and written
  back by `loadTodos` itself. Ids minted while sanitising (for strings inside
  an array of objects, or for objects without an id) are not written by
  `loadTodos`. They are written only when a later helper saves the list it
  loaded, and each such load mints new ones. So rows built at page load from
  such records carry ids that match nothing stored. A trash click on such a
  row writes the list back without removing its record, and the record
  reappears on reload.
- The store's `updateLocalTodoById` does not reject blank text. The edit
  handler does that.

## Model

| member | source | states |
|---|---|---|
| `JsText.LeadingEnd` | anet/script.js:192 | the index is the first one, from the given start, whose character trim keeps; everything before it is white space |
| `JsText.TrailingStart` | anet/script.js:192 | the index is one past the last character, down to the given start, that trim keeps; everything after it is white space |
| `JsText.Trim` | anet/script.js:192 | the result is empty exactly when the input is blank; otherwise it starts and ends with a character that is not white space |
| `JsText.TrimInfix` | anet/script.js:299 | the trimmed text is one piece of the input, with only white space cut on either side |
| `JsText.TrimIdempotent` | anet/script.js:299 | trimming twice equals trimming once |
| `Filter.Displayed` | anet/script.js:316-334 | for "completed" and "incomplete" a row is shown iff its marker matches the choice; any other value but "all" leaves its display |
| `Filter.DisplayedSpec` | anet/script.js:316-334 | "all" shows the row; "completed" shows it iff marked; "incomplete" iff unmarked; any other value leaves its display unchanged |
| `Filter.DisplayedIdempotent` | Anet/script.js:108-128 | filtering twice with one choice equals filtering once; a known choice ignores the previous display |
| `Filter.CompletedIncompletePartition` | anet/script.js:320-333 | every row is shown by exactly one of "completed" and "incomplete" |
| `TodoStore.Load` | anet/script.js:117-148 | anything but an array loads as []; a legacy array, or an array with no null, keeps its length; an array of objects with a null loads as [] |
| `TodoStore.AfterLoad` | anet/script.js:124-127 | storage changes only for a legacy array; what migration writes is not legacy and loads as the migrated list |
| `TodoStore.Encode` | anet/script.js:151-153 | one object per record, in order; what is written is never taken for the legacy shape and holds no null |
| `TodoStore.FirstIndex` | anet/script.js:171 | the index holds a record with the id, and no earlier record has it |
| `TodoStore.RemoveById` | anet/script.js:165 | a record is kept iff it was present and has another id; with an absent id the list is unchanged |
| `TodoStore.FindIndex` | anet/script.js:180 | -1 iff no record has the id; otherwise the index of the first record with it |
| `TodoStore.LoadFailSoft` | anet/script.js:117-148 | missing or empty key, parse failure, non-array value, and a null element in the sanitising map all load as the empty list; only migration writes |
| `TodoStore.MigrationShape` | anet/script.js:124-127 | a legacy array keeps its length; element k becomes an incomplete record with the k-th minted id and its string as text; storage then holds the migrated list |
| `TodoStore.SanitizeShape` | anet/script.js:130-141 | length and order kept, storage not rewritten; strings become incomplete records; objects keep `!!completed`, a truthy text and a truthy id, and get "" for a falsy text |
| `TodoStore.LoadHasIds` | anet/script.js:125-139 | every loaded record has a non-empty id |
| `TodoStore.ReloadFields` | anet/script.js:151-153 | after a save, a reload gives back every text and flag in position, and every non-empty id |
| `TodoStore.ReloadAfterSave` | anet/script.js:151-153 | a saved list whose ids are non-empty reloads unchanged, whatever ids are at hand |
| `TodoStore.AddReload` | anet/script.js:155-161 | after `saveLocalTodoObj` a reload gives the earlier records unchanged, then exactly the one new incomplete record |
| `TodoStore.RemoveByIdAppend` | anet/script.js:165 | the filter distributes over concatenation, so kept records stay in order |
| `TodoStore.RemoveByIdCount` | anet/script.js:165 | no record with the id survives, and every other record keeps its multiplicity |
| `TodoStore.RemoveReload` | anet/script.js:163-167 | after removal a reload gives exactly the filtered list: the records with another id, in order and as often as before; an absent id leaves the list equal |
| `TodoStore.WithText` | anet/script.js:171-173 | same length; every id and flag kept; only the first record with the id may change its text, and it gets the new text |
| `TodoStore.WithCompleted` | anet/script.js:180-182 | same length; every id and text kept; only the first record with the id may change its flag, and it gets the given flag |
| `TodoStore.UpdateReload` | anet/script.js:169-176 | after an update a reload gives back the edited list, and the id reads back with the new text |
| `TodoStore.ToggleReload` | anet/script.js:178-185 | after a toggle a reload gives back the edited list, and shows the given flag for the id |
| `TodoStore.AddAddToggleScenario` | anet/script.js:155-185 | two adds to an empty store, then completing the first, reload as both records in order with only the first completed |
| `TodoStore.AddRemoveScenario` | anet/script.js:155-167 | adding a record to an empty store and removing it by id reloads as the empty list |
| `TodoStore.Store.LoadTodos` | anet/script.js:117-149 | returns the decoded list; storage changes only when a legacy array is migrated |
| `TodoStore.Store.SaveTodosArray` | anet/script.js:151-153 | storage holds the given list |
| `TodoStore.Store.SaveLocalTodoObj` | anet/script.js:155-161 | returns the new incomplete record with the given text and id; storage holds the loaded list with it appended |
| `TodoStore.Store.RemoveLocalTodoById` | anet/script.js:163-167 | storage holds the loaded list without the records with the id, written even when nothing matched |
| `TodoStore.Store.UpdateLocalTodoById` | anet/script.js:169-176 | with a match, storage holds the list with the first match's text replaced; without one, only what loading wrote |
| `TodoStore.Store.ToggleCompletedLocalTodoById` | anet/script.js:178-185 | with a match, storage holds the list with the first match's flag set; without one, only what loading wrote |
| `TodoView.App.GetLocalTodos` | anet/script.js:338-373 | one displayed, non-editing row per loaded record is appended, in order |
| `TodoView.App.AddTodo` | anet/script.js:189-239 | blank input changes nothing; otherwise the trimmed text is stored as a new record at the end, its row appended and the input cleared |
| `TodoView.App.EditCheck` | anet/script.js:241-311 | a click outside every row or off the buttons changes nothing; otherwise the trash, complete or edit behaviour below, with the stored value each one leaves |
| `TodoView.App.Trash` | anet/script.js:248-256 | the records with the row's id are removed from storage and the row from the list |
| `TodoView.App.Complete` | anet/script.js:258-263 | the row's marker flips and is stored under its id; when the id is in the loaded list, a reload shows the marker's value for it |
| `TodoView.App.BeginEdit` | anet/script.js:265-276 | a row already editing is left alone; otherwise its edit input starts with the shown text |
| `TodoView.App.TypeDraft` | anet/script.js:281-283 | typing sets the edit input's value and nothing else |
| `TodoView.App.Commit` | anet/script.js:298-309 | a non-blank trimmed value is stored under the row's id and shown; a blank one restores the original without touching storage |
| `TodoView.App.Cancel` | anet/script.js:292-295 | Escape restores the original text and does not touch the store |
| `TodoView.App.KeyDown` | anet/script.js:288-309 | Enter commits (the rows and stored value `Commit` gives), Escape cancels, other keys change nothing |
| `TodoView.App.FilterTodo` | anet/script.js:313-336 | every row's display becomes the filter decision for its marker; nothing else changes, storage is not touched |
| `LegacyStore.Read` | Anet/script.js:133-137 | a missing key reads as the empty list; reading fails exactly when the stored text is unparsable |
| `LegacyStore.IndexOf` | Anet/script.js:191 | -1 iff the text is absent; otherwise the first position holding it |
| `LegacyStore.SpliceOne` | Anet/script.js:191 | `splice(start, 1)`: a start in range removes that entry; a negative start counts from the end and is clamped to 0; a start past the end removes nothing |
| `LegacyStore.Removed` | Anet/script.js:190-192 | a stored text is removed at its first occurrence; an absent one drops the last entry; [] stays [] |
| `LegacyStore.Replaced` | Anet/script.js:197-199 | same length; the first entry equal to the old text becomes the new text; every other entry stays |
| `LegacyStore.RemovedPresent` | Anet/script.js:190-192 | a stored text is removed at its first occurrence only, the rest in order |
| `LegacyStore.RemovedOnce` | Anet/script.js:190-192 | removing a stored text loses exactly one copy of it and nothing else |
| `LegacyStore.RemovedAbsent` | Anet/script.js:191 | an absent text makes `splice(-1, 1)` drop the last entry |
| `LegacyStore.RemovedLength` | Anet/script.js:191 | removal shortens a non-empty list by exactly one and leaves the empty list empty |
| `LegacyStore.ReplacedSpec` | Anet/script.js:197-199 | only the first entry equal to the old text is replaced |
| `LegacyStore.Storage.SaveLocalTodos` | Anet/script.js:131-140 | appends exactly one entry at the end, a missing key counting as the empty list |
| `LegacyStore.Storage.RemoveLocalTodos` | Anet/script.js:182-193 | storage holds the list with the entry at `indexOf(text)` spliced out |
| `LegacyStore.Storage.UpdateLocalTodo` | Anet/script.js:195-202 | replaces the first entry equal to the old text; writes nothing for an absent text or a missing key |
| `LegacyView.App.GetLocalTodos` | Anet/script.js:142-180 | one unmarked, displayed row per stored text is appended; nothing when parsing throws |
| `LegacyView.App.AddTodo` | Anet/script.js:11-45 | the row shows the input untrimmed, blank included; the input is cleared; storage is not modified |
| `LegacyView.App.EditCheck` | Anet/script.js:48-104 | a click outside every row or off the buttons changes nothing; otherwise the trash, complete or edit behaviour |
| `LegacyView.App.Trash` | Anet/script.js:53-59 | the entry found by the row's text is spliced out and the row removed; a parse failure leaves both |
| `LegacyView.App.Complete` | Anet/script.js:61-63 | only the row's marker flips; storage is unchanged |
| `LegacyView.App.BeginEdit` | Anet/script.js:65-75 | a row already editing is left alone; otherwise its edit input starts with the shown text |
| `LegacyView.App.TypeDraft` | Anet/script.js:80-82 | typing sets the edit input's value and nothing else |
| `LegacyView.App.Commit` | Anet/script.js:93-102 | a non-blank trimmed value replaces the first stored copy of the old text and is shown; a blank one restores the original |
| `LegacyView.App.KeyDown` | Anet/script.js:87-102 | Enter commits (the rows and stored value `Commit` gives, including a row left editing when parsing throws); other keys change nothing |
| `LegacyView.App.FilterTodo` | Anet/script.js:106-129 | every row's display becomes the filter decision for its marker; storage is not touched |

## Left out

- `spawnBats` (anet/script.js:13-109) is decorative: random numbers, floating-point CSS values, SVG markup and timers.
- `getTextWidth` and the edit input's width are canvas measurement in floating point, used only for presentation.
- DOM construction (buttons, icons, class names other than `completed`, `replaceChild`, `closest`) is not modelled. A row is a record.
- Row removal after the trash button is immediate. The `transitionend` deferral is event timing.
- Focus and blur ordering is not modelled, including whether removing the input on Escape also fires `blur`. So is a trash click on a row that is editing: its blur commits first.
- `JSON.parse`, `JSON.stringify` and `localStorage` are abstracted as described above. A `setItem` that throws (quota) is not modelled.
- Uniqueness of ids is not modelled, because the source does not ensure it.
- `TodoStore.MigrationShape`: the source copies a non-string element of a migrated array into `text` unchanged. The model gives it the text "", which is what a null there reads back as. It states the text only for string elements.
- `TodoStore.SanitizeShape`: a truthy id whose string form is empty (only an array can be one) is treated as falsy, so it gets a minted id.
- `TodoView.App.Complete`: the agreement between marker and stored flag is proved only when the row's id is among the loaded records. `loadTodos` does not write the ids it mints while sanitising, and each later load mints new ones, so a row built from such a record finds no match, and nothing but a migration is written.
- `TodoStore.LoadHasIds`: holds only because of the approximation in `TodoStore.SanitizeShape` above. On a stored object whose id is truthy but has an empty string form (such as `[]`), the source gives the id "", so `LoadHasIds` fails there, and with it the hypothesis that `TodoStore.AddReload`, `TodoStore.RemoveReload` and the agreement in `TodoView.App.Complete` rely on.
- In the older version, stored JSON other than an array of strings (for example `null` or an array of objects) is not modelled.
- In the older version, `filterTodo` iterates over `childNodes`, which may include text nodes. The model iterates over rows only.
- Strings are sequences of Unicode scalar values, not UTF-16 code units, so a lone surrogate cannot be represented. `trim` is unaffected, because every character it strips lies in the Basic Multilingual Plane.
- The `console.error` report in the catch of `loadTodos` (anet/script.js:146) is console output and is left out; the fall-back to [] is modelled.
- `innerText` whitespace normalisation is not modelled. A row shows and reports exactly the text it was given.
