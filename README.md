# SCP catalog model

A Dafny model of the catalog logic inside the `SCPDatabaseApp` window of
`SCPs_321.py`. The application keeps SCP entries in a JSON document
(`{"scps": [...]}`). Each record holds six strings: `scp_id`, `object_class`,
`name`, `description`, `containment_procedure` and `created_at`. A list view
shows the id, class and name of each record. The window's actions are
modelled as methods of the class `App.ScpDatabaseApp`:

- start-up creates an empty catalog file when there is none;
- "refresh" rebuilds the list from the file;
- "add" appends a record built from the form;
- "view" looks up the focused row's id;
- "delete" removes every record with the focused row's id;
- "search" narrows the shown rows to those containing the lower-cased query.

The class holds three fields:

- `doc`: the catalog file. It is absent, unreadable, or a stored sequence of records.
- `shown`: the rows attached to the list view, top to bottom.
- `focus`: the list's focus item. There may be none. An attached item is
  given by its position in `shown`. An item that a search detached is given
  by the values it holds.

Its invariant `Valid` says three things. The catalog file exists. The list
shows rows of catalog records in catalog order, without reordering. A focus
on an attached item points inside `shown`.

A focus on a detached item is not constrained. Refilling the list deletes
only the attached items, so such a focus survives a refresh, an add or a
delete. It may then name a record that no longer exists, and viewing it
reports that the record was not found.

Modules:

- `Text`: ASCII versions of Python's `str.strip`, `str.lower` and `in` on strings.
- `Seqs`: order-preserving filtering and the subsequence relation.
- `Catalog`: records, rows, the add form, lookup and delete.
- `Search`: the query match and the narrowing of the list.
- `App`: the application object.

Delete and lookup are written as functions because the source writes them as
a list comprehension and a generator expression. Refilling the list and
searching are loops that change the object's fields, so they are methods.

The search narrows the rows currently attached to the list, as the code at
`SCPs_321.py:265-272` does. It does not narrow the whole catalog. A second
search therefore narrows the first one's result. `Search.NarrowRender` shows
what happens when the list was freshly loaded: the two views agree.

## Model

| member | source | states |
|---|---|---|
| Text.Strip | SCPs_321.py:154-155 | the stored text is the form text with its leading and trailing whitespace removed: a slice of the input, with only whitespace outside it, and it neither starts nor ends with whitespace |
| Text.StripUnique | SCPs_321.py:154-155 | that description of stripping determines the result, so `Strip` is the only function meeting it |
| Text.StripIdempotent | SCPs_321.py:154-155 | stripping a stripped text changes nothing |
| Text.LowerMeaning | SCPs_321.py:260 | lower-casing leaves no capital letter, and it changes a string exactly when the string holds a capital letter |
| Text.LowerIdempotent | SCPs_321.py:267 | lower-casing an already lower-cased query or column changes nothing |
| Text.ContainsEmpty | SCPs_321.py:267 | the empty query occurs in every column |
| Catalog.NewRecord | SCPs_321.py:150-157 | id, class and name are stored as typed; description and containment procedure are stored stripped; the creation time is the one supplied |
| Catalog.Render | SCPs_321.py:116-118 | one row per record, in catalog order, each row holding that record's id, class and name |
| Catalog.Find | SCPs_321.py:187 | nothing is found exactly when no record has the key; otherwise the result is the first record with the key |
| Catalog.Delete | SCPs_321.py:248 | a record survives exactly when it was in the catalog and its id differs from the key |
| Catalog.DeleteKeepsOrder | SCPs_321.py:248 | the surviving records keep their original relative order |
| Catalog.DeleteRemovesEveryMatch | SCPs_321.py:248 | the catalog shrinks by the number of records carrying the key, duplicates included |
| Catalog.DeleteKeepsEveryCopy | SCPs_321.py:248 | every copy of a record with another id survives, and no copy of a record with the deleted id does |
| Catalog.DeleteAbsent | SCPs_321.py:248 | deleting a key no record has leaves the catalog unchanged |
| Catalog.DeleteIdempotent | SCPs_321.py:248 | deleting twice is deleting once |
| Catalog.DeleteFirst | SCPs_321.py:248 | the comprehension seen from the front: the first record is kept exactly when its id differs from the key |
| Catalog.FindAfterDeleteMisses | SCPs_321.py:187 | after deleting a key, looking it up finds nothing |
| Catalog.FindAfterDeleteOther | SCPs_321.py:187 | deleting one key does not change what a lookup of any other key returns |
| Catalog.FindAfterAppend | SCPs_321.py:162 | appending a record leaves every successful lookup as it was; a failed lookup of the new id now finds the new record |
| Catalog.ShownRowIsFound | SCPs_321.py:187 | the id of every row rendered from the catalog is found by the lookup |
| Search.NarrowMembers | SCPs_321.py:265-272 | a search keeps exactly the shown rows in which some column, lower-cased, contains the query |
| Search.NarrowKeepsEveryCopy | SCPs_321.py:265-272 | a search keeps every copy of a matching row, duplicates included, and detaches every copy of any other row |
| Search.NarrowNoneMatch | SCPs_321.py:265-272 | when no shown row matches, the search detaches every row |
| Search.NarrowStep | SCPs_321.py:265-272 | one pass of the search loop: the next row is kept when it matches and detached otherwise, and the list becomes the narrowed prefix followed by the unvisited rows |
| Search.NarrowKeepsOrder | SCPs_321.py:265-272 | the rows left after a search are a subsequence of the rows shown before it |
| Search.NarrowStaysInside | SCPs_321.py:265-272 | narrowing a list that comes in order from the catalog leaves a list that still does |
| Search.NarrowIdempotent | SCPs_321.py:265-272 | searching again for the same query detaches nothing more |
| Search.NarrowCommutes | SCPs_321.py:265-272 | two successive searches keep the same rows in either order |
| Search.NarrowByEmptyKeepsAll | SCPs_321.py:261-263 | the empty query would match every row; the source reloads the list for it instead |
| Search.NarrowRender | SCPs_321.py:265-272 | searching a freshly loaded list shows exactly the rows of the records whose id, class or name contains the query, in catalog order |
| App.SearchFocusMeaning | SCPs_321.py:265-272 | after a search that kept rows, the focus is on the last kept row, which was shown and matches; after one that kept none, no attached item has the focus and the focused values are those focused before |
| App.SearchAgainChangesNothing | SCPs_321.py:265-272 | repeating a search leaves both the rows and the focus as they were |
| App.ScpDatabaseApp.constructor | SCPs_321.py:17-107 | start-up creates the catalog file if it is absent, then fills the list from it, with no focus, and the invariant holds |
| App.ScpDatabaseApp.Initialize | SCPs_321.py:34-36 | an absent catalog file is created empty; an existing one, readable or not, is left alone, so a second call changes nothing |
| App.ScpDatabaseApp.LoadData | SCPs_321.py:111-120 | the attached rows are deleted, together with a focus on one of them, while a focus on a detached item stays; then one row per stored record is shown in catalog order; an unreadable file leaves the list empty and is reported |
| App.ScpDatabaseApp.FocusRow | SCPs_321.py:177 | the user puts the focus on a shown row; the invariant holds and the focused values are that row's |
| App.ScpDatabaseApp.Submit | SCPs_321.py:149-171 | on success the new record is appended last, the earlier records are kept in order and the list is refilled, the focus as after a refill; a read or write failure changes nothing |
| App.ScpDatabaseApp.ViewSelected | SCPs_321.py:175-233 | no focus is reported; an unreadable file is reported; otherwise the result is the first record with the focused item's id, and "not found" exactly when no record has that id, which cannot happen while the focus is on an attached item |
| App.ScpDatabaseApp.DeleteSelected | SCPs_321.py:235-256 | no focus, no confirmation or a failed read or write changes nothing; otherwise every record with the focused item's id is removed, the others are kept in order, and the list is refilled, the focus as after a refill |
| App.ScpDatabaseApp.Search | SCPs_321.py:258-272 | an empty query refills the list; otherwise the shown rows become the matching ones in their order, the focus moves to the last of them or, when none matched, stays on the now detached item; the invariant holds |
| App.ScpDatabaseApp.DetachNonMatching | SCPs_321.py:265-272 | the loop leaves attached exactly the narrowed rows, and the focus where `SearchFocus` puts it |
| App.ScpDatabaseApp.FocusOrDetach | SCPs_321.py:266-272 | one row: a matching row takes the focus and stays; any other row is detached, keeping the focus if it had it, and the items below it move up |
| App.SearchAwayEveryRow | SCPs_321.py:258-272 | from a fresh start, focusing the top row and searching for text no row contains detaches every row and leaves the focus on the detached top row |
| App.DetachedFocusOutlivesItsRecord | SCPs_321.py:231 | after that search, deleting the focused record and then viewing reports "not found" |
| App.DetachedFocusSurvivesRefill | SCPs_321.py:261-263 | after that search, an empty search refills the list and viewing still shows the top record |

## Left out

- The tkinter widgets are not modelled: windows, canvas drawing, dialogs, notebooks and scrollbars. Message boxes appear only as the `Outcome` or `Result` of an action.
- Selection highlighting and scrolling (`see`) are not modelled; they change only the display.
- JSON file I/O is abstracted. The file is a `Document` value: `Missing`, `Malformed` or `Stored(records)`. A failed write is the parameter `writeOk`. A failed read, parse or write leaves the file as it was; partial writes are not modelled.
- Records with missing fields are not modelled. A record lacking `scp_id`, `object_class` or `name` makes `load_data` insert the rows before it and then fail. A record lacking only `description`, `containment_procedure` or `created_at` loads normally in the source, and every row is shown. The model treats any document with an incomplete record as `Malformed`, so `LoadData` shows no rows for either kind. The same treatment applies to `Submit`, `DeleteSelected` and `ViewSelected`, although in the source add never reads the fields of stored records, and delete reads only `scp_id`. View compares only `scp_id` until it finds a match, then reads all six fields of the matching record (SCPs_321.py:200-222).
- Creating the log file and `log_access` are left out (host name lookup, the clock, appending to a file, errors swallowed).
- `datetime.now()` is a parameter: `Submit` receives the already formatted timestamp.
- A failure to create the catalog file at start-up is not modelled.
- Treeview's conversion of row values (an id such as "049" coming back as a number) is not modelled; rows hold the exact strings stored.
- Text.Lower: only ASCII capitals are lower-cased; Python's full Unicode case mapping is not modelled.
- Text.Strip: only ASCII whitespace (tab to carriage return, the four separators 0x1C-0x1F and space) is stripped; Unicode spaces are not.
- Tree items have no identity in the model. An attached focus item is known by its position, and a detached one by its values. Detached items are otherwise dropped from the model, since nothing in the source shows them again.
- App.ScpDatabaseApp.ViewSelected: the detail window it opens is not modelled; only the lookup and its error cases are.
