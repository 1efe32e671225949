# Journal entry store

A model of the entry store of a terminal journaling application (`App` in
`src/app/mod.rs`). The store owns an in-memory list of journal entries, kept
newest first by date, and a selection cursor (`current_entry_id`). Every
change goes through a storage backend (`DataProvider`) with four calls:
load all entries, add an entry, update an entry, remove an entry. Any of
them can fail; a failure propagates at the `?` where it occurs, so each
operation's effect on failure depends on whether the backend call comes
before or after the in-memory change.

Files:

- `entries.dfy` (module `Entries`): the `Entry` and `EntryDraft` records,
  `Option` and `Result`, the linear-scan lookups (`FindIndex`, `Find`), and
  `Mirrors`, which relates a list to a backend store.
- `sorting.dfy` (module `Sorting`): `sort_by(|a, b| b.date.cmp(&a.date))` as
  `SortDesc`, a stable newest-first insertion sort. It is proved sorted, a
  permutation, stable (every date's subsequence is kept), and the only
  sequence with those properties.
- `backend.dfy` (module `Backend`): the backend as a class `Provider` over a
  map from identifier to entry. Each call chooses success or failure
  nondeterministically. Its contract is all the store may rely on.
- `app.dfy` (module `JournalApp`): the class `App` with the store's
  operations. Each method's `ensures` gives its whole new state in terms of
  the old state, for every outcome of the backend call. The methods also
  state what they preserve, where the code keeps it: the newest-first order,
  `Synced` (the list mirrors the backend store) and `SelectionValid` (the
  cursor names a listed entry). The exceptions: after a backend failure,
  `update_current_entry` loses the order, and both update operations lose
  `Synced` when the edit actually changes the entry; `LoadEntries` does not
  keep `SelectionValid` (see below).

Behaviours worth knowing, all as in the code:

- `update_current_entry` and `update_current_entry_content` change the list
  before calling the backend. If that call fails, the change stays in the
  list, and `update_current_entry` does not re-sort it (a content edit
  keeps the order anyway). `FailedEditDiverges` proves that, when the edit
  changed the entry, the list then no longer mirrors the store.
- `update_current_entry` asserts that a selection is set. A selection that
  is set but names no listed entry does not panic: it returns the "journal
  entry should exist" error (`EntryMissing`) and changes nothing.
- `update_current_entry_content` with no resolvable selection does nothing
  and succeeds.
- `delete_entry` compares `current_entry_id.unwrap_or(0)` with the removed
  id. So with no selection, deleting an entry whose id is 0 selects the first
  remaining entry (`UnsetSelectionReadsAsZero`).
- `load_entries` replaces the list and does not re-check the cursor, so
  afterwards the cursor may name no entry. This model follows the code and
  does not claim that `LoadEntries` keeps `SelectionValid`.

## Model

| member | source | states |
|---|---|---|
| JournalApp.App.constructor | src/app/mod.rs:32-40 | a new store has no entries and no selection |
| JournalApp.App.LoadEntries | src/app/mod.rs:42-50 | on success the list is the backend's listing sorted newest first: it is sorted, a permutation of the listing, keeps every date's subsequence (stable), and mirrors the store; on failure the list is unchanged; the selection is never touched |
| Backend.Provider.LoadAllEntries | src/app/mod.rs:45 | assumed backend contract: on success every stored entry is listed exactly once |
| Sorting.SortDesc | src/app/mod.rs:47 | the sort's result is newest first, has the input's length, and is a permutation of the input |
| Sorting.Insert | src/app/mod.rs:47 | one step of the stable sort: inserting adds exactly one copy of the entry |
| Sorting.InsertSorted | src/app/mod.rs:47 | one step of the stable sort: inserting into a newest-first list keeps it newest first |
| Sorting.InsertWithDate | src/app/mod.rs:47 | one step of the stable sort: the entry taken from the front of the unsorted part goes in front of the already sorted entries of its own date; every other date's subsequence is unchanged |
| Sorting.SortDescStable | src/app/mod.rs:47 | stability: for every date, the entries of that date keep their input order |
| Sorting.SortedUnique | src/app/mod.rs:47 | two newest-first lists that agree on every date's subsequence are equal |
| Sorting.SortDescIsStableSort | src/app/mod.rs:47 | any newest-first list that keeps every date's subsequence of the input is the sort's result, so the stable sort is unique |
| Sorting.SortDescOfSorted | src/app/mod.rs:47 | re-sorting a list that is already newest first changes nothing |
| Sorting.WithDateMembers | src/app/mod.rs:47 | an entry is in a date's subsequence exactly when it is in the list with that date |
| Sorting.SortDescMembers | src/app/mod.rs:47 | sorting keeps the set of members |
| Sorting.SortDescHasId | src/app/mod.rs:47 | sorting keeps the set of identifiers |
| Sorting.SortDescUniqueIds | src/app/mod.rs:47 | sorting keeps identifiers unique |
| Sorting.InsertUniqueIds | src/app/mod.rs:47 | one step of the stable sort: inserting an entry with an unused identifier keeps identifiers unique |
| Sorting.WithDateConcat | src/app/mod.rs:65 | the entries of one date in a list with an entry pushed at its end are those of the list followed by the pushed entry if it has that date |
| Sorting.PushedLastAmongTies | src/app/mod.rs:65-67 | after pushing an entry and re-sorting, it comes after every entry already listed with the same date, and every other date's subsequence is unchanged |
| Sorting.SortDescMirrors | src/app/mod.rs:45-47 | a sorted listing of a store still mirrors it |
| Sorting.RemoveKeepsSorted | src/app/mod.rs:132-137 | removing one entry from a newest-first list keeps it newest first |
| Entries.FindIndex | src/app/mod.rs:132-136 | the position found holds the first entry with the id; none is found exactly when no entry has the id |
| Entries.Find | src/app/mod.rs:53 | the entry found has the id and no earlier entry has it; none is found exactly when no entry has the id |
| Entries.FindListed | src/app/mod.rs:52-54 | with unique identifiers, looking up a listed entry's id returns that entry |
| Entries.RemovedIsGone | src/app/mod.rs:132-137 | with unique identifiers, no entry with the removed id remains after the removal |
| Entries.RemovePreservesIds | src/app/mod.rs:132-137 | removal keeps identifiers unique and keeps every other identifier |
| Entries.MirrorsAppend | src/app/mod.rs:59-65 | appending the entry the backend just added keeps the list mirroring the store |
| Entries.MirrorsReplace | src/app/mod.rs:95-100 | replacing an entry by one with the same id mirrors the store updated under that id |
| Entries.MirrorsRemove | src/app/mod.rs:131-137 | removing an entry mirrors the store without its id |
| JournalApp.App.GetEntry | src/app/mod.rs:52-54 | returns the first entry with the id; returns none exactly when no entry has it; reads only |
| JournalApp.App.GetCurrentEntry | src/app/mod.rs:72-75 | none when the cursor is unset or names no listed entry; otherwise the first listed entry whose id is the cursor |
| JournalApp.App.CurrentIndex | src/app/mod.rs:77-80 | the position of the entry that GetCurrentEntry returns, with no earlier entry with that id; none exactly when GetCurrentEntry is none |
| Backend.Provider.AddEntry | src/app/mod.rs:59-62 | assumed backend contract: on success, stores and returns an entry with an unused id, the draft's date and title, and empty content; on failure the store is unchanged |
| JournalApp.AddedAndSorted | src/app/mod.rs:59-67 | adding the new entry and re-sorting keeps the list mirroring the store, makes the entry findable by its id, and loses no id |
| JournalApp.App.AddEntry | src/app/mod.rs:56-70 | on failure nothing changes; on success the list is the old list plus the new entry, re-sorted newest first, one longer, and the returned id finds that entry; the selection is untouched |
| Backend.Provider.UpdateEntry | src/app/mod.rs:100 | assumed backend contract: on success the stored entry with that id is replaced; fails if no entry has that id |
| JournalApp.Edited | src/app/mod.rs:113-118 | replacing an entry in place keeps every id, keeps the list mirroring a store updated the same way, and keeps the order if the date is unchanged |
| JournalApp.EditedAndSorted | src/app/mod.rs:95-102 | replacing an entry and re-sorting keeps the list mirroring the updated store and finds the new entry by its id |
| JournalApp.FailedEditDiverges | src/app/mod.rs:95-100 | if the backend refuses an edit that the list already holds and that changed the entry, the list no longer mirrors the store |
| JournalApp.App.UpdateCurrentEntry | src/app/mod.rs:82-105 | requires a selection; changes only the title and date of the selected entry, before the backend call; on backend failure the change stays and nothing is re-sorted; on success the list is re-sorted and the current entry shows the new title and date; a stale selection returns EntryMissing and changes nothing |
| JournalApp.App.UpdateCurrentEntryContent | src/app/mod.rs:107-122 | with no resolvable selection it succeeds, changes nothing and makes no backend call; otherwise only the selected entry's content changes, in place, before the backend call, and the order is kept |
| Backend.Provider.RemoveEntry | src/app/mod.rs:131 | assumed backend contract: on success the entry with that id is removed from the store; fails if there is none |
| JournalApp.App.DeleteEntry | src/app/mod.rs:124-144 | requires only that a stored id be listed (the `expect` can fail only after a successful removal); the backend removal comes first, and on its failure nothing changes; on success the first entry with the id is removed and the others keep their order; the selection is recomputed by the delete-recovery rule; the order, the mirroring and a valid selection are kept, and with unique ids the removed id is no longer found |
| JournalApp.SelectionAfterDelete | src/app/mod.rs:139-141 | the selection after a delete: if the selection, read as 0 when unset, names the removed id, the first remaining entry's id (none exactly when nothing remains); otherwise unchanged |
| JournalApp.SelectionAfterDeleteValid | src/app/mod.rs:139-141 | after a delete the selection names a remaining entry or nothing, and with unique ids it never names the removed entry |
| JournalApp.UnsetSelectionReadsAsZero | src/app/mod.rs:139 | with no selection, deleting an entry with id 0 selects the first remaining entry |

## Left out

- `export_journal_content` (src/app/mod.rs:146-156) creates directories and writes a file. That is filesystem I/O, so it is not modelled; neither is its "Entry should exist" panic.
- The `settings` field is read-only configuration the core never inspects, so it is not modelled.
- `src/app/ui/help_popup.rs` only renders a terminal widget, so it is not modelled.
- `UIComponents::set_current_entry` is not part of this model. The delete-recovery rule takes it to assign the given id to `current_entry_id` and do nothing else.
- `DataProvider` and its backends are not part of this model. `Backend.Provider` is an assumed contract: `add_entry` picks an unused id and returns empty content; `update_entry` and `remove_entry` fail when no entry has the id; `load_all_entries` lists every stored entry once, in any order.
- `async`/`await` is modelled as plain sequential calls, since only one operation runs at a time. `log::trace!` calls and `anyhow` context strings are dropped; errors are reduced to `Storage` and `EntryMissing`.
- Dates (`DateTime<Utc>`) are modelled as `int`, ordered like timestamps.
- Entry ids are `u32` in the source and `nat` here, so the model does not cover running out of 32-bit ids.
- Rust references (`&Entry`, `&mut Entry`) become values and a list index (`CurrentIndex`), so aliasing is not modelled.
- JournalApp.App.UpdateCurrentEntry: the `assert!` at src/app/mod.rs:89 is modelled as the precondition that a selection is set.
