/** The entry store (`App` in src/app/mod.rs): the in-memory list of entries,
    kept newest first; the selection cursor; and the operations that change
    them, each going through the storage backend. */
module JournalApp {
  import opened Entries
  import opened Sorting
  import opened Backend

  /** The selection after the entry with identifier `removed` was deleted,
      leaving `remaining`: when the selection, read as 0 if unset, names the
      removed entry, the first remaining entry becomes selected (none when
      nothing remains); otherwise the selection stays. */
  function SelectionAfterDelete(current: Option<nat>, removed: nat, remaining: seq<Entry>): (r: Option<nat>)
    ensures current.UnwrapOr(0) != removed ==> r == current
    ensures current.UnwrapOr(0) == removed ==> (r.None? <==> remaining == [])
    ensures current.UnwrapOr(0) == removed && remaining != [] ==> r == Some(remaining[0].id)
  {
    if current.UnwrapOr(0) == removed then
      if remaining == [] then None else Some(remaining[0].id)
    else current
  }

  /** Deleting an entry never leaves the selection naming a missing entry,
      and, with unique identifiers, never leaves it naming the deleted one. */
  lemma SelectionAfterDeleteValid(current: Option<nat>, s: seq<Entry>, i: nat)
    requires i < |s|
    requires current.Some? ==> HasId(s, current.value)
    ensures var r := SelectionAfterDelete(current, s[i].id, s[..i] + s[i + 1..]);
      && (r.Some? ==> HasId(s[..i] + s[i + 1..], r.value))
      && (UniqueIds(s) ==> r != Some(s[i].id))
  {
    var remaining := s[..i] + s[i + 1..];
    if current.Some? && current.value != s[i].id {
      RemovePreservesIds(s, i, current.value);
    }
    if UniqueIds(s) {
      RemovedIsGone(s, i);
      if remaining != [] {
        assert remaining[0].id != s[i].id;
      }
    }
  }

  /** With nothing selected, deleting an entry whose identifier is 0 still
      selects the first remaining entry, because the unset selection is read
      as 0. */
  lemma UnsetSelectionReadsAsZero(remaining: seq<Entry>)
    requires remaining != []
    ensures SelectionAfterDelete(None, 0, remaining) == Some(remaining[0].id)
  {
  }

  /** Adding an entry under an unused identifier and re-sorting keeps the
      list in step with the store that gained it, makes the entry findable
      by its identifier, and loses no identifier. */
  lemma AddedAndSorted(s: seq<Entry>, store: map<nat, Entry>, e: Entry)
    requires e.id !in store
    ensures Mirrors(s, store) ==> Mirrors(SortDesc(s + [e]), store[e.id := e])
    ensures Mirrors(s, store) ==> Find(SortDesc(s + [e]), e.id) == Some(e)
    ensures forall id :: HasId(s, id) ==> HasId(SortDesc(s + [e]), id)
  {
    var t := s + [e];
    if Mirrors(s, store) {
      MirrorsAppend(s, store, e);
      SortDescMirrors(t, store[e.id := e]);
      SortDescMembers(t, e);
      var k :| 0 <= k < |SortDesc(t)| && SortDesc(t)[k] == e;
      FindListed(SortDesc(t), k);
    }
    forall id | HasId(s, id) ensures HasId(SortDesc(t), id) {
      SortDescHasId(t, id);
      var k :| 0 <= k < |s| && s[k].id == id;
      assert t[k].id == id;
    }
  }

  /** Replacing the entry at `i` by one with the same identifier keeps the
      list in step with the store updated alike, keeps every identifier and,
      when the date is unchanged, the newest-first order. */
  lemma Edited(s: seq<Entry>, store: map<nat, Entry>, i: nat, e: Entry)
    requires i < |s| && e.id == s[i].id
    ensures Mirrors(s, store) ==> Mirrors(s[i := e], store[e.id := e])
    ensures forall id :: HasId(s, id) ==> HasId(s[i := e], id)
    ensures SortedDesc(s) && e.date == s[i].date ==> SortedDesc(s[i := e])
  {
    if Mirrors(s, store) {
      MirrorsReplace(s, store, i, e);
    }
    forall id | HasId(s, id) ensures HasId(s[i := e], id) {
      var k :| 0 <= k < |s| && s[k].id == id;
      assert s[i := e][k].id == id;
    }
  }

  /** Replacing the entry at `i` and re-sorting keeps the list in step with
      the store updated alike, makes the new entry findable by its
      identifier, and loses no identifier. */
  lemma EditedAndSorted(s: seq<Entry>, store: map<nat, Entry>, i: nat, e: Entry)
    requires i < |s| && e.id == s[i].id
    ensures Mirrors(s, store) ==> Mirrors(SortDesc(s[i := e]), store[e.id := e])
    ensures Mirrors(s, store) ==> Find(SortDesc(s[i := e]), e.id) == Some(e)
    ensures forall id :: HasId(s, id) ==> HasId(SortDesc(s[i := e]), id)
  {
    var t := s[i := e];
    Edited(s, store, i, e);
    var r := SortDesc(t);
    if Mirrors(s, store) {
      assert Mirrors(t, store[e.id := e]);
      SortDescMirrors(t, store[e.id := e]);
      assert t[i] == e;
      SortDescMembers(t, e);
      var k :| 0 <= k < |r| && r[k] == e;
      FindListed(r, k);
    }
    forall id | HasId(s, id) ensures HasId(r, id) {
      assert HasId(t, id);
      SortDescHasId(t, id);
    }
  }

  /** A change kept in the list after the backend refused to store it: when
      the change made the entry differ, the list no longer mirrors the store. */
  lemma FailedEditDiverges(s: seq<Entry>, store: map<nat, Entry>, i: nat, e: Entry)
    requires Mirrors(s, store) && i < |s| && e.id == s[i].id && e != s[i]
    ensures !Mirrors(s[i := e], store)
  {
    assert s[i] in s;
    assert s[i := e][i] == e;
  }

  class App {
    /** The storage backend every mutation goes through. */
    const provider: Provider
    /** The in-memory entries. */
    var entries: seq<Entry>
    /** The identifier of the selected entry, if any. */
    var currentEntryId: Option<nat>

    /** `App::new`: no entries and no selection. */
    constructor (provider: Provider)
      ensures this.provider == provider
      ensures entries == [] && currentEntryId == None
    {
      this.provider := provider;
      entries := [];
      currentEntryId := None;
    }

    /** The in-memory list lists exactly what the backend stores. */
    ghost predicate Synced()
      reads this, provider
    {
      Mirrors(entries, provider.store)
    }

    /** The selection, when set, names an entry of the list. */
    ghost predicate SelectionValid()
      reads this
    {
      currentEntryId.Some? ==> HasId(entries, currentEntryId.value)
    }

    /** `get_entry`: the first entry with identifier `id`, or none. */
    function GetEntry(id: nat): (r: Option<Entry>)
      reads this
      ensures r.Some? ==> r.value.id == id
      ensures r.Some? ==> exists i :: 0 <= i < |entries| && entries[i] == r.value && !HasId(entries[..i], id)
      ensures r.None? <==> !HasId(entries, id)
    {
      Find(entries, id)
    }

    /** `get_current_entry`: the entry the selection names, or none when the
        selection is unset or names no entry of the list. */
    function GetCurrentEntry(): (r: Option<Entry>)
      reads this
      ensures currentEntryId.None? ==> r.None?
      ensures currentEntryId.Some? ==> (r.None? <==> !HasId(entries, currentEntryId.value))
      ensures r.Some? ==> r.value in entries && currentEntryId == Some(r.value.id)
      ensures r.Some? ==> exists i :: 0 <= i < |entries| && entries[i] == r.value && !HasId(entries[..i], r.value.id)
    {
      match currentEntryId
      case None => None
      case Some(id) => Find(entries, id)
    }

    /** `get_current_entry_mut`: the position of the entry the selection
        names, through which it is changed in place. */
    function CurrentIndex(): (r: Option<nat>)
      reads this
      ensures r.None? <==> GetCurrentEntry().None?
      ensures r.Some? ==> r.value < |entries| && GetCurrentEntry() == Some(entries[r.value])
      ensures r.Some? ==> forall j :: 0 <= j < r.value ==> Some(entries[j].id) != currentEntryId
    {
      match currentEntryId
      case None => None
      case Some(id) => FindIndex(entries, id)
    }

    /** `load_entries`: replaces the list by what the backend returns,
        sorted newest first; on a backend failure nothing changes. */
    method LoadEntries() returns (r: Result<()>, ghost loaded: seq<Entry>)
      requires provider.Valid()
      modifies this
      ensures currentEntryId == old(currentEntryId)
      ensures r.Err? ==> r.error == Storage && entries == old(entries)
      ensures r.Ok? ==> Mirrors(loaded, provider.store) && entries == SortDesc(loaded)
      ensures r.Ok? ==> SortedDesc(entries) && multiset(entries) == multiset(loaded)
      ensures r.Ok? ==> forall d :: WithDate(entries, d) == WithDate(loaded, d)
      ensures r.Ok? ==> Synced()
    {
      var all := provider.LoadAllEntries();
      if all.Err? {
        return Err(all.error), [];
      }
      entries := SortDesc(all.value);
      loaded := all.value;
      forall d ensures WithDate(entries, d) == WithDate(loaded, d) {
        SortDescStable(loaded, d);
      }
      SortDescMirrors(loaded, provider.store);
      r := Ok(());
    }

    /** `add_entry`: has the backend create an entry from a draft, then adds
        it to the list and re-sorts; on a backend failure nothing changes. */
    method AddEntry(title: string, date: int) returns (r: Result<nat>, ghost added: Entry)
      requires provider.Valid()
      modifies this, provider
      ensures provider.Valid()
      ensures currentEntryId == old(currentEntryId)
      ensures r.Err? ==> r.error == Storage && entries == old(entries) && provider.store == old(provider.store)
      ensures r.Ok? ==> added == Entry(r.value, date, title, "") && r.value !in old(provider.store)
      ensures r.Ok? ==> provider.store == old(provider.store)[r.value := added]
      ensures r.Ok? ==> entries == SortDesc(old(entries) + [added])
      ensures r.Ok? ==> SortedDesc(entries) && |entries| == |old(entries)| + 1
      ensures r.Ok? ==> multiset(entries) == multiset(old(entries)) + multiset{added}
      ensures old(Synced()) ==> Synced()
      ensures r.Ok? && old(Synced()) ==> GetEntry(r.value) == Some(added)
      ensures old(SelectionValid()) ==> SelectionValid()
    {
      var created := provider.AddEntry(EntryDraft(date, title));
      if created.Err? {
        return Err(created.error), Entry(0, date, title, "");
      }
      var entry := created.value;
      var extended := entries + [entry];
      entries := SortDesc(extended);
      r := Ok(entry.id);
      added := entry;
      AddedAndSorted(old(entries), old(provider.store), entry);
    }

    /** `update_current_entry`: the selection must be set. Sets the title
        and date of the selected entry in the list, then has the backend
        store it, then re-sorts; a failing backend call leaves the change in
        the list, unsorted. A selection that names no entry is an error and
        changes nothing. */
    method UpdateCurrentEntry(title: string, date: int) returns (r: Result<()>)
      requires currentEntryId.Some?
      requires provider.Valid()
      modifies this, provider
      ensures provider.Valid()
      ensures currentEntryId == old(currentEntryId)
      ensures old(CurrentIndex()).None? ==>
        r == Err(EntryMissing) && entries == old(entries) && provider.store == old(provider.store)
      ensures old(CurrentIndex()).Some? ==>
        var i := old(CurrentIndex()).value;
        var updated := old(entries)[i].(title := title, date := date);
        && (r.Err? ==> r.error == Storage && entries == old(entries)[i := updated]
                       && provider.store == old(provider.store))
        && (r.Ok? ==> entries == SortDesc(old(entries)[i := updated])
                      && provider.store == old(provider.store)[updated.id := updated])
      ensures r.Ok? ==> SortedDesc(entries)
      ensures r.Ok? && old(Synced()) ==> Synced()
      ensures r.Ok? && old(Synced()) ==>
        && old(GetCurrentEntry()).Some?
        && GetCurrentEntry() == Some(old(GetCurrentEntry()).value.(title := title, date := date))
      ensures old(SelectionValid()) ==> SelectionValid()
    {
      var index := CurrentIndex();
      if index.None? {
        return Err(EntryMissing);
      }
      var i := index.value;
      var updated := entries[i].(title := title, date := date);
      entries := entries[i := updated];
      var edited := entries;
      var stored := provider.UpdateEntry(updated);
      if stored.Err? {
        Edited(old(entries), old(provider.store), i, updated);
        return Err(stored.error);
      }
      entries := SortDesc(edited);
      r := Ok(());
      EditedAndSorted(old(entries), old(provider.store), i, updated);
    }

    /** `update_current_entry_content`: with no resolvable selection, does
        nothing and succeeds. Otherwise sets the selected entry's content in
        the list, in place and without re-sorting, then has the backend store
        it; a failing backend call leaves the change in the list. */
    method UpdateCurrentEntryContent(content: string) returns (r: Result<()>)
      requires provider.Valid()
      modifies this, provider
      ensures provider.Valid()
      ensures currentEntryId == old(currentEntryId)
      ensures old(CurrentIndex()).None? ==>
        r == Ok(()) && entries == old(entries) && provider.store == old(provider.store)
      ensures old(CurrentIndex()).Some? ==>
        var i := old(CurrentIndex()).value;
        var edited := old(entries)[i].(content := content);
        && entries == old(entries)[i := edited]
        && (r.Err? ==> r.error == Storage && provider.store == old(provider.store))
        && (r.Ok? ==> provider.store == old(provider.store)[edited.id := edited])
      ensures old(SortedDesc(entries)) ==> SortedDesc(entries)
      ensures r.Ok? && old(Synced()) ==> Synced()
      ensures old(SelectionValid()) ==> SelectionValid()
    {
      var index := CurrentIndex();
      if index.Some? {
        var i := index.value;
        var edited := entries[i].(content := content);
        entries := entries[i := edited];
        Edited(old(entries), old(provider.store), i, edited);
        var stored := provider.UpdateEntry(edited);
        if stored.Err? {
          return Err(stored.error);
        }
      }
      r := Ok(());
    }

    /** `delete_entry`: has the backend remove the entry first; only then
        removes it from the list (the entry must be there once the backend
        has removed it, which it does only for a stored id) and, when the
        selection named it, moves the selection to the first remaining
        entry. On a backend failure nothing changes. */
    method DeleteEntry(id: nat) returns (r: Result<()>)
      requires id in provider.store ==> HasId(entries, id)
      requires provider.Valid()
      modifies this, provider
      ensures provider.Valid()
      ensures r.Err? ==>
        && r.error == Storage && entries == old(entries)
        && currentEntryId == old(currentEntryId) && provider.store == old(provider.store)
      ensures r.Ok? ==> provider.store == old(provider.store) - {id}
      ensures r.Ok? ==> FindIndex(old(entries), id).Some?
      ensures r.Ok? ==>
        var i := FindIndex(old(entries), id).value;
        entries == old(entries)[..i] + old(entries)[i + 1..]
      ensures r.Ok? ==> currentEntryId == SelectionAfterDelete(old(currentEntryId), id, entries)
      ensures old(SortedDesc(entries)) ==> SortedDesc(entries)
      ensures old(Synced()) ==> Synced()
      ensures r.Ok? && old(UniqueIds(entries)) ==> GetEntry(id) == None
      ensures old(SelectionValid()) ==> SelectionValid()
    {
      r := provider.RemoveEntry(id);
      if r.Err? {
        return;
      }
      var i := FindIndex(entries, id).value;
      var removed := entries[i];
      entries := entries[..i] + entries[i + 1..];
      if currentEntryId.UnwrapOr(0) == removed.id {
        // `set_current_entry(first_id)`, taken as assigning the selection.
        currentEntryId := if entries == [] then None else Some(entries[0].id);
      }
      assert currentEntryId == SelectionAfterDelete(old(currentEntryId), id, entries);
      if old(SortedDesc(entries)) {
        RemoveKeepsSorted(old(entries), i);
      }
      if old(Synced()) {
        MirrorsRemove(old(entries), old(provider.store), i);
      }
      if old(UniqueIds(entries)) {
        RemovedIsGone(old(entries), i);
      }
      if old(SelectionValid()) {
        SelectionAfterDeleteValid(old(currentEntryId), old(entries), i);
      }
    }
  }
}
