/** The storage backend the entry store depends on (`DataProvider`), as an
    abstract oracle: a map from identifier to entry, and four calls that can
    each fail, the choice between success and failure being left open. */
module Backend {
  import opened Entries

  /** A strict upper bound of a finite set of identifiers. */
  ghost function Bound(ids: set<nat>): (b: nat)
    ensures forall k :: k in ids ==> k < b
    decreases ids
  {
    if ids == {} then 0
    else
      var k :| k in ids;
      var rest := Bound(ids - {k});
      var b := if k < rest then rest else k + 1;
      assert forall x :: x in ids ==> x < b by {
        forall x | x in ids ensures x < b {
          if x != k {
            assert x in ids - {k};
          }
        }
      }
      b
  }

  /** Some listing of the entries of `store`, in no particular order. */
  ghost function ListingOf(store: map<nat, Entry>): (s: seq<Entry>)
    requires Keyed(store)
    ensures Mirrors(s, store)
    decreases |store|
  {
    if store == map[] then []
    else
      var k :| k in store;
      var rest := store - {k};
      assert rest.Keys == store.Keys - {k};
      var t := ListingOf(rest);
      MirrorsCons(store, k, t);
      [store[k]] + t
  }

  /** Listing the entry under `k` in front of a listing of the rest of the
      store lists the whole store. */
  lemma MirrorsCons(store: map<nat, Entry>, k: nat, t: seq<Entry>)
    requires Keyed(store) && k in store
    requires Mirrors(t, store - {k})
    ensures Mirrors([store[k]] + t, store)
  {
    var rest := store - {k};
    var s := [store[k]] + t;
    forall e | e in s ensures e.id in store && store[e.id] == e {
      if e != store[k] {
        assert e in t;
        assert e.id in rest && rest[e.id] == e;
      }
    }
    forall key | key in store ensures store[key] in s {
      if key != k {
        assert key in rest && rest[key] in t;
      }
    }
    forall i, j | 0 <= i < j < |s| ensures s[i].id != s[j].id {
      if i == 0 {
        assert s[j] in t;
      } else {
        assert s[i] == t[i - 1] && s[j] == t[j - 1];
      }
    }
  }

  class Provider {
    /** The persisted entries, by identifier. */
    var store: map<nat, Entry>

    ghost predicate Valid()
      reads this
    {
      Keyed(store)
    }

    constructor (initial: map<nat, Entry>)
      requires Keyed(initial)
      ensures Valid() && store == initial
    {
      store := initial;
    }

    /** `load_all_entries`: every stored entry once, in an order of the
        backend's choosing. */
    method LoadAllEntries() returns (r: Result<seq<Entry>>)
      requires Valid()
      ensures r.Ok? ==> Mirrors(r.value, store)
      ensures r.Err? ==> r.error == Storage
    {
      var succeeds: bool := *;
      if !succeeds {
        return Err(Storage);
      }
      ghost var listing := ListingOf(store);
      var s :| Mirrors(s, store);
      r := Ok(s);
    }

    /** `add_entry`: stores a new entry made from `draft` under an identifier
        not yet in use, with empty content, and returns it. */
    method AddEntry(draft: EntryDraft) returns (r: Result<Entry>)
      requires Valid()
      modifies this
      ensures Valid()
      ensures r.Ok? ==> r.value.id !in old(store)
      ensures r.Ok? ==> r.value == Entry(r.value.id, draft.date, draft.title, "")
      ensures r.Ok? ==> store == old(store)[r.value.id := r.value]
      ensures r.Err? ==> r.error == Storage && store == old(store)
    {
      var succeeds: bool := *;
      if !succeeds {
        return Err(Storage);
      }
      ghost var bound := Bound(store.Keys);
      assert bound !in store;
      var id: nat :| id !in store;
      var entry := Entry(id, draft.date, draft.title, "");
      store := store[id := entry];
      r := Ok(entry);
    }

    /** `update_entry`: replaces the stored entry with the same identifier;
        fails when there is none. */
    method UpdateEntry(entry: Entry) returns (r: Result<()>)
      requires Valid()
      modifies this
      ensures Valid()
      ensures r.Ok? ==> entry.id in old(store) && store == old(store)[entry.id := entry]
      ensures r.Err? ==> r.error == Storage && store == old(store)
    {
      var succeeds: bool := *;
      if !succeeds || entry.id !in store {
        return Err(Storage);
      }
      store := store[entry.id := entry];
      r := Ok(());
    }

    /** `remove_entry`: deletes the stored entry with identifier `id`; fails
        when there is none. */
    method RemoveEntry(id: nat) returns (r: Result<()>)
      requires Valid()
      modifies this
      ensures Valid()
      ensures r.Ok? ==> id in old(store) && store == old(store) - {id}
      ensures r.Err? ==> r.error == Storage && store == old(store)
    {
      var succeeds: bool := *;
      if !succeeds || id !in store {
        return Err(Storage);
      }
      store := store - {id};
      r := Ok(());
    }
  }
}
