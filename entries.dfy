/** The journal's entry model: the persisted record, its draft form, the
    outcome of a storage call, and the linear-scan lookups the entry store
    performs over its in-memory list. */
module Entries {

  datatype Option<+T> = None | Some(value: T) {
    /** `unwrap_or`: the carried value, or `default` when there is none. */
    function UnwrapOr(default: T): T {
      if Some? then value else default
    }
  }

  /** Why an operation of the store failed. `Storage` is any failure reported
      by the storage backend (opaque to the core); `EntryMissing` is the
      "journal entry should exist" error raised when the selection cursor
      does not resolve to an entry. */
  datatype Error = Storage | EntryMissing

  datatype Result<+T> = Ok(value: T) | Err(error: Error)

  /** A persisted journal entry. The backend assigns `id`; `date` is the
      timestamp the list is ordered by. */
  datatype Entry = Entry(id: nat, date: int, title: string, content: string)

  /** A not-yet-persisted entry: a timestamp and a title, no id, no content. */
  datatype EntryDraft = EntryDraft(date: int, title: string)

  /** No two entries of `s` share an identifier. */
  predicate UniqueIds(s: seq<Entry>) {
    forall i, j :: 0 <= i < j < |s| ==> s[i].id != s[j].id
  }

  /** Some entry of `s` has identifier `id`. */
  predicate HasId(s: seq<Entry>, id: nat) {
    exists i :: 0 <= i < |s| && s[i].id == id
  }

  /** Every key of a backend's store names the entry stored under it. */
  predicate Keyed(store: map<nat, Entry>) {
    forall k :: k in store ==> store[k].id == k
  }

  /** `s` lists exactly the entries of `store`, each once, and `store` keeps
      every entry under its own identifier. */
  predicate Mirrors(s: seq<Entry>, store: map<nat, Entry>) {
    && Keyed(store)
    && UniqueIds(s)
    && (forall e :: e in s ==> e.id in store && store[e.id] == e)
    && (forall k :: k in store ==> store[k] in s)
  }

  /** The position of the first entry of `s` whose identifier is `id`
      (`iter().position(|e| e.id == id)`). */
  function FindIndex(s: seq<Entry>, id: nat): (r: Option<nat>)
    ensures r.Some? ==> r.value < |s| && s[r.value].id == id
    ensures r.Some? ==> forall j :: 0 <= j < r.value ==> s[j].id != id
    ensures r.None? <==> !HasId(s, id)
  {
    if s == [] then None
    else if s[0].id == id then Some(0)
    else match FindIndex(s[1..], id)
      case None => None
      case Some(k) => Some(k + 1)
  }

  /** The first entry of `s` whose identifier is `id`
      (`iter().find(|e| e.id == id)`). */
  function Find(s: seq<Entry>, id: nat): (r: Option<Entry>)
    ensures r.Some? ==> r.value.id == id
    ensures r.Some? ==> exists i :: 0 <= i < |s| && s[i] == r.value && !HasId(s[..i], id)
    ensures r.None? <==> !HasId(s, id)
  {
    match FindIndex(s, id)
    case None => None
    case Some(i) =>
      assert !HasId(s[..i], id) by {
        forall j | 0 <= j < i ensures s[..i][j].id != id { }
      }
      Some(s[i])
  }

  /** With unique identifiers, looking up the id of a listed entry yields
      exactly that entry. */
  lemma FindListed(s: seq<Entry>, k: nat)
    requires UniqueIds(s) && k < |s|
    ensures Find(s, s[k].id) == Some(s[k])
  {
    assert FindIndex(s, s[k].id).Some?;
  }

  /** Removing an entry from a list with unique identifiers leaves no entry
      with its identifier. */
  lemma RemovedIsGone(s: seq<Entry>, i: nat)
    requires UniqueIds(s) && i < |s|
    ensures !HasId(s[..i] + s[i + 1..], s[i].id)
  {
    var t := s[..i] + s[i + 1..];
    forall j | 0 <= j < |t| ensures t[j].id != s[i].id {
      if j < i {
        assert t[j] == s[j];
      } else {
        assert t[j] == s[j + 1];
      }
    }
  }

  /** Removing one entry keeps the identifiers unique and every other
      identifier present. */
  lemma RemovePreservesIds(s: seq<Entry>, i: nat, id: nat)
    requires i < |s|
    ensures UniqueIds(s) ==> UniqueIds(s[..i] + s[i + 1..])
    ensures id != s[i].id && HasId(s, id) ==> HasId(s[..i] + s[i + 1..], id)
  {
    var t := s[..i] + s[i + 1..];
    assert forall j :: 0 <= j < |t| ==> t[j] == if j < i then s[j] else s[j + 1];
    if id != s[i].id && HasId(s, id) {
      var k :| 0 <= k < |s| && s[k].id == id;
      if k < i {
        assert t[k].id == id;
      } else {
        assert t[k - 1].id == id;
      }
    }
  }

  /** Appending an entry whose identifier the store does not use mirrors the
      store extended with that entry. */
  lemma MirrorsAppend(s: seq<Entry>, store: map<nat, Entry>, e: Entry)
    requires Mirrors(s, store) && e.id !in store
    ensures Mirrors(s + [e], store[e.id := e])
  {
    var t := s + [e];
    forall i, j | 0 <= i < j < |t| ensures t[i].id != t[j].id {
      assert t[i] in s;
      if j < |s| {
        assert t[i] == s[i] && t[j] == s[j];
      }
    }
    forall x | x in t ensures x.id in store[e.id := e] && store[e.id := e][x.id] == x {
      if x != e {
        assert x in s;
      }
    }
  }

  /** Replacing the entry at `i` by one with the same identifier mirrors the
      store updated under that identifier. */
  lemma MirrorsReplace(s: seq<Entry>, store: map<nat, Entry>, i: nat, e: Entry)
    requires Mirrors(s, store) && i < |s| && e.id == s[i].id
    ensures Mirrors(s[i := e], store[e.id := e])
  {
    var t := s[i := e];
    var m := store[e.id := e];
    forall x | x in t ensures x.id in m && m[x.id] == x {
      var j :| 0 <= j < |t| && t[j] == x;
      if j != i {
        assert s[j] == x && s[j].id != s[i].id;
      }
    }
    forall k | k in m ensures m[k] in t {
      if k != e.id {
        var j :| 0 <= j < |s| && s[j] == store[k];
        assert s[j].id == k;
        assert j != i;
        assert t[j] == m[k];
      } else {
        assert t[i] == m[k];
      }
    }
  }

  /** Removing the entry at `i` mirrors the store without its identifier. */
  lemma MirrorsRemove(s: seq<Entry>, store: map<nat, Entry>, i: nat)
    requires Mirrors(s, store) && i < |s|
    ensures Mirrors(s[..i] + s[i + 1..], store - {s[i].id})
  {
    var t := s[..i] + s[i + 1..];
    var m := store - {s[i].id};
    RemovePreservesIds(s, i, 0);
    forall x | x in t ensures x.id in m && m[x.id] == x {
      var j :| 0 <= j < |t| && t[j] == x;
      var k := if j < i then j else j + 1;
      assert s[k] == x;
      assert x.id != s[i].id;
    }
    forall key | key in m ensures m[key] in t {
      var j :| 0 <= j < |s| && s[j] == store[key];
      assert s[j].id == key;
      assert j != i;
      if j < i {
        assert t[j] == m[key];
      } else {
        assert t[j - 1] == m[key];
      }
    }
  }
}
