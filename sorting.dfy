/** The order the entry store keeps its list in: newest first by `date`,
    as produced by `sort_by(|a, b| b.date.cmp(&a.date))`, a stable sort. */
module Sorting {
  import opened Entries

  /** Newest first: no entry is older than an entry after it. */
  predicate SortedDesc(s: seq<Entry>) {
    forall i, j :: 0 <= i < j < |s| ==> s[i].date >= s[j].date
  }

  /** The entries of `s` dated `d`, in their order in `s`. A sort is stable
      exactly when it keeps every such subsequence. */
  function WithDate(s: seq<Entry>, d: int): seq<Entry> {
    if s == [] then []
    else if s[0].date == d then [s[0]] + WithDate(s[1..], d)
    else WithDate(s[1..], d)
  }

  /** Puts `e` in front of the first entry of `s` that is not newer than it,
      so `e` lands before entries of `s` with the same date. */
  function Insert(e: Entry, s: seq<Entry>): (r: seq<Entry>)
    ensures multiset(r) == multiset(s) + multiset{e}
  {
    if s == [] || e.date >= s[0].date then [e] + s
    else
      assert s == [s[0]] + s[1..];
      [s[0]] + Insert(e, s[1..])
  }

  /** The members of `Insert(e, s)` are `e` and the members of `s`. */
  lemma InsertMembers(e: Entry, s: seq<Entry>, x: Entry)
    ensures x in Insert(e, s) <==> x == e || x in s
  {
    assert x in Insert(e, s) <==> x in multiset(Insert(e, s));
    assert x in s <==> x in multiset(s);
  }

  /** An entry no older than anything in a newest-first list can head it. */
  lemma SortedCons(h: Entry, t: seq<Entry>)
    requires SortedDesc(t)
    requires forall x :: x in t ==> x.date <= h.date
    ensures SortedDesc([h] + t)
  {
    var r := [h] + t;
    forall i, j | 0 <= i < j < |r| ensures r[i].date >= r[j].date {
      if i == 0 {
        assert r[j] in t;
      } else {
        assert r[i] == t[i - 1] && r[j] == t[j - 1];
      }
    }
  }

  /** Inserting into a newest-first list keeps it newest first. */
  lemma {:induction false} InsertSorted(e: Entry, s: seq<Entry>)
    requires SortedDesc(s)
    ensures SortedDesc(Insert(e, s))
  {
    if s == [] || e.date >= s[0].date {
      SortedCons(e, s);
    } else {
      var t := Insert(e, s[1..]);
      InsertSorted(e, s[1..]);
      forall x | x in t ensures x.date <= s[0].date {
        InsertMembers(e, s[1..], x);
      }
      SortedCons(s[0], t);
    }
  }

  /** The stable newest-first sort of `s`: an insertion sort that inserts
      each entry in front of the already sorted entries that followed it. */
  function SortDesc(s: seq<Entry>): (r: seq<Entry>)
    ensures SortedDesc(r)
    ensures multiset(r) == multiset(s)
    ensures |r| == |s|
  {
    if s == [] then []
    else
      assert s == [s[0]] + s[1..];
      InsertSorted(s[0], SortDesc(s[1..]));
      Insert(s[0], SortDesc(s[1..]))
  }

  /** Inserting `e` adds it in front of the entries of its own date and
      leaves every other date's subsequence alone. */
  lemma {:induction false} InsertWithDate(e: Entry, s: seq<Entry>, d: int)
    ensures WithDate(Insert(e, s), d) == (if e.date == d then [e] else []) + WithDate(s, d)
  {
    if s == [] || e.date >= s[0].date {
      assert ([e] + s)[1..] == s;
    } else {
      var t := Insert(e, s[1..]);
      assert ([s[0]] + t)[1..] == t;
      InsertWithDate(e, s[1..], d);
    }
  }

  /** The sort is stable: for every date, the entries of that date appear in
      the result in the order they had in the input. */
  lemma {:induction false} SortDescStable(s: seq<Entry>, d: int)
    ensures WithDate(SortDesc(s), d) == WithDate(s, d)
  {
    if s != [] {
      SortDescStable(s[1..], d);
      InsertWithDate(s[0], SortDesc(s[1..]), d);
    }
  }

  /** An entry of `s` dated `d` shows up in `WithDate(s, d)`, and everything
      in `WithDate(s, d)` is an entry of `s` dated `d`. */
  lemma {:induction false} WithDateMembers(s: seq<Entry>, d: int, x: Entry)
    ensures x in WithDate(s, d) <==> x in s && x.date == d
  {
    if s != [] {
      WithDateMembers(s[1..], d, x);
      assert s == [s[0]] + s[1..];
    }
  }

  /** No entry of a newest-first list is newer than its head. */
  lemma SortedHeadIsNewest(s: seq<Entry>, x: Entry)
    requires SortedDesc(s) && s != [] && x in s
    ensures x.date <= s[0].date
  {
  }

  /** A non-empty list has entries dated like its head. */
  lemma HeadDated(s: seq<Entry>)
    ensures s != [] ==> WithDate(s, s[0].date) != []
  {
  }

  /** Two newest-first lists that agree on every date's subsequence are equal:
      a stable newest-first order is unique. */
  lemma {:induction false} SortedUnique(a: seq<Entry>, b: seq<Entry>)
    requires SortedDesc(a) && SortedDesc(b)
    requires forall d :: WithDate(a, d) == WithDate(b, d)
    ensures a == b
    decreases |a| + |b|
  {
    if a == [] || b == [] {
      HeadDated(a);
      HeadDated(b);
    } else {
      var da, db := a[0].date, b[0].date;
      WithDateMembers(a, da, a[0]);
      WithDateMembers(b, da, a[0]);
      WithDateMembers(b, db, b[0]);
      WithDateMembers(a, db, b[0]);
      SortedHeadIsNewest(a, b[0]);
      SortedHeadIsNewest(b, a[0]);
      assert da == db;
      assert a == [a[0]] + a[1..] && b == [b[0]] + b[1..];
      assert WithDate(a, da) == [a[0]] + WithDate(a[1..], da);
      assert WithDate(b, da) == [b[0]] + WithDate(b[1..], da);
      assert WithDate(a, da) == WithDate(b, da);
      assert a[0] == WithDate(a, da)[0] == WithDate(b, da)[0] == b[0];
      forall d ensures WithDate(a[1..], d) == WithDate(b[1..], d) {
        assert WithDate(a, d) == WithDate(b, d);
        if da == d {
          assert WithDate(a, d) == [a[0]] + WithDate(a[1..], d);
          assert WithDate(b, d) == [a[0]] + WithDate(b[1..], d);
          assert WithDate(a[1..], d) == WithDate(a, d)[1..];
          assert WithDate(b[1..], d) == WithDate(b, d)[1..];
        }
      }
      SortedUnique(a[1..], b[1..]);
    }
  }

  /** `SortDesc` is the stable newest-first sort: any newest-first list that
      keeps every date's subsequence of `s` is `SortDesc(s)`. */
  lemma SortDescIsStableSort(s: seq<Entry>, r: seq<Entry>)
    requires SortedDesc(r)
    requires forall d :: WithDate(r, d) == WithDate(s, d)
    ensures r == SortDesc(s)
  {
    forall d ensures WithDate(r, d) == WithDate(SortDesc(s), d) {
      SortDescStable(s, d);
    }
    SortedUnique(r, SortDesc(s));
  }

  /** Sorting a list that is already newest first changes nothing. */
  lemma SortDescOfSorted(s: seq<Entry>)
    requires SortedDesc(s)
    ensures SortDesc(s) == s
  {
    SortDescIsStableSort(s, s);
  }

  /** Sorting keeps the set of members. */
  lemma SortDescMembers(s: seq<Entry>, x: Entry)
    ensures x in SortDesc(s) <==> x in s
  {
    assert x in SortDesc(s) <==> x in multiset(SortDesc(s));
  }

  /** Sorting keeps identifiers unique. */
  lemma {:induction false} SortDescUniqueIds(s: seq<Entry>)
    requires UniqueIds(s)
    ensures UniqueIds(SortDesc(s))
  {
    if s != [] {
      SortDescUniqueIds(s[1..]);
      forall x | x in SortDesc(s[1..]) ensures x.id != s[0].id {
        SortDescMembers(s[1..], x);
        var k :| 0 <= k < |s[1..]| && s[1..][k] == x;
        assert s[k + 1] == x;
      }
      InsertUniqueIds(s[0], SortDesc(s[1..]));
    }
  }

  lemma {:induction false} InsertUniqueIds(e: Entry, s: seq<Entry>)
    requires UniqueIds(s)
    requires forall x :: x in s ==> x.id != e.id
    ensures UniqueIds(Insert(e, s))
  {
    if s == [] || e.date >= s[0].date {
      var r := [e] + s;
      forall i, j | 0 <= i < j < |r| ensures r[i].id != r[j].id {
        if i == 0 {
          assert r[j] in s;
        } else {
          assert r[i] == s[i - 1] && r[j] == s[j - 1];
        }
      }
    } else {
      var t := Insert(e, s[1..]);
      InsertUniqueIds(e, s[1..]);
      var r := [s[0]] + t;
      forall i, j | 0 <= i < j < |r| ensures r[i].id != r[j].id {
        if i == 0 {
          assert r[j] in multiset(t);
          assert r[j] == e || r[j] in s[1..];
          if r[j] != e {
            var k :| 0 <= k < |s[1..]| && s[1..][k] == r[j];
            assert s[k + 1] == r[j];
          }
        } else {
          assert r[i] == t[i - 1] && r[j] == t[j - 1];
        }
      }
    }
  }

  /** Sorting a list that mirrors a store gives a list that mirrors it too. */
  lemma SortDescMirrors(s: seq<Entry>, store: map<nat, Entry>)
    requires Mirrors(s, store)
    ensures Mirrors(SortDesc(s), store)
  {
    SortDescUniqueIds(s);
    forall x ensures x in SortDesc(s) <==> x in s {
      SortDescMembers(s, x);
    }
  }

  /** Removing any one entry of a newest-first list keeps it newest first. */
  lemma RemoveKeepsSorted(s: seq<Entry>, i: nat)
    requires SortedDesc(s) && i < |s|
    ensures SortedDesc(s[..i] + s[i + 1..])
  {
    var t := s[..i] + s[i + 1..];
    assert forall j :: 0 <= j < |t| ==> t[j] == if j < i then s[j] else s[j + 1];
  }

  /** Sorting keeps the set of identifiers. */
  lemma SortDescHasId(s: seq<Entry>, id: nat)
    ensures HasId(SortDesc(s), id) <==> HasId(s, id)
  {
    var r := SortDesc(s);
    if HasId(s, id) {
      var k :| 0 <= k < |s| && s[k].id == id;
      SortDescMembers(s, s[k]);
    }
    if HasId(r, id) {
      var k :| 0 <= k < |r| && r[k].id == id;
      SortDescMembers(s, r[k]);
    }
  }

  /** The subsequence of one date distributes over concatenation. */
  lemma {:induction false} WithDateConcat(a: seq<Entry>, b: seq<Entry>, d: int)
    ensures WithDate(a + b, d) == WithDate(a, d) + WithDate(b, d)
  {
    if a != [] {
      assert (a + b)[0] == a[0];
      assert (a + b)[1..] == a[1..] + b;
      WithDateConcat(a[1..], b, d);
      if a[0].date == d {
        assert WithDate(a + b, d) == [a[0]] + (WithDate(a[1..], d) + WithDate(b, d));
        assert WithDate(a, d) == [a[0]] + WithDate(a[1..], d);
      } else {
        assert WithDate(a + b, d) == WithDate(a[1..], d) + WithDate(b, d);
        assert WithDate(a, d) == WithDate(a[1..], d);
      }
    } else {
      assert a + b == b;
    }
  }

  /** Pushing an entry at the end and re-sorting puts it after every entry
      already listed with the same date, and leaves every other date's
      subsequence as it was. */
  lemma PushedLastAmongTies(s: seq<Entry>, e: Entry, d: int)
    ensures WithDate(SortDesc(s + [e]), d) == WithDate(s, d) + (if e.date == d then [e] else [])
  {
    SortDescStable(s + [e], d);
    WithDateConcat(s, [e], d);
    assert [e][1..] == [];
  }
}
