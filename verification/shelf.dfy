/** A shelf's list of objects and the sprite layering it maintains
    (Shelf.cs). After every add or remove the list is sorted by x, largest
    first, by LINQ's stable `OrderByDescending`, and each object's
    `sortingOrder` is set to its index in that sorted copy. */
module Shelf {
  import opened Scene

  /** One shelf member as the sort sees it: its x, its position in the stored
      list, and which object it is. */
  datatype Entry = Entry(x: real, pos: nat, id: ObjId)

  /** The order `OrderByDescending(obj => obj.transform.position.x)` produces:
      a larger x first and, since that sort is stable, the earlier list
      position first among equal x. */
  predicate Before(a: Entry, b: Entry) {
    a.x > b.x || (a.x == b.x && a.pos < b.pos)
  }

  predicate StrictlySorted(l: seq<Entry>) {
    forall i, j :: 0 <= i < j < |l| ==> Before(l[i], l[j])
  }

  predicate DistinctPositions(es: seq<Entry>) {
    forall i, j :: 0 <= i < j < |es| ==> es[i].pos != es[j].pos
  }

  /** The stored list as sort entries, in list order. */
  function Entries(items: map<ObjId, Item>, s: seq<ObjId>): seq<Entry>
    requires Members(items, s)
  {
    seq(|s|, k requires 0 <= k < |s| => Entry(items[s[k]].pos.x, k, s[k]))
  }

  /** Places `e` into a sorted list in front of the first entry it precedes. */
  function Insert(l: seq<Entry>, e: Entry): (r: seq<Entry>)
    ensures |r| == |l| + 1
    ensures multiset(r) == multiset(l) + multiset{e}
  {
    if l == [] then [e]
    else if Before(e, l[0]) then [e] + l
    else
      assert l == [l[0]] + l[1..];
      [l[0]] + Insert(l[1..], e)
  }

  /** A stable sort of the entries by x, largest first. */
  function SortByXDescending(es: seq<Entry>): (l: seq<Entry>)
    ensures |l| == |es|
    ensures multiset(l) == multiset(es)
  {
    if es == [] then []
    else
      assert es == es[..|es| - 1] + [es[|es| - 1]];
      Insert(SortByXDescending(es[..|es| - 1]), es[|es| - 1])
  }

  /** The loop `sortedObjects[i].SpriteRenderer.sortingOrder = i` from index
      `i` on: a later write to the same object overrides an earlier one. */
  function Assign(items: map<ObjId, Item>, l: seq<Entry>, i: nat): (r: map<ObjId, Item>)
    requires i <= |l|
    requires forall j :: 0 <= j < |l| ==> l[j].id in items
    ensures r.Keys == items.Keys
    ensures forall o :: o in items ==> r[o] == items[o].(sortingOrder := r[o].sortingOrder)
    decreases |l| - i
  {
    if i == |l| then items
    else Assign(items[l[i].id := items[l[i].id].(sortingOrder := i)], l, i + 1)
  }

  /** The loop does not touch an object with no entry from index `i` on. */
  lemma {:induction false} AssignLeavesOthers(items: map<ObjId, Item>, l: seq<Entry>, i: nat, o: ObjId)
    requires i <= |l|
    requires forall j :: 0 <= j < |l| ==> l[j].id in items
    requires o in items && forall j :: i <= j < |l| ==> l[j].id != o
    ensures Assign(items, l, i)[o] == items[o]
    decreases |l| - i
  {
    if i < |l| {
      AssignLeavesOthers(items[l[i].id := items[l[i].id].(sortingOrder := i)], l, i + 1, o);
    }
  }

  /** The last write wins: an entry with no later entry for the same object
      leaves that object with the entry's index. */
  lemma {:induction false} AssignLastWriteWins(items: map<ObjId, Item>, l: seq<Entry>, i: nat, j: nat)
    requires i <= j < |l|
    requires forall k :: 0 <= k < |l| ==> l[k].id in items
    requires forall k :: j < k < |l| ==> l[k].id != l[j].id
    ensures Assign(items, l, i)[l[j].id].sortingOrder == j
    decreases |l| - i
  {
    var next := items[l[i].id := items[l[i].id].(sortingOrder := i)];
    if i < j {
      AssignLastWriteWins(next, l, i + 1, j);
    } else {
      AssignLeavesOthers(next, l, i + 1, l[j].id);
    }
  }

  /** How many entries of `es` come before `e` in the sort order. */
  function CountBefore(es: seq<Entry>, e: Entry): nat
  {
    if es == [] then 0
    else CountBefore(es[..|es| - 1], e) + (if Before(es[|es| - 1], e) then 1 else 0)
  }

  /** Reference definition of the layering rank of list position `k`, with no
      sorting involved: the members with a larger x, plus the members earlier
      in the list with the same x. */
  function Rank(items: map<ObjId, Item>, s: seq<ObjId>, k: nat): nat
    requires Members(items, s)
    requires k < |s|
  {
    CountBefore(Entries(items, s), Entries(items, s)[k])
  }

  /** No later list position holds the same object as position `k`. */
  predicate LastOccurrence(s: seq<ObjId>, k: nat)
    requires k < |s|
  {
    forall j :: k < j < |s| ==> s[j] != s[k]
  }

  /** `after` is `before` with the layering of `s` applied: only sorting orders
      change, only members' orders change, and each member's order is the rank
      of its last list position (the loop's last write for that object). */
  predicate Layered(before: map<ObjId, Item>, s: seq<ObjId>, after: map<ObjId, Item>)
    requires Members(before, s)
  {
    && after.Keys == before.Keys
    && (forall o :: o in before ==> after[o] == before[o].(sortingOrder := after[o].sortingOrder))
    && (forall o :: o in before && o !in s ==> after[o] == before[o])
    && (forall k :: 0 <= k < |s| && LastOccurrence(s, k) ==> after[s[k]].sortingOrder == Rank(before, s, k))
  }

  /** `UpdateRenderingOrder`: sort a copy of the list, then number it. */
  function UpdateRenderingOrder(items: map<ObjId, Item>, s: seq<ObjId>): (r: map<ObjId, Item>)
    requires Members(items, s)
    ensures Layered(items, s, r)
  {
    var es := Entries(items, s);
    var l := SortByXDescending(es);
    SortedIdsAreMembers(items, s);
    var r := Assign(items, l, 0);
    AssignGivesRank(items, s);
    r
  }

  /** The result of `AddObjectToShelf` / `RemoveObjectFromShelf`: the shelf's new
      list and the objects with their new sorting orders. */
  datatype Shelved = Shelved(objects: seq<ObjId>, items: map<ObjId, Item>)

  /** `AddObjectToShelf`: append without a duplicate check, then re-layer. */
  function AddObjectToShelf(s: seq<ObjId>, items: map<ObjId, Item>, o: ObjId): (r: Shelved)
    requires Members(items, s)
    requires o in items
    ensures |r.objects| == |s| + 1 && r.objects[..|s|] == s && r.objects[|s|] == o
    ensures NoDup(s) && o !in s ==> NoDup(r.objects)
    ensures Members(items, r.objects)
    ensures Layered(items, r.objects, r.items)
  {
    var objects := s + [o];
    Shelved(objects, UpdateRenderingOrder(items, objects))
  }

  /** First list position holding `o`. */
  function IndexOf(s: seq<ObjId>, o: ObjId): (k: nat)
    requires o in s
    ensures k < |s| && s[k] == o && o !in s[..k]
  {
    if s[0] == o then 0
    else
      assert s == [s[0]] + s[1..];
      1 + IndexOf(s[1..], o)
  }

  /** `List.Remove`: deletes the first occurrence, if any. */
  function RemoveFirst(s: seq<ObjId>, o: ObjId): (r: seq<ObjId>)
    ensures o !in s ==> r == s
    ensures o in s ==> exists k :: 0 <= k < |s| && s[k] == o && o !in s[..k] && r == s[..k] + s[k + 1..]
    ensures multiset(r) == multiset(s) - multiset{o}
    ensures NoDup(s) ==> NoDup(r) && o !in r
  {
    if o in s then
      var k := IndexOf(s, o);
      assert s == s[..k] + [o] + s[k + 1..];
      NoDupRemoveAt(s, k);
      s[..k] + s[k + 1..]
    else
      s
  }

  /** Deleting one position from a list without duplicates leaves a list
      without duplicates that no longer holds the deleted object. */
  lemma NoDupRemoveAt(s: seq<ObjId>, k: nat)
    requires k < |s|
    ensures NoDup(s) ==> NoDup(s[..k] + s[k + 1..]) && s[k] !in s[..k] + s[k + 1..]
  {
    var r := s[..k] + s[k + 1..];
    if NoDup(s) {
      forall j | 0 <= j < |r|
        ensures r[j] == (if j < k then s[j] else s[j + 1])
      {
      }
      forall i, j | 0 <= i < j < |r|
        ensures r[i] != r[j]
      {
        var i', j' := if i < k then i else i + 1, if j < k then j else j + 1;
        assert r[i] == s[i'] && r[j] == s[j'];
      }
      forall j | 0 <= j < |r|
        ensures r[j] != s[k]
      {
        var j' := if j < k then j else j + 1;
        assert r[j] == s[j'];
      }
    }
  }

  /** `RemoveObjectFromShelf`: delete the first occurrence, then re-layer. */
  function RemoveObjectFromShelf(s: seq<ObjId>, items: map<ObjId, Item>, o: ObjId): (r: Shelved)
    requires Members(items, s)
    ensures multiset(r.objects) == multiset(s) - multiset{o}
    ensures o !in s ==> r.objects == s
    ensures o in s ==> exists k :: 0 <= k < |s| && s[k] == o && o !in s[..k] && r.objects == s[..k] + s[k + 1..]
    ensures NoDup(s) ==> NoDup(r.objects) && o !in r.objects
    ensures forall x :: x in r.objects ==> x in s
    ensures Members(items, r.objects)
    ensures Layered(items, r.objects, r.items)
  {
    var objects := RemoveFirst(s, o);
    assert forall x :: x in objects ==> x in multiset(s);
    Shelved(objects, UpdateRenderingOrder(items, objects))
  }

  // ---------------------------------------------------------------------------
  // Proofs about the sort and the counting reference.

  lemma {:induction false} InsertKeepsSorted(l: seq<Entry>, e: Entry)
    requires StrictlySorted(l)
    requires forall i :: 0 <= i < |l| ==> l[i].pos != e.pos
    ensures StrictlySorted(Insert(l, e))
    decreases |l|
  {
    if l == [] {
    } else if Before(e, l[0]) {
      forall j | 0 <= j < |l|
        ensures Before(e, l[j])
      {
        if j > 0 {
          assert Before(l[0], l[j]);
        }
      }
      ConsKeepsSorted(e, l);
    } else {
      assert l == [l[0]] + l[1..];
      var rest := Insert(l[1..], e);
      InsertKeepsSorted(l[1..], e);
      forall j | 0 <= j < |rest|
        ensures Before(l[0], rest[j])
      {
        assert rest[j] in multiset(l[1..]) + multiset{e};
        if rest[j] != e {
          assert rest[j] in l[1..];
        }
      }
      ConsKeepsSorted(l[0], rest);
    }
  }

  /** Putting an entry that precedes every entry of a sorted list in front
      keeps it sorted. */
  lemma ConsKeepsSorted(h: Entry, l: seq<Entry>)
    requires StrictlySorted(l)
    requires forall j :: 0 <= j < |l| ==> Before(h, l[j])
    ensures StrictlySorted([h] + l)
  {
    var r := [h] + l;
    forall i, j | 0 <= i < j < |r|
      ensures Before(r[i], r[j])
    {
      if i == 0 {
        assert r[j] == l[j - 1];
      } else {
        assert r[i] == l[i - 1] && r[j] == l[j - 1];
      }
    }
  }


  lemma {:induction false} SortIsSorted(es: seq<Entry>)
    requires DistinctPositions(es)
    ensures StrictlySorted(SortByXDescending(es))
    decreases |es|
  {
    if es != [] {
      var init, last := es[..|es| - 1], es[|es| - 1];
      var sorted := SortByXDescending(init);
      SortIsSorted(init);
      forall i | 0 <= i < |sorted|
        ensures sorted[i].pos != last.pos
      {
        assert sorted[i] in multiset(init);
        var j :| 0 <= j < |init| && init[j] == sorted[i];
        assert es[j] == init[j];
      }
      InsertKeepsSorted(sorted, last);
    }
  }

  lemma SortedCopyIsSorted(items: map<ObjId, Item>, s: seq<ObjId>)
    requires Members(items, s)
    ensures StrictlySorted(SortByXDescending(Entries(items, s)))
  {
    SortIsSorted(Entries(items, s));
  }

  /** Every entry of the sorted copy is an entry of the list. */
  lemma SortedEntryInList(items: map<ObjId, Item>, s: seq<ObjId>, e: Entry) returns (p: nat)
    requires Members(items, s)
    requires e in SortByXDescending(Entries(items, s))
    ensures p < |s| && e == Entries(items, s)[p] && p == e.pos && e.id == s[p]
  {
    var es := Entries(items, s);
    assert e in multiset(es);
    p :| 0 <= p < |es| && es[p] == e;
  }

  lemma SortedIdsAreMembers(items: map<ObjId, Item>, s: seq<ObjId>)
    requires Members(items, s)
    ensures forall j :: 0 <= j < |SortByXDescending(Entries(items, s))| ==> SortByXDescending(Entries(items, s))[j].id in items
  {
    var l := SortByXDescending(Entries(items, s));
    forall j | 0 <= j < |l|
      ensures l[j].id in items
    {
      var p := SortedEntryInList(items, s, l[j]);
    }
  }

  lemma {:induction false} CountBeforeAppend(a: seq<Entry>, b: seq<Entry>, e: Entry)
    ensures CountBefore(a + b, e) == CountBefore(a, e) + CountBefore(b, e)
    decreases |b|
  {
    if b == [] {
      assert a + b == a;
    } else {
      assert (a + b)[..|a + b| - 1] == a + b[..|b| - 1];
      CountBeforeAppend(a, b[..|b| - 1], e);
    }
  }

  /** Taking out position `j` removes one copy of `b[j]` and, from the count,
      exactly `b[j]`'s own contribution. */
  lemma CountBeforeRemoveAt(b: seq<Entry>, j: nat, e: Entry)
    requires j < |b|
    ensures multiset(b[..j] + b[j + 1..]) == multiset(b) - multiset{b[j]}
    ensures CountBefore(b, e) == CountBefore(b[..j] + b[j + 1..], e) + (if Before(b[j], e) then 1 else 0)
  {
    var x := b[j];
    assert b == b[..j] + [x] + b[j + 1..];
    CountBeforeAppend(b[..j], b[j + 1..], e);
    CountBeforeAppend(b[..j] + [x], b[j + 1..], e);
    CountBeforeAppend(b[..j], [x], e);
    assert [x][..0] == [];
  }

  /** The count depends only on which entries there are, not on their order. */
  lemma {:induction false} CountBeforePermutation(a: seq<Entry>, b: seq<Entry>, e: Entry)
    requires multiset(a) == multiset(b)
    ensures CountBefore(a, e) == CountBefore(b, e)
    decreases |a|
  {
    if a == [] {
      assert |b| == |multiset(b)| == 0;
    } else {
      var init, x := a[..|a| - 1], a[|a| - 1];
      assert a == init + [x];
      assert multiset(init) == multiset(a) - multiset{x};
      assert x in multiset(b);
      var j :| 0 <= j < |b| && b[j] == x;
      CountBeforeRemoveAt(b, j, e);
      CountBeforePermutation(init, b[..j] + b[j + 1..], e);
    }
  }

  lemma {:induction false} CountBeforeAll(p: seq<Entry>, e: Entry)
    requires forall j :: 0 <= j < |p| ==> Before(p[j], e)
    ensures CountBefore(p, e) == |p|
    decreases |p|
  {
    if p != [] {
      CountBeforeAll(p[..|p| - 1], e);
    }
  }

  /** In a strictly sorted list, the count before an entry is its index. */
  lemma {:induction false} SortedIndexIsCount(l: seq<Entry>, i: nat)
    requires StrictlySorted(l)
    requires i < |l|
    ensures CountBefore(l, l[i]) == i
    decreases |l|
  {
    var init := l[..|l| - 1];
    if i == |l| - 1 {
      CountBeforeAll(init, l[i]);
    } else {
      assert init[i] == l[i];
      SortedIndexIsCount(init, i);
    }
  }

  /** An entry that precedes another is preceded by strictly fewer entries. */
  lemma {:induction false} CountBeforeMonotone(es: seq<Entry>, a: Entry, b: Entry)
    requires Before(a, b)
    ensures CountBefore(es, a) + (if a in es then 1 else 0) <= CountBefore(es, b)
    decreases |es|
  {
    if es != [] {
      var init := es[..|es| - 1];
      assert es == init + [es[|es| - 1]];
      CountBeforeMonotone(init, a, b);
    }
  }

  lemma {:induction false} CountBeforeBound(es: seq<Entry>, e: Entry)
    requires e in es
    ensures CountBefore(es, e) < |es|
    decreases |es|
  {
    var init := es[..|es| - 1];
    assert es == init + [es[|es| - 1]];
    if e in init {
      CountBeforeBound(init, e);
    } else {
      assert CountBefore(init, e) <= |init| by { CountBeforeAtMost(init, e); }
    }
  }

  lemma {:induction false} CountBeforeAtMost(es: seq<Entry>, e: Entry)
    ensures CountBefore(es, e) <= |es|
    decreases |es|
  {
    if es != [] {
      CountBeforeAtMost(es[..|es| - 1], e);
    }
  }

  /** Locates list position `k` in the sorted copy: its index there is its rank. */
  lemma SortedIndexOf(items: map<ObjId, Item>, s: seq<ObjId>, k: nat) returns (i: nat)
    requires Members(items, s)
    requires k < |s|
    ensures i < |SortByXDescending(Entries(items, s))|
    ensures SortByXDescending(Entries(items, s))[i] == Entries(items, s)[k]
    ensures i == Rank(items, s, k)
  {
    var es := Entries(items, s);
    var l := SortByXDescending(es);
    SortedCopyIsSorted(items, s);
    assert es[k] in multiset(l);
    i :| 0 <= i < |l| && l[i] == es[k];
    SortedIndexIsCount(l, i);
    CountBeforePermutation(l, es, es[k]);
  }

  /** The numbering loop leaves each member with the rank of its last position. */
  lemma AssignGivesRank(items: map<ObjId, Item>, s: seq<ObjId>)
    requires Members(items, s)
    requires forall j :: 0 <= j < |SortByXDescending(Entries(items, s))| ==> SortByXDescending(Entries(items, s))[j].id in items
    ensures Layered(items, s, Assign(items, SortByXDescending(Entries(items, s)), 0))
  {
    var l := SortByXDescending(Entries(items, s));
    var r := Assign(items, l, 0);
    forall o | o in items && o !in s
      ensures r[o] == items[o]
    {
      SortedCopyOmits(items, s, o);
      AssignLeavesOthers(items, l, 0, o);
    }
    forall k | 0 <= k < |s| && LastOccurrence(s, k)
      ensures r[s[k]].sortingOrder == Rank(items, s, k)
    {
      var i := SortedIndexOf(items, s, k);
      SortedCopyLastOccurrence(items, s, k, i);
      AssignLastWriteWins(items, l, 0, i);
    }
  }

  /** An object off the list has no entry in the sorted copy. */
  lemma SortedCopyOmits(items: map<ObjId, Item>, s: seq<ObjId>, o: ObjId)
    requires Members(items, s)
    requires o !in s
    ensures forall j :: 0 <= j < |SortByXDescending(Entries(items, s))| ==> SortByXDescending(Entries(items, s))[j].id != o
  {
    var l := SortByXDescending(Entries(items, s));
    forall j | 0 <= j < |l|
      ensures l[j].id != o
    {
      var p := SortedEntryInList(items, s, l[j]);
    }
  }

  /** The entry of a last occurrence is the last entry of its object in the
      sorted copy. */
  lemma SortedCopyLastOccurrence(items: map<ObjId, Item>, s: seq<ObjId>, k: nat, i: nat)
    requires Members(items, s)
    requires k < |s| && LastOccurrence(s, k)
    requires i < |SortByXDescending(Entries(items, s))|
    requires SortByXDescending(Entries(items, s))[i] == Entries(items, s)[k]
    ensures forall m :: i < m < |SortByXDescending(Entries(items, s))| ==>
              SortByXDescending(Entries(items, s))[m].id != SortByXDescending(Entries(items, s))[i].id
  {
    var es := Entries(items, s);
    var l := SortByXDescending(es);
    SortedCopyIsSorted(items, s);
    forall m | i < m < |l|
      ensures l[m].id != l[i].id
    {
      var p := SortedEntryInList(items, s, l[m]);
      assert Before(l[i], l[m]);
      assert l[i] == es[k] && l[m] == es[p];
    }
  }

  // ---------------------------------------------------------------------------
  // What the layering promises, stated over any `Layered` result.

  /** Last list position holding `o`. */
  function LastIndexOf(s: seq<ObjId>, o: ObjId): (k: nat)
    requires o in s
    ensures k < |s| && s[k] == o && LastOccurrence(s, k)
  {
    if s[|s| - 1] == o then |s| - 1
    else
      assert s == s[..|s| - 1] + [s[|s| - 1]];
      LastIndexOf(s[..|s| - 1], o)
  }

  /** A member further right (strictly greater x) draws with a strictly smaller
      sorting order. */
  lemma GreaterXGetsSmallerOrder(before: map<ObjId, Item>, s: seq<ObjId>, after: map<ObjId, Item>, a: ObjId, b: ObjId)
    requires Members(before, s)
    requires Layered(before, s, after)
    requires a in s && b in s
    requires before[a].pos.x > before[b].pos.x
    ensures after[a].sortingOrder < after[b].sortingOrder
  {
    var es := Entries(before, s);
    var ka, kb := LastIndexOf(s, a), LastIndexOf(s, b);
    CountBeforeMonotone(es, es[ka], es[kb]);
  }

  /** Members with equal x keep their list order: the earlier one draws with the
      smaller sorting order. */
  lemma EqualXKeepsListOrder(before: map<ObjId, Item>, s: seq<ObjId>, after: map<ObjId, Item>, ka: nat, kb: nat)
    requires Members(before, s)
    requires Layered(before, s, after)
    requires NoDup(s)
    requires ka < kb < |s|
    requires before[s[ka]].pos.x == before[s[kb]].pos.x
    ensures after[s[ka]].sortingOrder < after[s[kb]].sortingOrder
  {
    var es := Entries(before, s);
    assert LastOccurrence(s, ka) && LastOccurrence(s, kb);
    CountBeforeMonotone(es, es[ka], es[kb]);
  }

  /** The sorting orders the members of `s` carry. */
  function SortingOrders(after: map<ObjId, Item>, s: seq<ObjId>): set<int>
    requires Members(after, s)
  {
    set k | 0 <= k < |s| :: after[s[k]].sortingOrder
  }

  /** The integers 0 .. n-1. */
  function Indices(n: nat): (r: set<int>)
    ensures forall i :: i in r <==> 0 <= i < n
  {
    if n == 0 then {} else Indices(n - 1) + {n - 1}
  }

  /** Without duplicates, the members' sorting orders are exactly 0 .. n-1. */
  lemma OrdersAreExactlyTheIndices(before: map<ObjId, Item>, s: seq<ObjId>, after: map<ObjId, Item>)
    requires Members(before, s)
    requires Layered(before, s, after)
    requires NoDup(s)
    ensures SortingOrders(after, s) == Indices(|s|)
  {
    forall k | 0 <= k < |s|
      ensures 0 <= after[s[k]].sortingOrder < |s|
    {
      assert LastOccurrence(s, k);
      RankBound(before, s, k);
    }
    forall i | 0 <= i < |s|
      ensures i in SortingOrders(after, s)
    {
      var p := RankIsOnto(before, s, i);
      assert LastOccurrence(s, p);
    }
  }

  lemma RankBound(items: map<ObjId, Item>, s: seq<ObjId>, k: nat)
    requires Members(items, s)
    requires k < |s|
    ensures Rank(items, s, k) < |s|
  {
    var es := Entries(items, s);
    CountBeforeBound(es, es[k]);
  }

  /** Every index of the sorted copy is the rank of some list position. */
  lemma RankIsOnto(items: map<ObjId, Item>, s: seq<ObjId>, i: nat) returns (p: nat)
    requires Members(items, s)
    requires i < |s|
    ensures p < |s| && Rank(items, s, p) == i
  {
    var es := Entries(items, s);
    var l := SortByXDescending(es);
    assert l[i] in multiset(es);
    p :| 0 <= p < |s| && es[p] == l[i];
    var i' := SortedIndexOf(items, s, p);
    SortedCopyIsSorted(items, s);
    assert !Before(l[i'], l[i]) && !Before(l[i], l[i']);
  }

  /** The layering is determined by the list and the objects' x. */
  lemma LayeredIsUnique(before: map<ObjId, Item>, s: seq<ObjId>, a1: map<ObjId, Item>, a2: map<ObjId, Item>)
    requires Members(before, s)
    requires Layered(before, s, a1) && Layered(before, s, a2)
    ensures a1 == a2
  {
    forall o | o in a1
      ensures a1[o] == a2[o]
    {
      if o in s {
        var k := LastIndexOf(s, o);
      }
    }
  }

  /** Re-layering an already layered shelf changes nothing. */
  lemma UpdateRenderingOrderIdempotent(items: map<ObjId, Item>, s: seq<ObjId>)
    requires Members(items, s)
    ensures UpdateRenderingOrder(UpdateRenderingOrder(items, s), s) == UpdateRenderingOrder(items, s)
  {
    var a1 := UpdateRenderingOrder(items, s);
    var a2 := UpdateRenderingOrder(a1, s);
    assert Entries(a1, s) == Entries(items, s);
    assert Layered(items, s, a2);
    LayeredIsUnique(items, s, a1, a2);
  }

  /** Removing an object that occurs at most once, twice in a row, leaves the
      shelf as the first removal left it. */
  lemma RemoveTwiceIsRemoveOnce(s: seq<ObjId>, items: map<ObjId, Item>, o: ObjId)
    requires Members(items, s)
    requires multiset(s)[o] <= 1
    ensures var once := RemoveObjectFromShelf(s, items, o);
            RemoveObjectFromShelf(once.objects, once.items, o) == once
  {
    var once := RemoveObjectFromShelf(s, items, o);
    assert o !in once.objects by {
      assert multiset(once.objects)[o] == 0;
    }
    UpdateRenderingOrderIdempotent(items, once.objects);
  }

  /** The layering reads only the objects' x: re-layering objects that differ
      only in their sorting orders gives members the same result, and leaves
      everything else as it was. */
  lemma LayeringReadsOnlyX(items: map<ObjId, Item>, items2: map<ObjId, Item>, s: seq<ObjId>)
    requires Members(items, s)
    requires items2.Keys == items.Keys
    requires forall p :: p in items ==> items2[p] == items[p].(sortingOrder := items2[p].sortingOrder)
    ensures forall p :: p in s ==> UpdateRenderingOrder(items2, s)[p] == UpdateRenderingOrder(items, s)[p]
    ensures forall p :: p in items && p !in s ==> UpdateRenderingOrder(items2, s)[p] == items2[p]
    ensures UpdateRenderingOrder(items2, s).Keys == items.Keys
  {
    assert Entries(items2, s) == Entries(items, s);
    forall p | p in s
      ensures UpdateRenderingOrder(items2, s)[p] == UpdateRenderingOrder(items, s)[p]
    {
      var k := LastIndexOf(s, p);
      assert Rank(items2, s, k) == Rank(items, s, k);
    }
  }

  /** Adding an object that is not on the shelf and removing it again gives
      back the list, and every other object ends up layered as for the list
      alone; the removed object keeps the order it was given on the shelf. */
  lemma AddThenRemoveRestoresShelf(s: seq<ObjId>, items: map<ObjId, Item>, o: ObjId)
    requires Members(items, s)
    requires o in items && o !in s
    ensures var added := AddObjectToShelf(s, items, o);
            var removed := RemoveObjectFromShelf(added.objects, added.items, o);
            && removed.objects == s
            && removed.items == UpdateRenderingOrder(items, s)[o := added.items[o]]
  {
    var added := AddObjectToShelf(s, items, o);
    RemoveAppendedFromShelf(s, added.items, o);
    RelayerAfterAdd(s, items, o, added.items);
  }

  lemma RelayerAfterAdd(s: seq<ObjId>, items: map<ObjId, Item>, o: ObjId, added: map<ObjId, Item>)
    requires Members(items, s)
    requires o in items && o !in s
    requires added == AddObjectToShelf(s, items, o).items
    ensures UpdateRenderingOrder(added, s) == UpdateRenderingOrder(items, s)[o := added[o]]
  {
    assert Members(items, s + [o]) && Layered(items, s + [o], added);
    LayeredAfterAdd(s, items, o, added, UpdateRenderingOrder(added, s), UpdateRenderingOrder(items, s));
  }

  /** Re-layering the list without the appended object gives every object but
      that one the layering of the list alone. */
  lemma LayeredAfterAdd(s: seq<ObjId>, items: map<ObjId, Item>, o: ObjId, added: map<ObjId, Item>,
                        v: map<ObjId, Item>, u: map<ObjId, Item>)
    requires Members(items, s) && Members(items, s + [o])
    requires o in items && o !in s
    requires Layered(items, s + [o], added)
    requires Members(added, s) && Layered(added, s, v)
    requires Layered(items, s, u)
    ensures v == u[o := added[o]]
  {
    assert Entries(added, s) == Entries(items, s);
    forall p | p in v
      ensures v[p] == u[o := added[o]][p]
    {
      if p == o {
      } else if p in s {
        var k := LastIndexOf(s, p);
        assert Rank(added, s, k) == Rank(items, s, k);
      } else {
        assert p !in s + [o];
      }
    }
  }

  lemma RemoveAppendedFromShelf(s: seq<ObjId>, items: map<ObjId, Item>, o: ObjId)
    requires Members(items, s + [o])
    requires o !in s
    ensures RemoveObjectFromShelf(s + [o], items, o) == Shelved(s, UpdateRenderingOrder(items, s))
  {
    RemoveAppended(s, o);
  }

  /** `List.Remove` of an object appended to a list that did not hold it
      gives back the list. */
  lemma RemoveAppended(s: seq<ObjId>, o: ObjId)
    requires o !in s
    ensures RemoveFirst(s + [o], o) == s
  {
    assert forall j :: 0 <= j < |s| ==> (s + [o])[j] == s[j];
    assert (s + [o])[..|s|] == s;
  }

  // ---------------------------------------------------------------------------
  // The layering of a whole scene.

  /** Shelf `sh`'s members carry the orders its layering gives them, each
      ranked among the members by its own current x. */
  predicate ShelfLayered(w: World, sh: ShelfId)
    requires sh in w.shelves && Members(w.items, w.shelves[sh])
  {
    var s := w.shelves[sh];
    forall k :: 0 <= k < |s| && LastOccurrence(s, k) ==> w.items[s[k]].sortingOrder == Rank(w.items, s, k)
  }

  /** Every shelf of the scene is layered. */
  predicate AllLayered(w: World)
    requires Resolved(w)
  {
    forall sh :: sh in w.shelves ==> ShelfLayered(w, sh)
  }

  /** A scene whose shelves are all empty, as every shelf's list starts out,
      is layered. */
  lemma EmptyShelvesAreLayered(w: World)
    requires Resolved(w)
    requires forall sh :: sh in w.shelves ==> w.shelves[sh] == []
    ensures AllLayered(w)
  {
  }

  /** The sort entries read only the members' x. */
  lemma EntriesReadOnlyX(a: map<ObjId, Item>, b: map<ObjId, Item>, s: seq<ObjId>)
    requires Members(a, s) && Members(b, s)
    requires forall p :: p in s ==> a[p].pos.x == b[p].pos.x
    ensures Entries(a, s) == Entries(b, s)
  {
    assert forall k :: 0 <= k < |s| ==> a[s[k]].pos.x == b[s[k]].pos.x;
  }

  /** A shelf whose objects are the result of laying out its list is layered
      in the resulting scene: the layering leaves every x as it was, so the
      ranks it assigned are the ranks among the objects it leaves. */
  lemma LayeredShelfIsLayered(w: World, sh: ShelfId, before: map<ObjId, Item>)
    requires sh in w.shelves && Members(w.items, w.shelves[sh])
    requires Members(before, w.shelves[sh])
    requires Layered(before, w.shelves[sh], w.items)
    ensures ShelfLayered(w, sh)
  {
    var s := w.shelves[sh];
    EntriesReadOnlyX(before, w.items, s);
    forall k | 0 <= k < |s| && LastOccurrence(s, k)
      ensures w.items[s[k]].sortingOrder == Rank(w.items, s, k)
    {
      assert Rank(w.items, s, k) == Rank(before, s, k);
    }
  }

  /** A shelf whose list and members are untouched stays layered. */
  lemma UntouchedShelfStaysLayered(w: World, r: World, sh: ShelfId)
    requires sh in w.shelves && sh in r.shelves && r.shelves[sh] == w.shelves[sh]
    requires Members(w.items, w.shelves[sh]) && Members(r.items, r.shelves[sh])
    requires forall p :: p in w.shelves[sh] ==> r.items[p] == w.items[p]
    requires ShelfLayered(w, sh)
    ensures ShelfLayered(r, sh)
  {
    var s := w.shelves[sh];
    EntriesReadOnlyX(w.items, r.items, s);
    forall k | 0 <= k < |s| && LastOccurrence(s, k)
      ensures r.items[s[k]].sortingOrder == Rank(r.items, s, k)
    {
      assert Rank(r.items, s, k) == Rank(w.items, s, k);
    }
  }
}
