/** The circular doubly linked list macros, proved against sequence operations. A list is a ring
    of entries; by convention the first element of the sequence is the list head. */
module LinkList {

  class ListEntry {
    var Flink: ListEntry?
    var Blink: ListEntry?

    constructor ()
      ensures Flink == null && Blink == null
    {
      Flink, Blink := null, null;
    }
  }

  function Next(i: nat, n: nat): (j: nat)
    ensures n > 0 ==> j < n
  {
    if i + 1 < n then i + 1 else 0
  }

  predicate Distinct<T(==)>(r: seq<T>) {
    forall i, j | 0 <= i < j < |r| :: r[i] != r[j]
  }

  /** The entries of r, in this order, form one ring: going forward and going back agree. */
  ghost predicate Ring(r: seq<ListEntry>)
    reads r
  {
    && r != []
    && Distinct(r)
    && forall i | 0 <= i < |r| :: r[i].Flink == r[Next(i, |r|)] && r[Next(i, |r|)].Blink == r[i]
  }

  /** `x.Flink.Blink == x.Blink.Flink == x` for every entry. */
  ghost predicate Mirrored(r: seq<ListEntry>)
    reads r, set x | x in r && x.Flink != null :: x.Flink, set x | x in r && x.Blink != null :: x.Blink
  {
    forall x | x in r ::
      x.Flink != null && x.Blink != null && x.Flink.Blink == x && x.Blink.Flink == x
  }

  lemma RingIsMirrored(r: seq<ListEntry>)
    requires Ring(r)
    ensures Mirrored(r)
  {
    forall x | x in r
      ensures x.Flink != null && x.Blink != null && x.Flink.Blink == x && x.Blink.Flink == x
    {
      var i :| 0 <= i < |r| && r[i] == x;
      var j := if i > 0 then i - 1 else |r| - 1;
      assert Next(j, |r|) == i;
      assert r[j].Flink == x;
    }
  }

  // ----- The sequence operations -----

  function Without<T>(r: seq<T>, k: nat): seq<T>
    requires k < |r|
  {
    r[..k] + r[k + 1..]
  }

  /** x put before element k of a ring; before the first element is after the last. */
  function InsertedBefore<T>(r: seq<T>, k: nat, x: T): seq<T>
    requires k < |r|
  {
    if k == 0 then r + [x] else r[..k] + [x] + r[k..]
  }

  /** Element j taken out and put before element i. */
  function Moved<T>(r: seq<T>, i: nat, j: nat): seq<T>
    requires i < |r| && j < |r| && i != j
  {
    InsertedBefore(Without(r, j), if j < i then i - 1 else i, r[j])
  }

  /** Where InsertedBefore puts the new element. */
  function Place(n: nat, k: nat): nat {
    if k == 0 then n else k
  }

  /** Taking the new element out again undoes an insertion. */
  lemma RemoveUndoesInsert<T>(r: seq<T>, k: nat, x: T)
    requires k < |r|
    ensures |InsertedBefore(r, k, x)| == |r| + 1
    ensures InsertedBefore(r, k, x)[Place(|r|, k)] == x
    ensures Without(InsertedBefore(r, k, x), Place(|r|, k)) == r
  {
    var s := InsertedBefore(r, k, x);
    if k > 0 {
      assert s[..k] == r[..k] && s[k + 1..] == r[k..];
    }
  }

  /** A move keeps the elements, puts element j right before element i, and leaves the order of
      all others alone. */
  lemma MoveMeans<T>(r: seq<T>, i: nat, j: nat)
    requires i < |r| && j < |r| && i != j
    ensures var s := Moved(r, i, j);
            var k := if j < i then i - 1 else i;
            var p := Place(|r| - 1, k);
            && |s| == |r| && multiset(s) == multiset(r)
            && s[p] == r[j] && s[Next(p, |s|)] == r[i]
            && Without(s, p) == Without(r, j)
  {
    hide InsertedBefore, Place, Next;
    var w := Without(r, j);
    var k := if j < i then i - 1 else i;
    RemoveUndoesInsert(w, k, r[j]);
    assert w[k] == r[i];
    assert multiset(r) == multiset(w) + multiset{r[j]} by {
      assert r == r[..j] + [r[j]] + r[j + 1..];
    }
    InsertedElements(w, k, r[j]);
  }

  /** The new element stands right before element k. */
  lemma InsertedElements<T>(r: seq<T>, k: nat, x: T)
    requires k < |r|
    ensures multiset(InsertedBefore(r, k, x)) == multiset(r) + multiset{x}
    ensures InsertedBefore(r, k, x)[Next(Place(|r|, k), |r| + 1)] == r[k]
  {
    if k > 0 {
      assert r == r[..k] + r[k..];
    }
  }

  function Prev(i: nat, n: nat): (j: nat)
    requires i < n
    ensures j < n && Next(j, n) == i
  {
    if i > 0 then i - 1 else n - 1
  }

  /** Neighbours after an insertion: the new element between its two, and all other pairs as
      they were. */
  lemma InsertedNeighbours<T>(r: seq<T>, k: nat, x: T, i: nat)
    requires k < |r| && i <= |r|
    ensures var n := |r|;
            var s := InsertedBefore(r, k, x);
            var p := Place(n, k);
            var a := if i < p then i else i - 1;
            && |s| == n + 1 && 0 <= Next(i, n + 1) < n + 1
            && (i == p ==> s[i] == x && s[Next(i, n + 1)] == r[k])
            && (Next(i, n + 1) == p ==> s[i] == r[Prev(k, n)] && s[Next(i, n + 1)] == x)
            && (i != p && Next(i, n + 1) != p ==>
                 && 0 <= a < n && a != Prev(k, n) && 0 <= Next(a, n) < n && Next(a, n) != k
                 && s[i] == r[a] && s[Next(i, n + 1)] == r[Next(a, n)])
  {
  }

  /** Neighbours after a removal: the two next to the gap meet. */
  lemma WithoutNeighbours<T>(r: seq<T>, k: nat, i: nat)
    requires k < |r| && 0 <= i < |r| - 1
    ensures var n := |r|;
            var s := Without(r, k);
            var a := if i < k then i else i + 1;
            && |s| == n - 1 && 0 <= Next(i, n - 1) < n - 1 && 0 <= Next(a, n) < n && 0 <= Next(k, n) < n
            && s[i] == r[a] && a != k
            && (if a == Prev(k, n) then s[Next(i, n - 1)] == r[Next(k, n)]
                else s[Next(i, n - 1)] == r[Next(a, n)] && Next(a, n) != k && Next(a, n) != Next(k, n))
  {
  }

  lemma DistinctInserted<T>(r: seq<T>, k: nat, x: T)
    requires Distinct(r) && k < |r| && x !in r
    ensures Distinct(InsertedBefore(r, k, x)) && |InsertedBefore(r, k, x)| == |r| + 1
  {
  }

  // ----- The macros -----

  method InitializeListHead(head: ListEntry)
    modifies head
    ensures Ring([head])
  {
    head.Flink := head;
    head.Blink := head;
  }

  method IsListEmpty(head: ListEntry, ghost r: seq<ListEntry>) returns (empty: bool)
    requires Ring(r) && r[0] == head
    ensures empty <==> r == [head]
  {
    empty := head.Flink == head;
    assert r[0].Flink == r[Next(0, |r|)];
  }

  // The assignments that the remaining macros are made of: close a gap, and fill one. The fields
  // are named in the frame because the entries may coincide.

  method Unlink(blink: ListEntry, flink: ListEntry, ghost r: seq<ListEntry>, ghost k: nat)
    requires Ring(r) && k < |r| && blink == r[Prev(k, |r|)] && flink == r[Next(k, |r|)]
    modifies blink`Flink, flink`Blink
    ensures blink.Flink == flink && flink.Blink == blink
    ensures |r| >= 2 ==> Ring(Without(r, k))
  {
    hide Without, Next, Prev, Distinct;
    blink.Flink := flink;
    flink.Blink := blink;
    ghost var s := Without(r, k);
    DistinctWithout(r, k);
    forall i | 0 <= i < |s|
      ensures 0 <= Next(i, |s|) < |s| && s[i].Flink == s[Next(i, |s|)] && s[Next(i, |s|)].Blink == s[i]
    {
      WithoutNeighbours(r, k, i);
      var a := if i < k then i else i + 1;
      InRing(r, a, Prev(k, |r|));
      InRing(r, Next(a, |r|), Next(k, |r|));
    }
  }

  method LinkBetween(blink: ListEntry, entry: ListEntry, flink: ListEntry, ghost r: seq<ListEntry>, ghost k: nat)
    modifies entry, blink`Flink, flink`Blink
    ensures blink.Flink == entry && flink.Blink == entry
    ensures entry.Flink == (if blink == entry then entry else flink)
    ensures entry.Blink == (if flink == entry then entry else blink)
    ensures old(Ring(r)) && k < |r| && entry !in r && flink == r[k] && blink == r[Prev(k, |r|)] ==>
              Ring(InsertedBefore(r, k, entry))
  {
    hide InsertedBefore, Place, Next, Prev, Distinct;
    entry.Flink := flink;
    entry.Blink := blink;
    blink.Flink := entry;
    flink.Blink := entry;
    if old(Ring(r)) && k < |r| && entry !in r && flink == r[k] && blink == r[Prev(k, |r|)] {
      ghost var s := InsertedBefore(r, k, entry);
      DistinctInserted(r, k, entry);
      forall i | 0 <= i < |s|
        ensures 0 <= Next(i, |s|) < |s| && s[i].Flink == s[Next(i, |s|)] && s[Next(i, |s|)].Blink == s[i]
      {
        InsertedNeighbours(r, k, entry, i);
        var p := Place(|r|, k);
        if i != p && Next(i, |s|) != p {
          var a := if i < p then i else i - 1;
          InRing(r, a, Prev(k, |r|));
          InRing(r, Next(a, |r|), k);
        }
      }
    }
  }

  lemma InRing<T>(r: seq<T>, i: nat, j: nat)
    requires Distinct(r) && i < |r| && j < |r|
    ensures r[i] == r[j] <==> i == j
  {
  }

  lemma DistinctWithout<T>(r: seq<T>, k: nat)
    requires Distinct(r) && k < |r|
    ensures Distinct(Without(r, k)) && |Without(r, k)| == |r| - 1
  {
  }

  /** Appends, with the head in the role of element 0; the macro works before any element k. */
  method InsertTailList(head: ListEntry, entry: ListEntry, ghost r: seq<ListEntry>, ghost k: nat)
    requires Ring(r) && k < |r| && r[k] == head && entry !in r
    modifies head, head.Blink, entry
    ensures Ring(InsertedBefore(r, k, entry))
  {
    assert r[Prev(k, |r|)].Flink == head;
    LinkBetween(head.Blink, entry, head, r, k);
  }

  method InsertHeadList(head: ListEntry, entry: ListEntry, ghost r: seq<ListEntry>)
    requires Ring(r) && r[0] == head && entry !in r
    modifies head, head.Flink, entry
    ensures Ring([head, entry] + r[1..])
  {
    assert r[0].Flink == r[Next(0, |r|)];
    LinkBetween(head, entry, head.Flink, r, Next(0, |r|));
    assert InsertedBefore(r, Next(0, |r|), entry) == [head, entry] + r[1..];
  }

  /** `_RemoveEntryList`: the entry keeps its own links; one that is alone in its ring stays
      so. */
  method RemoveEntryList(entry: ListEntry, ghost r: seq<ListEntry>, ghost k: nat)
    requires Ring(r) && k < |r| && r[k] == entry
    modifies entry.Flink, entry.Blink
    ensures Ring(if |r| >= 2 then Without(r, k) else r)
    ensures entry.Flink == old(entry.Flink) && entry.Blink == old(entry.Blink)
  {
    assert r[Prev(k, |r|)].Flink == entry && r[k].Flink == r[Next(k, |r|)];
    Unlink(entry.Blink, entry.Flink, r, k);
  }

  /** Moves entry2 to just before entry1. The macro works exactly when the two differ and entry2
      is not there already; otherwise it tears the ring, except a ring of a single entry: entry2
      is left pointing at itself, while other entries still point at it. */
  method SwapListEntries(entry1: ListEntry, entry2: ListEntry, ghost r: seq<ListEntry>, ghost i: nat, ghost j: nat)
    requires Ring(r) && i < |r| && j < |r| && r[i] == entry1 && r[j] == entry2
    modifies r
    ensures i != j && j != Prev(i, |r|) ==> Ring(Moved(r, i, j))
    ensures Mirrored(r) <==> (i != j && j != Prev(i, |r|)) || |r| == 1
    ensures i == j ==>
              && entry2.Flink == entry2 && entry2.Blink == entry2 && r[Prev(i, |r|)].Flink == entry2
              && (|r| > 1 ==> r[Next(i, |r|)].Blink == r[Prev(i, |r|)])
    ensures i != j && j == Prev(i, |r|) ==>
              && entry2.Flink == entry2 && entry2.Blink == entry2 && entry1.Blink == entry2
              && r[Prev(j, |r|)].Flink == entry1
  {
    hide Without, InsertedBefore, Next, Prev, Distinct, Moved, Ring, Mirrored, Place;
    ghost var n := |r|;
    RingLinks(r, j);
    RingLinks(r, i);
    PrevDiffers(r, i);
    var entry2Flink := entry2.Flink;
    var entry2Blink := entry2.Blink;
    var entry1Blink := entry1.Blink;
    Unlink(entry2Blink, entry2Flink, r, j);
    ghost var w := Without(r, j);
    ghost var k := if j < i then i - 1 else i;
    if i != j && j != Prev(i, n) {
      PlaceInGap(r, i, j);
    }
    LinkBetween(entry1Blink, entry2, entry1, w, k);
    if i != j && j != Prev(i, n) {
      MovedKeeps(r, i, j);
      RingIsMirrored(Moved(r, i, j));
      MirroredAgrees(r, Moved(r, i, j));
    } else if n == 1 {
      assert r == [entry1];
      AloneIsMirrored(entry1);
    } else if i == j {
      NextDiffers(r, i);
      NotMirrored(r, Prev(i, n));
    } else {
      PrevDiffers(r, j);
      NotMirrored(r, i);
    }
  }

  lemma NextDiffers(r: seq<ListEntry>, i: nat)
    requires Distinct(r) && i < |r|
    ensures |r| > 1 ==> r[Next(i, |r|)] != r[i]
  {
  }

  lemma RingLinks(r: seq<ListEntry>, i: nat)
    requires Ring(r) && i < |r|
    ensures Distinct(r)
    ensures r[i].Flink == r[Next(i, |r|)] && r[i].Blink == r[Prev(i, |r|)]
  {
    assert r[Prev(i, |r|)].Flink == r[i];
  }

  lemma PrevDiffers(r: seq<ListEntry>, i: nat)
    requires Distinct(r) && i < |r|
    ensures |r| > 1 ==> r[Prev(i, |r|)] != r[i]
    ensures |r| == 1 ==> i == 0
  {
  }

  lemma AloneIsMirrored(x: ListEntry)
    requires x.Flink == x && x.Blink == x
    ensures Mirrored([x])
  {
  }

  lemma NotMirrored(r: seq<ListEntry>, i: nat)
    requires i < |r|
    requires (r[i].Flink != null && r[i].Flink.Blink != r[i]) || (r[i].Blink != null && r[i].Blink.Flink != r[i])
    ensures !Mirrored(r)
  {
    assert r[i] in r;
  }

  lemma MirroredAgrees(r: seq<ListEntry>, s: seq<ListEntry>)
    requires Mirrored(s) && forall x | x in r :: x in s
    ensures Mirrored(r)
  {
  }

  lemma MovedKeeps<T>(r: seq<T>, i: nat, j: nat)
    requires i < |r| && j < |r| && i != j
    ensures Moved(r, i, j) == InsertedBefore(Without(r, j), if j < i then i - 1 else i, r[j])
    ensures forall x :: x in r <==> x in Moved(r, i, j)
  {
    MoveMeans(r, i, j);
    SameElements(r, Moved(r, i, j));
  }

  lemma PlaceInGap<T>(r: seq<T>, i: nat, j: nat)
    requires Distinct(r) && i < |r| && j < |r| && i != j && j != Prev(i, |r|)
    ensures var w := Without(r, j);
            var k := if j < i then i - 1 else i;
            k < |w| && w[k] == r[i] && w[Prev(k, |w|)] == r[Prev(i, |r|)] && r[j] !in w
  {
  }

  lemma SameElements<T>(r: seq<T>, s: seq<T>)
    requires multiset(r) == multiset(s)
    ensures forall x :: x in r <==> x in s
  {
    forall x
      ensures x in r <==> x in s
    {
      assert x in multiset(r) <==> x in multiset(s);
    }
  }
}
