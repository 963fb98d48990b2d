/** The scan of the firmware's memory map for the end of memory, which sizes the frame map. */
module MemoryMapScan {
  import opened Bits

  datatype Descriptor = Descriptor(start: u64, pages: u64)

  /** `PhysicalStart + NumberOfPages * 0x1000` in 64 bits. */
  function End(d: Descriptor): u64 {
    (d.start + d.pages * 0x1000) % 0x1_0000_0000_0000_0000
  }

  function Last(ds: seq<Descriptor>): Descriptor
    requires ds != []
  {
    ds[|ds| - 1]
  }

  function Init(ds: seq<Descriptor>): (init: seq<Descriptor>)
    requires ds != []
    ensures |init| == |ds| - 1
  {
    ds[..|ds| - 1]
  }

  /** MaxAddress after the scan of ds. */
  function Scanned(ds: seq<Descriptor>): u64
    decreases |ds|
  {
    if ds == [] then 0
    else if Last(ds).start > Scanned(Init(ds)) then End(Last(ds)) else Scanned(Init(ds))
  }

  method Scan(ds: seq<Descriptor>) returns (maxAddress: u64)
    ensures maxAddress == Scanned(ds)
  {
    maxAddress := 0;
    var i := 0;
    while i < |ds|
      invariant 0 <= i <= |ds|
      invariant maxAddress == Scanned(ds[..i])
    {
      assert Init(ds[..i + 1]) == ds[..i] && Last(ds[..i + 1]) == ds[i];
      if ds[i].start > maxAddress {
        maxAddress := End(ds[i]);
      }
      i := i + 1;
    }
    assert ds[..|ds|] == ds;
  }

  /** The described memory ends below 2^64. */
  predicate Bounded(d: Descriptor) {
    d.start + d.pages * 0x1000 < 0x1_0000_0000_0000_0000
  }

  /** In any order of the descriptors, the scan ends at or above the start of each, and at 0 or
      at the end of one of them. */
  lemma {:induction false} ScanReachesEveryStart(ds: seq<Descriptor>)
    requires forall d | d in ds :: Bounded(d)
    ensures forall d | d in ds :: d.start <= Scanned(ds)
    ensures Scanned(ds) == 0 || exists d :: d in ds && Scanned(ds) == End(d)
    decreases |ds|
  {
    if ds != [] {
      assert ds == Init(ds) + [Last(ds)];
      ScanReachesEveryStart(Init(ds));
      if Scanned(Init(ds)) != 0 {
        var d :| d in Init(ds) && Scanned(Init(ds)) == End(d);
        assert d in ds;
      }
      assert Last(ds) in ds;
    }
  }

  /** Of the first n descriptors the scan takes k last: it starts above what was found so far, and
      no later one starts above its end. */
  predicate LastTaken(ds: seq<Descriptor>, n: nat, k: nat)
    requires k < n <= |ds|
  {
    && Scanned(ds[..n]) == End(ds[k])
    && Scanned(ds[..k]) < ds[k].start
    && forall j | k < j < n :: ds[j].start <= End(ds[k])
  }

  lemma {:induction false} PrefixTaken(ds: seq<Descriptor>, n: nat)
    requires n <= |ds|
    ensures (Scanned(ds[..n]) == 0 && forall i | 0 <= i < n :: ds[i].start == 0)
            || exists k :: 0 <= k < n && LastTaken(ds, n, k)
  {
    hide End, Scanned;
    ScanOfPrefix(ds, n);
    if n > 0 {
      var m := n - 1;
      PrefixTaken(ds, m);
      if ds[m].start > Scanned(ds[..m]) {
        assert LastTaken(ds, n, m);
      } else if k :| 0 <= k < m && LastTaken(ds, m, k) {
        assert LastTaken(ds, n, k);
      }
    }
  }

  /** For every map, wrap-around of an end included: the result is the end of the last descriptor
      taken, which starts above what the scan found before it and has none above its end after it;
      it is 0 without any only if all descriptors start at 0. */
  lemma ScanIsTheLastTaken(ds: seq<Descriptor>)
    ensures (Scanned(ds) == 0 && forall i | 0 <= i < |ds| :: ds[i].start == 0)
            || exists k :: 0 <= k < |ds| && LastTaken(ds, |ds|, k)
                 && Scanned(ds) == (ds[k].start + ds[k].pages * 0x1000) % 0x1_0000_0000_0000_0000
  {
    hide Scanned;
    PrefixTaken(ds, |ds|);
    assert ds[..|ds|] == ds;
  }

  /** Separated by at least one byte. */
  predicate Apart(d: Descriptor, e: Descriptor) {
    End(d) < e.start || End(e) < d.start
  }

  /** In any order: when no two descriptors overlap or touch and memory does not only start at
      0, the scan finds the highest end. */
  lemma ScanOfSeparateDescriptors(ds: seq<Descriptor>)
    requires forall d | d in ds :: Bounded(d) && d.pages >= 1
    requires forall i, j | 0 <= i < j < |ds| :: Apart(ds[i], ds[j])
    requires exists d :: d in ds && d.start > 0
    ensures exists d :: d in ds && Scanned(ds) == End(d)
    ensures forall d | d in ds :: End(d) <= Scanned(ds)
  {
    ScanReachesEveryStart(ds);
    var k :| 0 <= k < |ds| && Scanned(ds) == End(ds[k]);
    forall d | d in ds
      ensures End(d) <= Scanned(ds)
    {
      var j :| 0 <= j < |ds| && ds[j] == d;
      if j != k {
        assert Apart(ds[j], ds[k]) || Apart(ds[k], ds[j]);
      }
    }
  }

  // ----- Any order, where descriptors may touch -----

  /** In any order: no descriptor is empty, and no two overlap. */
  predicate Separate(ds: seq<Descriptor>) {
    && (forall i | 0 <= i < |ds| :: Bounded(ds[i]) && ds[i].pages >= 1)
    && forall i, j | 0 <= i < |ds| && 0 <= j < |ds| && i != j ::
         End(ds[i]) <= ds[j].start || End(ds[j]) <= ds[i].start
  }

  /** ds[k] ends highest of the first n. */
  predicate Highest(ds: seq<Descriptor>, n: nat, k: nat)
    requires n <= |ds|
  {
    k < n && forall i | 0 <= i < n :: End(ds[i]) <= End(ds[k])
  }

  /** Which of the first n descriptors ends at a; n if none does. */
  function EndingAt(ds: seq<Descriptor>, n: nat, a: u64): (j: nat)
    requires n <= |ds|
    ensures j <= n
    ensures j < n ==> End(ds[j]) == a
    ensures j == n ==> forall i | 0 <= i < n :: End(ds[i]) != a
  {
    if n == 0 then 0
    else if End(ds[n - 1]) == a then n - 1
    else
      var j := EndingAt(ds, n - 1, a);
      if j == n - 1 then n else j
  }

  /** The joints that the scan can meet below address a: from a downwards, descriptor by
      descriptor without a gap, each of them earlier in the map than the one above it. Address 0
      is a joint as well, because the scan starts there. */
  function Joints(ds: seq<Descriptor>, n: nat, a: u64): nat
    requires n <= |ds|
    decreases n
  {
    if a == 0 then 1
    else
      var j := EndingAt(ds, n, a);
      if j == n then 0 else 1 + Joints(ds, j, ds[j].start)
  }

  /** The strict comparison makes the scan skip a descriptor that starts where the last taken
      one ended. Whatever the order of the map, the scan therefore finds the highest end exactly
      when the number of joints below the highest descriptor is even; otherwise it stops at the
      start of that descriptor. */
  lemma ScanOfAnyMap(ds: seq<Descriptor>, k: nat)
    requires Separate(ds) && Highest(ds, |ds|, k)
    ensures Scanned(ds) == End(ds[k]) <==> Joints(ds, k, ds[k].start) % 2 == 0
    ensures Joints(ds, k, ds[k].start) % 2 == 1 ==> Scanned(ds) == ds[k].start
  {
    hide End, Joints, Scanned;
    BoundedEnd(ds[k]);
    HighestDecides(ds, k, |ds|);
    OthersEndBelow(ds, |ds|, k);
    ScanMeetsJoint(ds, k, ds[k].start);
    assert ds[..|ds|] == ds;
  }

  /** Of two descriptors, the one that ends lower ends at or below the start of the other. */
  lemma OthersEndBelow(ds: seq<Descriptor>, n: nat, k: nat)
    requires Separate(ds) && n <= |ds| && Highest(ds, n, k)
    ensures forall i | 0 <= i < n && i != k :: ds[i].start < End(ds[i]) <= ds[k].start < End(ds[k])
  {
    hide End;
    BoundedEnd(ds[k]);
    forall i | 0 <= i < n && i != k
      ensures ds[i].start < End(ds[i]) <= ds[k].start
    {
      BoundedEnd(ds[i]);
    }
  }

  /** The result of the scan of a prefix. */
  lemma ScanOfPrefix(ds: seq<Descriptor>, n: nat)
    requires n <= |ds|
    ensures n == 0 ==> Scanned(ds[..n]) == 0
    ensures n > 0 ==> Scanned(ds[..n]) == if ds[n - 1].start > Scanned(ds[..n - 1]) then End(ds[n - 1])
                                          else Scanned(ds[..n - 1])
  {
    hide End;
    if n > 0 {
      ScanOfOneMore(ds[..n - 1], ds[n - 1]);
      assert ds[..n - 1] + [ds[n - 1]] == ds[..n];
    }
  }

  lemma ScanOfOneMore(ds: seq<Descriptor>, d: Descriptor)
    ensures Scanned([]) == 0
    ensures Scanned(ds + [d]) == if d.start > Scanned(ds) then End(d) else Scanned(ds)
  {
    assert Init(ds + [d]) == ds;
  }

  lemma {:induction false} ScanIsAnEnd(ds: seq<Descriptor>, n: nat)
    requires n <= |ds|
    ensures Scanned(ds[..n]) == 0 || exists i :: 0 <= i < n && Scanned(ds[..n]) == End(ds[i])
  {
    hide End, Scanned;
    ScanOfPrefix(ds, n);
    if n > 0 {
      ScanIsAnEnd(ds, n - 1);
    }
  }

  /** The descriptor with the highest end is taken unless the scan stands at its start, and
      nothing after it is taken. */
  lemma {:induction false} HighestDecides(ds: seq<Descriptor>, k: nat, n: nat)
    requires Separate(ds) && n <= |ds| && Highest(ds, n, k)
    ensures Scanned(ds[..n]) == if Scanned(ds[..k]) == ds[k].start then ds[k].start else End(ds[k])
    decreases n
  {
    hide End, Scanned, Separate;
    OthersEndBelow(ds, n, k);
    ScanOfPrefix(ds, n);
    if n == k + 1 {
      ScanIsAnEnd(ds, k);
    } else {
      HighestDecides(ds, k, n - 1);
    }
  }

  /** The scan of the first n descriptors stands at a, above all of them, exactly when the number
      of joints is odd. */
  lemma {:induction false} ScanMeetsJoint(ds: seq<Descriptor>, n: nat, a: u64)
    requires Separate(ds) && n <= |ds| && forall i | 0 <= i < n :: End(ds[i]) <= a
    ensures Scanned(ds[..n]) == a <==> Joints(ds, n, a) % 2 == 1
    decreases n
  {
    hide End, Scanned;
    if a == 0 {
      if n > 0 {
        BoundedEnd(ds[0]);
        assert false;
      }
      ScanOfPrefix(ds, 0);
    } else {
      var j := EndingAt(ds, n, a);
      if j == n {
        ScanIsAnEnd(ds, n);
      } else {
        HighestDecides(ds, j, n);
        OthersEndBelow(ds, n, j);
        BoundedEnd(ds[j]);
        ScanMeetsJoint(ds, j, ds[j].start);
        assert (1 + Joints(ds, j, ds[j].start)) % 2 == 1 - Joints(ds, j, ds[j].start) % 2;
      }
    }
  }

  // ----- Sorted maps -----

  /** Ascending, without overlap, no descriptor empty: the form in which firmware usually hands
      the map over. */
  predicate Ascending(ds: seq<Descriptor>) {
    && (forall d | d in ds :: Bounded(d) && d.pages >= 1)
    && forall i | 0 < i < |ds| :: End(ds[i - 1]) <= ds[i].start
  }

  /** The end of the last descriptor, 0 for an empty map. */
  function EndOfMemory(ds: seq<Descriptor>): u64 {
    if ds == [] then 0 else End(Last(ds))
  }

  /** On a sorted map the joints are those of the gapless run at the end of the map. */
  lemma ScanOfSortedMap(ds: seq<Descriptor>)
    requires Ascending(ds)
    ensures Scanned(ds) == EndOfMemory(ds) <==> ds == [] || Joints(ds, |ds| - 1, Last(ds).start) % 2 == 0
    ensures ds != [] && Joints(ds, |ds| - 1, Last(ds).start) % 2 == 1 ==> Scanned(ds) == Last(ds).start
  {
    hide End, Joints;
    if ds != [] {
      AscendingIsSeparate(ds);
      EndOfMemoryIsHighest(ds);
      ScanOfAnyMap(ds, |ds| - 1);
    }
  }

  lemma InitAscending(ds: seq<Descriptor>)
    requires Ascending(ds) && ds != []
    ensures Ascending(Init(ds)) && EndOfMemory(Init(ds)) <= Last(ds).start < End(Last(ds))
    ensures Init(ds) != [] ==> Last(Init(ds)).start < EndOfMemory(Init(ds))
  {
    hide End;
    assert forall d | d in Init(ds) :: d in ds by {
      assert ds == Init(ds) + [Last(ds)];
    }
    BoundedEnd(Last(ds));
    if Init(ds) != [] {
      assert Last(Init(ds)) == ds[|ds| - 2] && ds[|ds| - 2] in ds;
      BoundedEnd(ds[|ds| - 2]);
    }
  }

  lemma BoundedEnd(d: Descriptor)
    requires Bounded(d)
    ensures End(d) == d.start + d.pages * 0x1000
  {
  }

  /** The end of memory is the highest end of a sorted map. */
  lemma {:induction false} EndOfMemoryIsHighest(ds: seq<Descriptor>)
    requires Ascending(ds)
    ensures forall d | d in ds :: End(d) <= EndOfMemory(ds)
    decreases |ds|
  {
    if ds != [] {
      assert ds == Init(ds) + [Last(ds)];
      InitAscending(ds);
      EndOfMemoryIsHighest(Init(ds));
    }
  }

  lemma AscendingIsSeparate(ds: seq<Descriptor>)
    requires Ascending(ds)
    ensures Separate(ds)
  {
    hide End;
    forall i, j | 0 <= i < j < |ds|
      ensures End(ds[i]) <= ds[j].start
    {
      EndsBelow(ds, i, j);
    }
  }

  lemma {:induction false} EndsBelow(ds: seq<Descriptor>, i: nat, j: nat)
    requires Ascending(ds) && i < j < |ds|
    ensures End(ds[i]) <= ds[j].start
    decreases j
  {
    hide End;
    if i < j - 1 {
      EndsBelow(ds, i, j - 1);
      BoundedEnd(ds[j - 1]);
    }
  }

  /** Two descriptors that touch, the first above address 0: the second is skipped. */
  lemma ScanSkipsATouchingDescriptor()
    ensures var ds := [Descriptor(0x1000, 1), Descriptor(0x2000, 1)];
            Ascending(ds) && Scanned(ds) == 0x2000 && EndOfMemory(ds) == 0x3000
  {
    var ds := [Descriptor(0x1000, 1), Descriptor(0x2000, 1)];
    assert Init(ds) == [ds[0]] && Init([ds[0]]) == [];
    assert Scanned([ds[0]]) == 0x2000;
  }

  /** The same in an unsorted map: the descriptor at 0x4000, which ends highest, starts where the
      one at 0x3000 ended. */
  lemma ScanSkipsInAnUnsortedMap()
    ensures var ds := [Descriptor(0x3000, 1), Descriptor(0x1000, 1), Descriptor(0x4000, 1)];
            Separate(ds) && Highest(ds, 3, 2) && End(ds[2]) == 0x5000 && Scanned(ds) == 0x4000
  {
    hide Scanned, End;
    var a, b, c := Descriptor(0x3000, 1), Descriptor(0x1000, 1), Descriptor(0x4000, 1);
    assert [a, b, c] == [a, b] + [c] && [a, b] == [a] + [b] && [a] == [] + [a];
    BoundedEnd(a);
    BoundedEnd(b);
    BoundedEnd(c);
    ScanOfOneMore([], a);
    ScanOfOneMore([a], b);
    ScanOfOneMore([a, b], c);
  }
}
