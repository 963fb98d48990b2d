/** The page-table builder as it is written: words of physical memory are changed in place, and
    pages come from the firmware one at a time. Each method is proved against PagingSpec. */
module BootStub {
  import opened Bits
  import opened BitForms
  import opened PagingSpec
  import opened PagingProofs
  import opened PagingTheorems
  import opened PagingRuns
  import opened Ranges
  import Spec = PagingSpec

  // ----- Clearing a page byte by byte -----

  /** A word after its byte k was set to zero. */
  function ByteCleared(w: nat, k: nat): (c: nat)
    ensures c <= w
  {
    if k == 0 then w / 256 * 256 else 256 * ByteCleared(w / 256, k - 1) + w % 256
  }

  /** The k low bytes of a word are zero. */
  predicate LowBytesZero(w: nat, k: nat) {
    k == 0 || (w % 256 == 0 && LowBytesZero(w / 256, k - 1))
  }

  lemma {:induction false} ClearingGoesUp(w: nat, k: nat)
    requires LowBytesZero(w, k)
    ensures LowBytesZero(ByteCleared(w, k), k + 1)
  {
    if k > 0 {
      ClearingGoesUp(w / 256, k - 1);
    }
  }

  function Pow256(k: nat): nat {
    if k == 0 then 1 else 256 * Pow256(k - 1)
  }

  lemma {:induction false} AllBytesZero(w: nat, k: nat)
    requires LowBytesZero(w, k) && w < Pow256(k)
    ensures w == 0
  {
    if k > 0 {
      AllBytesZero(w / 256, k - 1);
    }
  }

  class Machine {
    /** The frames in use. */
    var pages: map<u64, Page>
    /** What the firmware will answer. */
    var supply: seq<Reply>

    constructor (pages: map<u64, Page>, supply: seq<Reply>)
      ensures Now() == State(pages, supply)
    {
      this.pages := pages;
      this.supply := supply;
    }

    function Now(): State
      reads this
    {
      State(pages, supply)
    }

    method AllocatePages() returns (status: u64, base: u64)
      modifies this
      ensures Outcome(status, base, Now()) == Spec.AllocatePages(old(Now()))
    {
      if supply == [] {
        return EFI_OUT_OF_RESOURCES, 0;
      }
      var reply := supply[0];
      supply := supply[1..];
      match reply {
        case Refuse(s) =>
          status, base := s, 0;
        case Grant(b, junk) =>
          pages := pages[b := junk];
          status, base := EFI_SUCCESS, b;
      }
    }

    /** The loop of GetTable that clears a new page, one byte at a time. */
    method ClearPage(base: u64)
      requires base in pages
      modifies this`pages
      ensures pages == old(pages)[base := Zeros(512)]
    {
      var i := 0;
      while i < 0x1000
        invariant 0 <= i <= 0x1000
        invariant base in pages && pages == old(pages)[base := pages[base]]
        invariant forall j :: 0 <= j < i / 8 ==> pages[base][j] == 0
        invariant i < 0x1000 ==> LowBytesZero(pages[base][i / 8], i % 8)
      {
        var w := pages[base][i / 8];
        ClearingGoesUp(w, i % 8);
        pages := pages[base := pages[base][i / 8 := ByteCleared(w, i % 8)]];
        if i % 8 == 7 {
          assert Pow256(8) == TWO_64;
          AllBytesZero(ByteCleared(w, 7), 8);
        }
        i := i + 1;
      }
      assert pages[base] == Zeros(512);
    }

    method GetTable(table: u64, entry: nat) returns (status: u64, found: u64)
      requires table in pages && entry < 512 && Honest(Now())
      modifies this
      ensures Outcome(status, found, Now()) == Spec.GetTable(old(Now()), table, entry)
      ensures !Present(old(pages)[table][entry]) ==>
                && (old(supply) == [] ==> status == 0x8000_0000_0000_0009 && pages == old(pages))
                && (old(supply) != [] && old(supply)[0].Refuse? ==>
                     status == old(supply)[0].status && pages == old(pages) && supply == old(supply)[1..])
                && (old(supply) != [] && old(supply)[0].Grant? ==> status == 0 && found == old(supply)[0].base)
      ensures table in pages
    {
      EntryForms(pages[table][entry]);
      if And(pages[table][entry], PTE_PRESENT) != 0 {
        return EFI_SUCCESS, And(pages[table][entry], PTE_ADDR_MASK);
      }
      status, found := AllocatePages();
      if status != EFI_SUCCESS {
        return;
      }
      ClearPage(found);
      pages := pages[table := pages[table][entry := found]];
    }

    /** `|= 3` on an entry. */
    method MarkPresent(table: u64, entry: nat)
      requires table in pages && entry < 512
      modifies this`pages
      ensures pages == Store(old(pages), table, entry, MadePresent(old(pages)[table][entry]))
    {
      EntryForms(pages[table][entry]);
      pages := pages[table := pages[table][entry := Or(pages[table][entry], 3)]];
    }

    /** The part that MMap and MakeTempRegion share: find or make the three tables below the
        root. */
    method FindPageTable(virt: u64, pml4: u64) returns (status: u64, pt: u64)
      requires WellFormed(Now(), pml4)
      modifies this
      ensures Outcome(status, pt, Now()) == PageTableOf(old(Now()), pml4, virt)
      ensures !IsError(status) ==> pt in pages
    {
      hide WellFormed, Honest;
      IndexForms(virt);
      var entryPML4 := And(Shr(virt, 39), 0x1ff);
      var entryPDPT := And(Shr(virt, 30), 0x1ff);
      var entryPD := And(Shr(virt, 21), 0x1ff);
      TablesOnThePath(Now(), pml4, virt);

      var pdpt;
      status, pdpt := GetTable(pml4, entryPML4);
      if IsError(status) {
        return status, pdpt;
      }
      MarkPresent(pml4, entryPML4);

      var pd;
      status, pd := GetTable(pdpt, entryPDPT);
      if IsError(status) {
        return status, pd;
      }
      MarkPresent(pdpt, entryPDPT);

      status, pt := GetTable(pd, entryPD);
      if IsError(status) {
        return;
      }
      MarkPresent(pd, entryPD);
    }

    method MMap(phys: u64, virt: u64, cached: bool, pml4: u64) returns (status: u64)
      requires WellFormed(Now(), pml4)
      modifies this
      ensures status == Spec.MMap(old(Now()), pml4, phys, virt, cached).status
      ensures Now() == Spec.MMap(old(Now()), pml4, phys, virt, cached).state
      ensures WellFormed(Now(), pml4)
      ensures View(pages, pml4)
              == if IsError(status) then old(View(pages, pml4))
                 else old(View(pages, pml4))[PageNumber(virt) := MappingFor(phys, cached)]
    {
      hide WellFormed, View, PageTableOf;
      MMapRefines(Now(), pml4, phys, virt, cached);
      var pt;
      status, pt := FindPageTable(virt, pml4);
      if IsError(status) {
        return;
      }
      IndexForms(virt);
      LeafEntryForm(phys, cached);
      var entryPT := And(Shr(virt, 12), 0x1ff);
      pages := pages[pt := pages[pt][entryPT := Or(Or(And(phys, NOT_FFF), 3), if cached then 16 else 0)]];
      return EFI_SUCCESS;
    }

    method MakeTempRegion(virt: u64, pml4: u64) returns (status: u64)
      requires WellFormed(Now(), pml4)
      modifies this
      ensures status == Spec.MakeTempRegion(old(Now()), pml4, virt).status
      ensures Now() == Spec.MakeTempRegion(old(Now()), pml4, virt).state
      ensures WellFormed(Now(), pml4)
      ensures if IsError(status) then View(pages, pml4) == old(View(pages, pml4))
              else
                var pt := ServingTable(pages, pml4, virt);
                View(pages, pml4) == old(View(pages, pml4))[PageNumber(virt) := Mapped(pt, 3, true)]
    {
      hide WellFormed, View, PageTableOf;
      MakeTempRegionRefines(Now(), pml4, virt);
      var pt;
      status, pt := FindPageTable(virt, pml4);
      if IsError(status) {
        return;
      }
      IndexForms(virt);
      LeafEntryForm(pt, false);
      var entryPT := And(Shr(virt, 12), 0x1ff);
      pages := pages[pt := pages[pt][entryPT := Or(And(pt, NOT_FFF), 3)]];
      return EFI_SUCCESS;
    }

    /** `for (i = 0; i < n; i += 0x1000) MMap(phys + i, virt + i, ...)`, the form of all mapping
        loops of `efi_main`. The statuses are not looked at. With n above the stated bound the
        64-bit counter wraps before it reaches n. */
    method MapRange(phys: u64, virt: u64, n: u64, cached: bool, pml4: u64)
      requires WellFormed(Now(), pml4) && n <= 0xFFFF_FFFF_FFFF_F000
      modifies this
      ensures Now() == Run(old(Now()), pml4, RangeOps(phys, virt, Rounds(n), cached))
      ensures WellFormed(Now(), pml4)
    {
      hide WellFormed, Honest, View, Spec.MMap, PageNumber, MappingFor;
      ghost var k := 0;
      var i: u64 := 0;
      while i < n
        invariant i == k * 0x1000 && k <= Rounds(n)
        invariant WellFormed(Now(), pml4)
        invariant Now() == Run(old(Now()), pml4, RangeOps(phys, virt, k, cached))
        decreases Rounds(n) - k
      {
        RunAppend(old(Now()), pml4, RangeOps(phys, virt, k, cached), [PageOp(phys, virt, k, cached)]);
        OneStep(Now(), pml4, PageOp(phys, virt, k, cached));
        var status := MMap(Wrap(phys + i), Wrap(virt + i), cached, pml4);
        i := i + 0x1000;
        k := k + 1;
      }
    }
  }

  lemma TablesOnThePath(s: State, root: u64, virt: u64)
    requires WellFormed(s, root)
    ensures root in s.pages && Honest(s)
    ensures var g3 := Descend(s, root, EntryPML4(virt));
            !IsError(g3.status) ==>
              && g3.table in g3.state.pages && Honest(g3.state)
              && var g2 := Descend(g3.state, g3.table, EntryPDPT(virt));
                 !IsError(g2.status) ==>
                   && g2.table in g2.state.pages && Honest(g2.state)
                   && var g1 := Descend(g2.state, g2.table, EntryPD(virt));
                      !IsError(g1.status) ==> g1.table in g1.state.pages
  {
    hide Descend;
    var tree :| Good(s, root, tree);
    var p := PageNumber(virt);
    ServingPath(virt);
    DescendKeeps(s, root, tree, ROOT, EntryPML4(virt));
    var g3 := Descend(s, root, EntryPML4(virt));
    var tree3 := Grown(tree, ROOT, EntryPML4(virt), g3);
    if !IsError(g3.status) {
      DescendKeeps(g3.state, root, tree3, Serving(p, 1), EntryPDPT(virt));
      var g2 := Descend(g3.state, g3.table, EntryPDPT(virt));
      var tree2 := Grown(tree3, Serving(p, 1), EntryPDPT(virt), g2);
      if !IsError(g2.status) {
        DescendKeeps(g2.state, root, tree2, Serving(p, 2), EntryPD(virt));
      }
    }
  }
}
